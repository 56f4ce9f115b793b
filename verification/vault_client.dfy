/** `create_vault_client`: which Vault client the secret loader works
    with, decided by which configuration keys are present. The hvac
    package and the Vault server are oracles. */
module VaultClientFactory {
  import opened Wrappers
  import opened Values
  import opened SecretMaps

  /** The experiment's `configuration` section. */
  type Configuration = map<string, Value>

  /** The body of a Vault read (a dict decoded from JSON). */
  type Payload = map<string, Value>

  /** What a client carries into every request: the server address, the
      KV version its `secrets.kv` defaults to, and the token it presents
      (`None` when unauthenticated). */
  datatype Connection = Connection(url: Value, kvVersion: string, token: Option<Value>)

  /** `None` when hvac could not be imported, a client otherwise. */
  datatype Client = NoClient | Client(conn: Connection)

  /** The hvac package, either not importable or importable together with
      the server it talks to:
      - `approleLogin(url, roleId, roleSecret)` is `auth_approle`, giving
        the response's `auth.client_token`, or the text of the exception
        it raised;
      - `readV1(conn, path)` is `secrets.kv.v1.read_secret`;
      - `readV2(conn, path)` is `secrets.kv.v2.read_secret_version`;
      both reads give the decoded payload or `None`. */
  datatype Hvac =
    | NotInstalled
    | Installed(
        approleLogin: (Value, Value, Value) -> Result<Value, string>,
        readV1: (Connection, Value) -> Option<Payload>,
        readV2: (Connection, Value) -> Option<Payload>)

  /** The configured KV version value, "2" when none is configured. */
  function KvVersionSetting(config: Configuration): Value {
    GetOr(config, "vault_kv_version", Str("2"))
  }

  /** Both approle fields are configured. */
  predicate HasApprole(config: Configuration) {
    "vault_role_id" in config && "vault_role_secret" in config
  }

  /** What `auth_approle` answers for the configured role. */
  function ApproleAnswer(config: Configuration, hvac: Hvac): Result<Value, string>
    requires hvac.Installed? && HasApprole(config)
  {
    hvac.approleLogin(Get(config, "vault_addr"), config["vault_role_id"], config["vault_role_secret"])
  }

  /** `create_vault_client`. A configured `vault_token` is used as is and
      the approle exchange is not attempted; otherwise both approle fields
      trade for a token, and a failed exchange raises; with neither the
      client stays unauthenticated. The KV version is `str` of the
      configured one, so it is "1" exactly for the string "1" or the
      integer 1. */
  function CreateVaultClient(config: Configuration, hvac: Hvac): (r: Result<Client, Error>)
    ensures hvac.NotInstalled? ==> r == Success(NoClient)
    ensures hvac.Installed? ==>
              (r.Failure? <==> "vault_token" !in config && HasApprole(config) && ApproleAnswer(config, hvac).Failure?)
    ensures r.Failure? ==> hvac.Installed? && HasApprole(config) && r.error == ApproleFailed(ApproleAnswer(config, hvac).error)
    ensures hvac.Installed? && r.Success? ==>
              && r.value.Client?
              && r.value.conn.url == Get(config, "vault_addr")
              && r.value.conn.kvVersion == PyStr(KvVersionSetting(config))
              && (r.value.conn.kvVersion == "1" <==> KvVersionSetting(config) in {Str("1"), Int(1)})
    ensures hvac.Installed? && "vault_token" in config ==>
              r.Success? && r.value.conn.token == Some(config["vault_token"])
    ensures hvac.Installed? && "vault_token" !in config && HasApprole(config) && r.Success? ==>
              r.value.conn.token == Some(ApproleAnswer(config, hvac).value)
    ensures hvac.Installed? && "vault_token" !in config && !HasApprole(config) ==>
              r.Success? && r.value.conn.token == None
  {
    match hvac
    case NotInstalled => Success(NoClient)
    case Installed(_, _, _) =>
      var url := Get(config, "vault_addr");
      PyStrIsOne(KvVersionSetting(config));
      var version := PyStr(KvVersionSetting(config));
      if "vault_token" in config then
        Success(Client(Connection(url, version, Some(config["vault_token"]))))
      else if HasApprole(config) then
        match ApproleAnswer(config, hvac)
        case Failure(cause) => Failure(ApproleFailed(cause))
        case Success(token) => Success(Client(Connection(url, version, Some(token))))
      else
        Success(Client(Connection(url, version, None)))
  }
}
