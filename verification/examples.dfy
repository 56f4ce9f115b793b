/** The behaviours the repository's tests check, and the example of the
    `load_secrets` docstring, stated over any hvac that answers as the
    tests' mocks do. */
module SecretExamples {
  import opened Wrappers
  import opened Values
  import opened SecretMaps
  import opened Resolvers
  import opened VaultClientFactory
  import opened VaultResolver
  import opened Orchestrator

  const KubeUrlRef := Obj(map["type" := Str("env"), "key" := Str("KUBE_API_URL")])
  const KubeEnv: Environment := map["KUBE_API_URL" := "http://1.2.3.4"]

  /** An env reference resolves to its variable's value. */
  lemma ShouldLoadEnvironment(hvac: Hvac)
    ensures var info := map["kubernetes" := map["api_server_url" := KubeUrlRef]];
            && Loadable(info, map[], hvac)
            && LoadSecrets(info, map[], KubeEnv, hvac).Success?
            && Has(LoadSecrets(info, map[], KubeEnv, hvac).value, "kubernetes", "api_server_url")
            && LoadSecrets(info, map[], KubeEnv, hvac).value["kubernetes"]["api_server_url"] == Str("http://1.2.3.4")
  {
    var info := map["kubernetes" := map["api_server_url" := KubeUrlRef]];
    assert EnvKey(info["kubernetes"]["api_server_url"]) == "KUBE_API_URL";
    assert EnvRefsWellFormed(info);
    assert MissingEnvKeys(info, KubeEnv) == {};
    assert Loadable(info, map[], hvac);
    EnvReferenceResolvesToVariable(info, map[], KubeEnv, hvac, "kubernetes", "api_server_url");
  }

  /** A literal comes out as declared. */
  lemma ShouldLoadInline(hvac: Hvac)
    requires CreateVaultClient(map[], hvac).Success?
    ensures var info := map["kubernetes" := map["api_server_url" := Str("http://1.2.3.4")]];
            && Loadable(info, map[], hvac)
            && LoadSecrets(info, map[], map[], hvac) == Success(info)
  {
    var info := map["kubernetes" := map["api_server_url" := Str("http://1.2.3.4")]];
    assert ClaimedByInline(info["kubernetes"]["api_server_url"]);
    LiteralOnlySpecIsLoadable(info, map[], hvac);
    LiteralOnlySpecResolvesToItself(info, map[], map[], hvac);
    assert NoEmptyTargets(info);
  }

  const Address := Obj(map["host" := Str("whatever"), "port" := Int(8090)])
  const MergeInfo: Secrets := map["kubernetes" := map[
    "username" := Str("jane"),
    "address" := Address,
    "api_server_url" := KubeUrlRef]]

  /** The kinds of the merge test's secrets. */
  lemma MergeInfoKinds()
    ensures Has(MergeInfo, "kubernetes", "username") && ClaimedByInline(MergeInfo["kubernetes"]["username"])
    ensures Has(MergeInfo, "kubernetes", "address") && ClaimedByInline(MergeInfo["kubernetes"]["address"])
    ensures Has(MergeInfo, "kubernetes", "api_server_url") && ClaimedByEnv(MergeInfo["kubernetes"]["api_server_url"])
    ensures EnvRefWellFormed(MergeInfo["kubernetes"]["api_server_url"])
    ensures EnvKey(MergeInfo["kubernetes"]["api_server_url"]) == "KUBE_API_URL"
    ensures MergeInfo.Keys == {"kubernetes"}
    ensures MergeInfo["kubernetes"].Keys == {"username", "address", "api_server_url"}
  {
  }

  /** The merge test's declaration loads: its one env reference finds its
      variable and it has no Vault reference. */
  lemma MergeInfoLoads(hvac: Hvac)
    ensures Loadable(MergeInfo, map[], hvac)
    ensures LoadSecrets(MergeInfo, map[], KubeEnv, hvac).Success?
  {
    MergeInfoEnvPresent();
    MergeInfoKinds();
    assert forall t, n :: t in MergeInfo && n in MergeInfo[t] ==> !ClaimedByVault(MergeInfo[t][n]);
  }

  lemma MergeInfoEnvPresent()
    ensures EnvRefsWellFormed(MergeInfo)
    ensures MissingEnvKeys(MergeInfo, KubeEnv) == {}
  {
    MergeInfoKinds();
    assert forall t, n :: t in MergeInfo && n in MergeInfo[t] && ClaimedByEnv(MergeInfo[t][n]) ==>
             t == "kubernetes" && n == "api_server_url";
  }

  /** Inline literals and an untyped dict pass through next to a resolved
      env reference of the same target. */
  lemma ShouldMergeProperly(hvac: Hvac)
    ensures Loadable(MergeInfo, map[], hvac)
    ensures LoadSecrets(MergeInfo, map[], KubeEnv, hvac).Success?
    ensures var r := LoadSecrets(MergeInfo, map[], KubeEnv, hvac).value;
            && Has(r, "kubernetes", "username") && r["kubernetes"]["username"] == Str("jane")
            && Has(r, "kubernetes", "address") && r["kubernetes"]["address"] == Address
            && Has(r, "kubernetes", "api_server_url") && r["kubernetes"]["api_server_url"] == Str("http://1.2.3.4")
  {
    MergeInfoKinds();
    MergeInfoLoads(hvac);
    EnvReferenceResolvesToVariable(MergeInfo, map[], KubeEnv, hvac, "kubernetes", "api_server_url");
    InlineSecretPassesThrough(MergeInfo, map[], KubeEnv, hvac, "kubernetes", "username");
    InlineSecretPassesThrough(MergeInfo, map[], KubeEnv, hvac, "kubernetes", "address");
  }

  const ApproleConfig: Configuration := map[
    "vault_addr" := Str("http://someaddr.com"),
    "vault_role_id" := Str("mighty_id"),
    "vault_role_secret" := Str("secret_secret")]

  /** The approle exchange is asked with the configured role, and its token
      becomes the client's. */
  lemma ShouldAuthWithApprole(hvac: Hvac)
    requires hvac.Installed?
    requires hvac.approleLogin(Str("http://someaddr.com"), Str("mighty_id"), Str("secret_secret"))
               == Success(Str("awesome_token"))
    ensures CreateVaultClient(ApproleConfig, hvac).Success?
    ensures CreateVaultClient(ApproleConfig, hvac).value.conn.token == Some(Str("awesome_token"))
  {
  }

  /** A failed approle exchange aborts, even when no secret refers to
      Vault. */
  lemma ApproleFailureAbortsTheRun(hvac: Hvac, cause: string)
    requires hvac.Installed?
    requires hvac.approleLogin(Str("http://someaddr.com"), Str("mighty_id"), Str("expired")) == Failure(cause)
    ensures var config := ApproleConfig["vault_role_secret" := Str("expired")];
            && CreateVaultClient(config, hvac) == Failure(ApproleFailed(cause))
            && Loadable(map["t" := map["s" := Str("v")]], config, hvac)
            && LoadSecrets(map["t" := map["s" := Str("v")]], config, map[], hvac) == Failure(ApproleFailed(cause))
  {
  }

  const TokenConfig: Configuration := map[
    "vault_addr" := Str("http://someaddr.com"),
    "vault_token" := Str("not_awesome_token"),
    "vault_kv_version" := Str("1")]

  /** A configured token is used as is, for any approle behaviour. */
  lemma ShouldAuthWithToken(hvac: Hvac)
    requires hvac.Installed?
    ensures CreateVaultClient(TokenConfig, hvac) ==
              Success(Client(Connection(Str("http://someaddr.com"), "1", Some(Str("not_awesome_token")))))
  {
  }

  const SecretData := map["my-important-secret" := Str("bar"), "my-less-important-secret" := Str("baz")]

  const WholeRef := map["k8s" := map["a-secret" := Obj(map["type" := Str("vault"), "path" := Str("foo/stuff")])]]
  const KeyedRef := map["k8s" := map["a-secret" :=
    Obj(map["type" := Str("vault"), "path" := Str("foo/stuff"), "key" := Str("my-important-secret")])]]

  /** The two test references read `foo/stuff`: the whole one gets the
      secret data, the keyed one its `my-important-secret` field. */
  lemma TestRefsRead(hvac: Hvac, conn: Connection, payload: Payload)
    requires hvac.Installed?
    requires ReadPayload(hvac, conn, Str("foo/stuff")) == Some(payload) && payload != map[]
    requires UnwrapDefined(payload, IsKv1(conn)) && Unwrap(payload, IsKv1(conn)) == Obj(SecretData)
    ensures EntryReadable(WholeRef["k8s"]["a-secret"].fields, conn, hvac)
    ensures ReadVaultEntry(WholeRef["k8s"]["a-secret"].fields, conn, hvac) == Some(Obj(SecretData))
    ensures EntryReadable(KeyedRef["k8s"]["a-secret"].fields, conn, hvac)
    ensures ReadVaultEntry(KeyedRef["k8s"]["a-secret"].fields, conn, hvac) == Some(Str("bar"))
  {
    var whole := WholeRef["k8s"]["a-secret"].fields;
    var keyed := KeyedRef["k8s"]["a-secret"].fields;
    assert Get(whole, "path") == Str("foo/stuff") && "key" !in whole;
    assert Get(keyed, "path") == Str("foo/stuff") && keyed["key"] == Str("my-important-secret");
  }

  /** A spec of one Vault reference that resolves to `v` loads as that one
      secret. */
  lemma OneVaultSecretLoads(info: Secrets, config: Configuration, hvac: Hvac, conn: Connection, v: Value)
    requires hvac.Installed? && CreateVaultClient(config, hvac) == Success(Client(conn))
    requires info == WholeRef || info == KeyedRef
    requires EntryReadable(info["k8s"]["a-secret"].fields, conn, hvac)
    requires ReadVaultEntry(info["k8s"]["a-secret"].fields, conn, hvac) == Some(v)
    ensures Loadable(info, config, hvac)
    ensures var r := LoadSecretsFromVault(info, config, hvac);
            r.Success? && Has(r.value, "k8s", "a-secret") && r.value["k8s"]["a-secret"] == v
  {
    OneVaultRefLoadable(info, config, hvac, conn);
  }

  /** A spec of one readable Vault reference satisfies the loader's
      precondition. */
  lemma OneVaultRefLoadable(info: Secrets, config: Configuration, hvac: Hvac, conn: Connection)
    requires hvac.Installed? && CreateVaultClient(config, hvac) == Success(Client(conn))
    requires info == WholeRef || info == KeyedRef
    requires EntryReadable(info["k8s"]["a-secret"].fields, conn, hvac)
    ensures VaultRefsReadable(info, conn, hvac)
    ensures Loadable(info, config, hvac)
  {
    assert ClaimedByVault(info["k8s"]["a-secret"]);
  }

  /** KV version 1: the payload's `data` is the secret, whole or by key. */
  lemma ReadSecretsWithKvVersion1(hvac: Hvac)
    requires hvac.Installed?
    requires forall c :: hvac.readV1(c, Str("foo/stuff")) == Some(map[
               "auth" := Null,
               "data" := Obj(SecretData),
               "lease_duration" := Int(2764800),
               "lease_id" := Str(""),
               "renewable" := Bool(false)])
    ensures Loadable(WholeRef, TokenConfig, hvac) && Loadable(KeyedRef, TokenConfig, hvac)
    ensures var r := LoadSecretsFromVault(WholeRef, TokenConfig, hvac);
            r.Success? && Has(r.value, "k8s", "a-secret") && r.value["k8s"]["a-secret"] == Obj(SecretData)
    ensures var r := LoadSecretsFromVault(KeyedRef, TokenConfig, hvac);
            r.Success? && Has(r.value, "k8s", "a-secret") && r.value["k8s"]["a-secret"] == Str("bar")
  {
    var conn := CreateVaultClient(TokenConfig, hvac).value.conn;
    assert IsKv1(conn);
    var payload := hvac.readV1(conn, Str("foo/stuff")).value;
    assert "data" in payload && payload["data"] == Obj(SecretData);
    TestRefsRead(hvac, conn, payload);
    OneVaultSecretLoads(WholeRef, TokenConfig, hvac, conn, Obj(SecretData));
    OneVaultSecretLoads(KeyedRef, TokenConfig, hvac, conn, Str("bar"));
  }

  /** A declaration whose every Vault reference is skipped loads as `{}`
      from Vault. */
  lemma NothingReadLoadsNothing(info: Secrets, config: Configuration, hvac: Hvac, conn: Connection)
    requires hvac.Installed? && CreateVaultClient(config, hvac) == Success(Client(conn))
    requires VaultRefsReadable(info, conn, hvac)
    requires forall t, n :: t in info && n in info[t] && ClaimedByVault(info[t][n]) ==>
               ReadVaultEntry(info[t][n].fields, conn, hvac).None?
    ensures LoadSecretsFromVault(info, config, hvac) == Success(map[])
  {
    var r := LoadSecretsFromVault(info, config, hvac).value;
    forall t | t in r
      ensures false
    {
      TargetHasAnEntry(r, t);
    }
  }

  /** The keyed test reference against string data: the key does not
      occur in the string, so the lookup skips without raising. */
  lemma KeyedRefOnStringData(hvac: Hvac, conn: Connection)
    requires hvac.Installed? && IsKv1(conn)
    requires hvac.readV1(conn, Str("foo/stuff")) == Some(map["data" := Str("plain text")])
    ensures EntryReadable(KeyedRef["k8s"]["a-secret"].fields, conn, hvac)
    ensures ReadVaultEntry(KeyedRef["k8s"]["a-secret"].fields, conn, hvac) == None
  {
    var ref := KeyedRef["k8s"]["a-secret"].fields;
    assert Get(ref, "path") == Str("foo/stuff") && ref["key"] == Str("my-important-secret");
    var payload := map["data" := Str("plain text")];
    assert ReadPayload(hvac, conn, Str("foo/stuff")) == Some(payload);
    assert Unwrap(payload, true) == Str("plain text");
    LongerIsNoSubstring("my-important-secret", "plain text");
  }

  /** A keyed reference whose data is a string not containing the key is
      skipped, not resolved; the loader then pops the emptied target. */
  lemma KeyedRefOnStringDataIsSkipped(hvac: Hvac)
    requires hvac.Installed?
    requires forall c :: hvac.readV1(c, Str("foo/stuff")) == Some(map["data" := Str("plain text")])
    ensures Loadable(KeyedRef, TokenConfig, hvac)
    ensures LoadSecretsFromVault(KeyedRef, TokenConfig, hvac) == Success(map[])
  {
    var conn := CreateVaultClient(TokenConfig, hvac).value.conn;
    assert IsKv1(conn);
    KeyedRefOnStringData(hvac, conn);
    OneVaultRefLoadable(KeyedRef, TokenConfig, hvac, conn);
    NothingReadLoadsNothing(KeyedRef, TokenConfig, hvac, conn);
  }

  const Kv2Config: Configuration := TokenConfig["vault_kv_version" := Str("2")]

  /** KV version 2: the secret sits one `data` level deeper. */
  lemma ReadSecretsWithKvVersion2(hvac: Hvac)
    requires hvac.Installed?
    requires forall c :: hvac.readV2(c, Str("foo/stuff")) == Some(map[
               "data" := Obj(map[
                 "data" := Obj(SecretData),
                 "metadata" := Obj(map[
                   "auth" := Null,
                   "lease_duration" := Int(2764800),
                   "lease_id" := Str(""),
                   "renewable" := Bool(false)])])])
    ensures Loadable(WholeRef, Kv2Config, hvac) && Loadable(KeyedRef, Kv2Config, hvac)
    ensures var r := LoadSecretsFromVault(WholeRef, Kv2Config, hvac);
            r.Success? && Has(r.value, "k8s", "a-secret") && r.value["k8s"]["a-secret"] == Obj(SecretData)
    ensures var r := LoadSecretsFromVault(KeyedRef, Kv2Config, hvac);
            r.Success? && Has(r.value, "k8s", "a-secret") && r.value["k8s"]["a-secret"] == Str("bar")
  {
    var conn := CreateVaultClient(Kv2Config, hvac).value.conn;
    assert !IsKv1(conn);
    var payload := hvac.readV2(conn, Str("foo/stuff")).value;
    assert "data" in payload && payload["data"].Obj?;
    var inner := payload["data"].fields;
    assert "data" in inner && inner["data"] == Obj(SecretData);
    TestRefsRead(hvac, conn, payload);
    OneVaultSecretLoads(WholeRef, Kv2Config, hvac, conn, Obj(SecretData));
    OneVaultSecretLoads(KeyedRef, Kv2Config, hvac, conn, Str("bar"));
  }

  const DocstringInfo: Secrets := map[
    "target_1" := map["mysecret_1" := Str("some value")],
    "target_2" := map["mysecret_2" := Obj(map["type" := Str("env"), "key" := Str("SOME_ENV_VAR")])],
    "target_3" := map["mysecret_3" := Obj(map["type" := Str("vault"), "key" := Str("secrets/some/key")])]]
  const DocstringEnv: Environment := map["SOME_ENV_VAR" := "some other value"]

  lemma DocstringEnvRefsWellFormed()
    ensures EnvRefsWellFormed(DocstringInfo)
    ensures forall t, n :: t in DocstringInfo && n in DocstringInfo[t] && ClaimedByEnv(DocstringInfo[t][n]) ==>
              t == "target_2" && n == "mysecret_2"
    ensures EnvKey(DocstringInfo["target_2"]["mysecret_2"]) == "SOME_ENV_VAR"
  {
  }

  lemma DocstringEnvRefsPresent()
    ensures EnvRefsWellFormed(DocstringInfo)
    ensures MissingEnvKeys(DocstringInfo, DocstringEnv) == {}
  {
    DocstringEnvRefsWellFormed();
  }

  lemma DocstringTarget3IsPathless()
    ensures "target_3" in DocstringInfo
    ensures forall n :: n in DocstringInfo["target_3"] ==>
              ClaimedByVault(DocstringInfo["target_3"][n]) && Get(DocstringInfo["target_3"][n].fields, "path") == Null
  {
    assert DocstringInfo["target_3"].Keys == {"mysecret_3"};
  }

  /** The docstring's declaration can be loaded whenever the Vault client
      can be built: its one env reference finds its variable, and its one
      Vault reference is never read. */
  lemma DocstringExampleLoads(hvac: Hvac, config: Configuration)
    requires CreateVaultClient(config, hvac).Success?
    ensures Loadable(DocstringInfo, config, hvac)
    ensures LoadSecrets(DocstringInfo, config, DocstringEnv, hvac).Success?
  {
    DocstringEnvRefsPresent();
    DocstringTarget3IsPathless();
    assert forall t, n :: t in DocstringInfo && n in DocstringInfo[t] && ClaimedByVault(DocstringInfo[t][n]) ==>
             t == "target_3";
  }

  /** The docstring's example gives its Vault reference a `key` but no
      `path`; the loader skips such a reference, so `target_3` is absent
      rather than resolved. */
  lemma DocstringExampleDropsTarget3(hvac: Hvac, config: Configuration)
    requires CreateVaultClient(config, hvac).Success?
    ensures Loadable(DocstringInfo, config, hvac)
    ensures LoadSecrets(DocstringInfo, config, DocstringEnv, hvac).Success?
    ensures "target_3" !in LoadSecrets(DocstringInfo, config, DocstringEnv, hvac).value
  {
    DocstringExampleLoads(hvac, config);
    DocstringTarget3IsPathless();
    PathlessVaultTargetIsDropped(DocstringInfo, config, DocstringEnv, hvac, "target_3");
  }

  /** A missing variable next to a Vault reference whose read would raise:
      the version 2 answer's `data` is a string, not a dict. */
  const BadVaultInfo: Secrets := map["app" := map[
    "token" := Obj(map["type" := Str("env"), "key" := Str("MISSING")]),
    "db" := Obj(map["type" := Str("vault"), "path" := Str("secret/db")])]]

  lemma BadVaultInfoKinds()
    ensures BadVaultInfo.Keys == {"app"} && BadVaultInfo["app"].Keys == {"token", "db"}
    ensures ClaimedByEnv(BadVaultInfo["app"]["token"]) && EnvRefWellFormed(BadVaultInfo["app"]["token"])
    ensures EnvKey(BadVaultInfo["app"]["token"]) == "MISSING"
    ensures ClaimedByVault(BadVaultInfo["app"]["db"]) && !ClaimedByEnv(BadVaultInfo["app"]["db"])
    ensures Get(BadVaultInfo["app"]["db"].fields, "path") == Str("secret/db")
  {
  }

  /** The Vault loader alone would raise on `BadVaultInfo`. */
  lemma BadVaultReadIsUndefined(hvac: Hvac)
    requires hvac.Installed?
    requires forall c :: hvac.readV2(c, Str("secret/db")) == Some(map["data" := Str("oops")])
    ensures !VaultReadsDefined(BadVaultInfo, map[], hvac)
  {
    BadVaultInfoKinds();
    var conn := CreateVaultClient(map[], hvac).value.conn;
    assert !IsKv1(conn);
    var ref := BadVaultInfo["app"]["db"].fields;
    var payload := map["data" := Str("oops")];
    assert ReadPayload(hvac, conn, Str("secret/db")) == Some(payload);
    assert "data" in payload && !PayloadEmpty(Some(payload));
    assert !UnwrapDefined(payload, false);
  }

  /** `load_secrets` raises the environment error on `BadVaultInfo`: the
      environment loader runs first, so the Vault read is never made. */
  lemma MissingVariableBeforeBadVaultRead(hvac: Hvac)
    requires hvac.Installed?
    requires forall c :: hvac.readV2(c, Str("secret/db")) == Some(map["data" := Str("oops")])
    ensures !Loadable(BadVaultInfo, map[], hvac)
    ensures LoadSecretsDefined(BadVaultInfo, map[], map[], hvac)
    ensures LoadSecrets(BadVaultInfo, map[], map[], hvac) == Failure(MissingEnvKey("MISSING"))
  {
    BadVaultReadIsUndefined(hvac);
    BadVaultInfoKinds();
    assert EnvRefsWellFormed(BadVaultInfo);
    assert MissingEnvKeys(BadVaultInfo, map[]) == {"MISSING"};
  }
}
