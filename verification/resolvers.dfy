/** How a declared secret is classified, and the two loaders that need no
    Vault: inline literals and environment variables. */
module Resolvers {
  import opened Wrappers
  import opened Values
  import opened SecretMaps

  /** `isinstance(value, dict) and value.get("type") == tag`. */
  predicate IsTagged(v: Value, tag: string) {
    v.Obj? && Get(v.fields, "type") == Str(tag)
  }

  /** The guard of the inline loader: not a dict, or a dict whose `type`
      is neither "env" nor "vault". */
  predicate ClaimedByInline(v: Value) {
    !v.Obj? || Get(v.fields, "type") !in {Str("env"), Str("vault")}
  }

  /** The guard of the environment loader. */
  predicate ClaimedByEnv(v: Value) {
    IsTagged(v, "env")
  }

  /** The guard of the Vault loader. */
  predicate ClaimedByVault(v: Value) {
    IsTagged(v, "vault")
  }

  /** The three kinds of declared secret. */
  datatype Kind = Literal | EnvRef | VaultRef

  /** The kind of a declared secret, read off its `type` discriminant; an
      unknown `type` (or none) makes a literal. Each kind is the one the
      matching loader's guard picks, so every declared secret is claimed
      by exactly one loader. */
  function KindOf(v: Value): (k: Kind)
    ensures k == Literal <==> ClaimedByInline(v)
    ensures k == EnvRef <==> ClaimedByEnv(v)
    ensures k == VaultRef <==> ClaimedByVault(v)
  {
    match v
    case Obj(fields) =>
      (match Get(fields, "type")
       case Str(tag) => if tag == "env" then EnvRef else if tag == "vault" then VaultRef else Literal
       case _ => Literal)
    case _ => Literal
  }

  // ---------------------------------------------------------------------
  // Inline secrets
  // ---------------------------------------------------------------------

  /** The inner loop of `load_inline_secrets` over one target's secrets. */
  function InlineEntries(keys: map<string, Value>): (r: map<string, Value>)
    ensures forall n :: n in r <==> n in keys && ClaimedByInline(keys[n])
    ensures forall n :: n in r ==> r[n] == keys[n]
  {
    map n | n in keys && ClaimedByInline(keys[n]) :: keys[n]
  }

  /** `load_inline_secrets`: the literals, copied through unchanged. */
  function LoadInlineSecrets(info: Secrets): (r: Secrets)
    ensures NoEmptyTargets(r)
    ensures forall t, n :: Has(r, t, n) <==> Has(info, t, n) && ClaimedByInline(info[t][n])
    ensures forall t, n :: Has(r, t, n) ==> Has(info, t, n) && r[t][n] == info[t][n]
  {
    DropEmpty(map t | t in info :: InlineEntries(info[t]))
  }

  // ---------------------------------------------------------------------
  // Environment secrets
  // ---------------------------------------------------------------------

  type Environment = map<string, string>

  /** An env reference names its variable by a string `key`; without one
      the loader raises KeyError (or TypeError, from `os.environ`, for a
      key that is not a string). */
  predicate EnvRefWellFormed(v: Value) {
    ClaimedByEnv(v) ==> "key" in v.fields && v.fields["key"].Str?
  }

  predicate EnvRefsWellFormed(info: Secrets) {
    forall t, n :: t in info && n in info[t] ==> EnvRefWellFormed(info[t][n])
  }

  /** The variable an env reference names. */
  function EnvKey(v: Value): string
    requires ClaimedByEnv(v) && EnvRefWellFormed(v)
  {
    v.fields["key"].s
  }

  /** The variables referenced by `info` that the environment lacks. */
  function MissingEnvKeys(info: Secrets, env: Environment): (missing: set<string>)
    requires EnvRefsWellFormed(info)
    ensures forall t, n :: t in info && n in info[t] && ClaimedByEnv(info[t][n]) ==>
              (EnvKey(info[t][n]) in missing <==> EnvKey(info[t][n]) !in env)
    ensures forall k :: k in missing ==> k !in env
    ensures missing == {} <==>
              forall t, n :: t in info && n in info[t] && ClaimedByEnv(info[t][n]) ==> EnvKey(info[t][n]) in env
  {
    set t, n | t in info && n in info[t] && ClaimedByEnv(info[t][n]) && EnvKey(info[t][n]) !in env
      :: EnvKey(info[t][n])
  }

  /** The inner loop of `load_secrets_from_env` over one target's secrets,
      once every variable is known to be present. */
  function EnvEntries(keys: map<string, Value>, env: Environment): (r: map<string, Value>)
    requires forall n :: n in keys && ClaimedByEnv(keys[n]) ==> EnvRefWellFormed(keys[n]) && EnvKey(keys[n]) in env
    ensures forall n :: n in r <==> n in keys && ClaimedByEnv(keys[n])
    ensures forall n :: n in r ==> r[n] == Str(env[EnvKey(keys[n])])
  {
    map n | n in keys && ClaimedByEnv(keys[n]) :: Str(env[EnvKey(keys[n])])
  }

  /** `load_secrets_from_env`: every env reference replaced by its
      variable's value; the whole call raises when a variable is missing.
      Python stops at the first missing variable in dict order, which the
      map model does not carry, so this definition is ghost and its error
      names one of the missing variables, left unspecified. */
  ghost function LoadSecretsFromEnv(info: Secrets, env: Environment): (r: Result<Secrets, Error>)
    requires EnvRefsWellFormed(info)
    ensures r.Failure? <==> MissingEnvKeys(info, env) != {}
    ensures r.Failure? ==> exists k :: k in MissingEnvKeys(info, env) && r.error == MissingEnvKey(k)
    ensures r.Success? ==> NoEmptyTargets(r.value)
    ensures r.Success? ==> forall t, n :: Has(r.value, t, n) <==> Has(info, t, n) && ClaimedByEnv(info[t][n])
    ensures r.Success? ==> forall t, n :: Has(r.value, t, n) ==>
              Has(info, t, n) && EnvKey(info[t][n]) in env && r.value[t][n] == Str(env[EnvKey(info[t][n])])
  {
    var missing := MissingEnvKeys(info, env);
    if missing != {} then
      var k :| k in missing;
      Failure(MissingEnvKey(k))
    else
      Success(DropEmpty(map t | t in info :: EnvEntries(info[t], env)))
  }
}
