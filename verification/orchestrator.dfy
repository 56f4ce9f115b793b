/** `load_secrets`: the three loaders run in a fixed order (inline,
    environment, Vault) and their outputs merged target by target. */
module Orchestrator {
  import opened Wrappers
  import opened Values
  import opened SecretMaps
  import opened Resolvers
  import opened VaultClientFactory
  import opened VaultResolver

  /** Each loader, run on its own, ends or raises InvalidExperiment and
      never another exception: env references name their variable by a
      string, and the Vault reads do not trip over malformed data. */
  predicate Loadable(info: Secrets, config: Configuration, hvac: Hvac) {
    EnvRefsWellFormed(info) && VaultReadsDefined(info, config, hvac)
  }

  /** `load_secrets` ends or raises InvalidExperiment and never another
      exception. A missing variable raises before the Vault loader starts,
      so the Vault reads only matter when every variable is present. */
  predicate LoadSecretsDefined(info: Secrets, config: Configuration, env: Environment, hvac: Hvac) {
    && EnvRefsWellFormed(info)
    && (MissingEnvKeys(info, env) == {} ==> VaultReadsDefined(info, config, hvac))
  }

  /** `load_secrets`: the fold of the loaders' outputs, in order. A failing
      loader raises through it, so nothing partial is returned; the
      environment loader runs before the Vault client is built, so its
      error is the one seen when both would fail. */
  ghost function LoadSecrets(info: Secrets, config: Configuration, env: Environment, hvac: Hvac): (r: Result<Secrets, Error>)
    requires LoadSecretsDefined(info, config, env, hvac)
    ensures r.Failure? <==> MissingEnvKeys(info, env) != {} || CreateVaultClient(config, hvac).Failure?
    ensures MissingEnvKeys(info, env) != {} ==>
              exists k :: k in MissingEnvKeys(info, env) && r == Failure(MissingEnvKey(k))
    ensures MissingEnvKeys(info, env) == {} && CreateVaultClient(config, hvac).Failure? ==>
              r == Failure(CreateVaultClient(config, hvac).error)
    ensures r.Success? ==> NoEmptyTargets(r.value)
    ensures r.Success? ==>
              && ResolutionDefined(info, env, CreateVaultClient(config, hvac).value, hvac)
              && r.value == Resolution(info, env, CreateVaultClient(config, hvac).value, hvac)
  {
    var inline := LoadInlineSecrets(info);
    var fromEnv :- LoadSecretsFromEnv(info, env);
    var fromVault :- LoadSecretsFromVault(info, config, hvac);
    LoadSecretsIsResolution(info, config, env, hvac, inline, fromEnv, fromVault);
    Success(Fold([inline, fromEnv, fromVault]))
  }

  // ---------------------------------------------------------------------
  // Per-entry meaning of a declaration
  // ---------------------------------------------------------------------

  /** One declared secret can be resolved with the given environment and
      client without raising. */
  predicate EntryResolvable(v: Value, env: Environment, client: Client, hvac: Hvac) {
    && (ClaimedByEnv(v) ==> EnvRefWellFormed(v) && EnvKey(v) in env)
    && (ClaimedByVault(v) && client.Client? ==> hvac.Installed? && EntryReadable(v.fields, client.conn, hvac))
  }

  /** What one declared secret stands for, by its kind: a literal for
      itself, an env reference for its variable's value, a Vault reference
      for what the store holds (`None` when it is skipped, and always
      without hvac). */
  function ResolveEntry(v: Value, env: Environment, client: Client, hvac: Hvac): Option<Value>
    requires EntryResolvable(v, env, client, hvac)
  {
    match KindOf(v)
    case Literal => Some(v)
    case EnvRef => Some(Str(env[EnvKey(v)]))
    case VaultRef =>
      match client
      case NoClient => None
      case Client(conn) => ReadVaultEntry(v.fields, conn, hvac)
  }

  predicate ResolutionDefined(info: Secrets, env: Environment, client: Client, hvac: Hvac) {
    forall t, n :: t in info && n in info[t] ==> EntryResolvable(info[t][n], env, client, hvac)
  }

  function ResolveTarget(keys: map<string, Value>, env: Environment, client: Client, hvac: Hvac): (r: map<string, Value>)
    requires forall n :: n in keys ==> EntryResolvable(keys[n], env, client, hvac)
    ensures forall n :: n in r <==> n in keys && ResolveEntry(keys[n], env, client, hvac).Some?
    ensures forall n :: n in r ==> n in keys && r[n] == ResolveEntry(keys[n], env, client, hvac).value
  {
    map n | n in keys && ResolveEntry(keys[n], env, client, hvac).Some? :: ResolveEntry(keys[n], env, client, hvac).value
  }

  /** The reference meaning of a whole declaration: every secret replaced
      by what it stands for, skipped secrets and then empty targets
      dropped. */
  function Resolution(info: Secrets, env: Environment, client: Client, hvac: Hvac): (r: Secrets)
    requires ResolutionDefined(info, env, client, hvac)
    ensures NoEmptyTargets(r)
    ensures forall t, n :: Has(r, t, n) <==> Has(info, t, n) && ResolveEntry(info[t][n], env, client, hvac).Some?
    ensures forall t, n :: Has(r, t, n) ==>
              Has(info, t, n) && r[t][n] == ResolveEntry(info[t][n], env, client, hvac).value
  {
    DropEmpty(map t | t in info :: ResolveTarget(info[t], env, client, hvac))
  }

  // ---------------------------------------------------------------------
  // The fold agrees with the per-entry meaning
  // ---------------------------------------------------------------------

  /** With every environment variable present and a client built, each
      declared secret can be resolved. */
  lemma LoadedEntriesResolvable(info: Secrets, config: Configuration, env: Environment, hvac: Hvac)
    requires Loadable(info, config, hvac)
    requires MissingEnvKeys(info, env) == {}
    requires CreateVaultClient(config, hvac).Success?
    ensures ResolutionDefined(info, env, CreateVaultClient(config, hvac).value, hvac)
  {
    var client := CreateVaultClient(config, hvac).value;
    forall t, n | t in info && n in info[t]
      ensures EntryResolvable(info[t][n], env, client, hvac)
    {
      var v := info[t][n];
      if ClaimedByEnv(v) {
        assert EnvKey(v) in MissingEnvKeys(info, env) <==> EnvKey(v) !in env;
      }
    }
  }

  /** One entry of the merged outputs: it has exactly one source, whose
      value is the entry's meaning. */
  lemma EntryAgrees(info: Secrets, config: Configuration, env: Environment, hvac: Hvac,
                    inline: Secrets, fromEnv: Secrets, fromVault: Secrets, t: string, n: string)
    requires Loadable(info, config, hvac)
    requires inline == LoadInlineSecrets(info)
    requires LoadSecretsFromEnv(info, env) == Success(fromEnv)
    requires LoadSecretsFromVault(info, config, hvac) == Success(fromVault)
    requires CreateVaultClient(config, hvac).Success?
    requires ResolutionDefined(info, env, CreateVaultClient(config, hvac).value, hvac)
    ensures var r := Fold([inline, fromEnv, fromVault]);
            var res := Resolution(info, env, CreateVaultClient(config, hvac).value, hvac);
            && (Has(r, t, n) <==> Has(res, t, n))
            && (Has(r, t, n) ==> Has(res, t, n) && r[t][n] == res[t][n])
  {
    var client := CreateVaultClient(config, hvac).value;
    if !Has(info, t, n) {
      assert !Has(inline, t, n) && !Has(fromEnv, t, n) && !Has(fromVault, t, n);
      FoldOfDisjointEntry(inline, fromEnv, fromVault, t, n);
    } else {
      var v := info[t][n];
      match KindOf(v)
      case Literal =>
        assert !Has(fromEnv, t, n) && !Has(fromVault, t, n);
        assert Has(inline, t, n) && inline[t][n] == v;
        FoldOfDisjointEntry(inline, fromEnv, fromVault, t, n);
      case EnvRef =>
        assert !Has(inline, t, n) && !Has(fromVault, t, n);
        assert Has(fromEnv, t, n) && fromEnv[t][n] == Str(env[EnvKey(v)]);
        FoldOfDisjointEntry(inline, fromEnv, fromVault, t, n);
      case VaultRef =>
        assert !Has(inline, t, n) && !Has(fromEnv, t, n);
        assert client.NoClient? ==> !Has(fromVault, t, n);
        FoldOfDisjointEntry(inline, fromEnv, fromVault, t, n);
    }
  }

  /** Merging the three loaders' outputs gives the per-entry meaning: the
      loaders claim disjoint entries, so every resolved entry has exactly
      one source and none is overwritten. */
  lemma LoadSecretsIsResolution(info: Secrets, config: Configuration, env: Environment, hvac: Hvac,
                                inline: Secrets, fromEnv: Secrets, fromVault: Secrets)
    requires Loadable(info, config, hvac)
    requires inline == LoadInlineSecrets(info)
    requires LoadSecretsFromEnv(info, env) == Success(fromEnv)
    requires LoadSecretsFromVault(info, config, hvac) == Success(fromVault)
    ensures CreateVaultClient(config, hvac).Success?
    ensures ResolutionDefined(info, env, CreateVaultClient(config, hvac).value, hvac)
    ensures Fold([inline, fromEnv, fromVault]) == Resolution(info, env, CreateVaultClient(config, hvac).value, hvac)
  {
    LoadedEntriesResolvable(info, config, env, hvac);
    FoldOfThree(inline, fromEnv, fromVault);
    var r := Fold([inline, fromEnv, fromVault]);
    assert NoEmptyTargets(r);
    var res := Resolution(info, env, CreateVaultClient(config, hvac).value, hvac);
    forall t, n
      ensures Has(r, t, n) <==> Has(res, t, n)
      ensures Has(r, t, n) ==> Has(res, t, n) && r[t][n] == res[t][n]
    {
      EntryAgrees(info, config, env, hvac, inline, fromEnv, fromVault, t, n);
    }
    PointwiseEqual(r, res);
  }

  // ---------------------------------------------------------------------
  // Consequences for callers
  // ---------------------------------------------------------------------

  /** A declaration made only of literals references neither the
      environment nor Vault, so nothing in it can make a loader raise. */
  lemma LiteralOnlySpecIsLoadable(info: Secrets, config: Configuration, hvac: Hvac)
    requires forall t, n :: t in info && n in info[t] ==> ClaimedByInline(info[t][n])
    ensures Loadable(info, config, hvac)
  {
    forall t, n | t in info && n in info[t]
      ensures !ClaimedByEnv(info[t][n]) && !ClaimedByVault(info[t][n])
    {
      assert KindOf(info[t][n]) == Literal;
    }
  }

  /** A declaration made only of literals resolves to itself, less the
      targets that hold no secret; it can still fail, if building the Vault
      client does. */
  lemma LiteralOnlySpecResolvesToItself(info: Secrets, config: Configuration, env: Environment, hvac: Hvac)
    requires Loadable(info, config, hvac)
    requires forall t, n :: t in info && n in info[t] ==> ClaimedByInline(info[t][n])
    requires CreateVaultClient(config, hvac).Success?
    ensures LoadSecrets(info, config, env, hvac) == Success(DropEmpty(info))
  {
    assert MissingEnvKeys(info, env) == {};
    var r := LoadSecrets(info, config, env, hvac);
    var d := DropEmpty(info);
    forall t, n
      ensures Has(r.value, t, n) <==> Has(d, t, n)
      ensures Has(r.value, t, n) ==> Has(d, t, n) && r.value[t][n] == d[t][n]
    {
      if Has(info, t, n) {
        assert KindOf(info[t][n]) == Literal;
      }
    }
    PointwiseEqual(r.value, d);
  }

  /** Without hvac the Vault loader contributes `{}` whatever the
      declaration holds, and the result is that of the inline and
      environment loaders alone. */
  lemma WithoutHvacOnlyInlineAndEnvResolve(info: Secrets, config: Configuration, env: Environment)
    requires Loadable(info, config, NotInstalled)
    ensures LoadSecretsFromVault(info, config, NotInstalled) == Success(map[])
    ensures LoadSecrets(info, config, env, NotInstalled) ==
              match LoadSecretsFromEnv(info, env)
              case Success(fromEnv) => Success(Fold([LoadInlineSecrets(info), fromEnv]))
              case Failure(e) => Failure(e)
  {
    var inline := LoadInlineSecrets(info);
    match LoadSecretsFromEnv(info, env)
    case Success(fromEnv) =>
      var parts := [inline, fromEnv, map[]];
      assert parts[..2] == [inline, fromEnv];
      assert Fold(parts) == Merge(Fold([inline, fromEnv]), map[]);
      MergeNothing(Fold([inline, fromEnv]));
    case Failure(_) =>
  }

  /** A reference to a variable the environment lacks makes the whole call
      fail, naming a missing variable. */
  lemma MissingEnvVariableFails(info: Secrets, config: Configuration, env: Environment, hvac: Hvac,
                                t: string, n: string)
    requires EnvRefsWellFormed(info)
    requires Has(info, t, n) && ClaimedByEnv(info[t][n]) && EnvKey(info[t][n]) !in env
    ensures LoadSecrets(info, config, env, hvac).Failure?
    ensures exists k :: k in MissingEnvKeys(info, env) && k !in env &&
              LoadSecrets(info, config, env, hvac).error == MissingEnvKey(k)
  {
    var missing := MissingEnvKeys(info, env);
    assert EnvKey(info[t][n]) in missing;
    var k :| k in missing && LoadSecrets(info, config, env, hvac) == Failure(MissingEnvKey(k));
    assert k !in env;
  }

  /** An env reference resolves to exactly its variable's value whenever
      the call succeeds. */
  lemma EnvReferenceResolvesToVariable(info: Secrets, config: Configuration, env: Environment, hvac: Hvac,
                                       t: string, n: string)
    requires LoadSecretsDefined(info, config, env, hvac)
    requires Has(info, t, n) && ClaimedByEnv(info[t][n])
    requires LoadSecrets(info, config, env, hvac).Success?
    ensures EnvKey(info[t][n]) in env
    ensures var r := LoadSecrets(info, config, env, hvac).value;
            Has(r, t, n) && r[t][n] == Str(env[EnvKey(info[t][n])])
  {
    assert KindOf(info[t][n]) == EnvRef;
  }

  /** A literal, including a dict whose `type` is unknown, comes out
      unchanged whenever the call succeeds. */
  lemma InlineSecretPassesThrough(info: Secrets, config: Configuration, env: Environment, hvac: Hvac,
                                  t: string, n: string)
    requires LoadSecretsDefined(info, config, env, hvac)
    requires Has(info, t, n) && ClaimedByInline(info[t][n])
    requires LoadSecrets(info, config, env, hvac).Success?
    ensures var r := LoadSecrets(info, config, env, hvac).value;
            Has(r, t, n) && r[t][n] == info[t][n]
  {
    assert KindOf(info[t][n]) == Literal;
  }

  /** A Vault reference is present in a successful result exactly when hvac
      is installed and the reference is not skipped, and then holds what the
      store returned for it; no other entry affects it. */
  lemma VaultSecretOutcome(info: Secrets, config: Configuration, env: Environment, hvac: Hvac,
                           t: string, n: string)
    requires LoadSecretsDefined(info, config, env, hvac)
    requires Has(info, t, n) && ClaimedByVault(info[t][n])
    requires LoadSecrets(info, config, env, hvac).Success?
    ensures var r := LoadSecrets(info, config, env, hvac).value;
            var client := CreateVaultClient(config, hvac).value;
            && (hvac.NotInstalled? ==> !Has(r, t, n))
            && (hvac.Installed? ==>
                  && client.Client?
                  && EntryReadable(info[t][n].fields, client.conn, hvac)
                  && (Has(r, t, n) <==> ReadVaultEntry(info[t][n].fields, client.conn, hvac).Some?)
                  && (Has(r, t, n) ==> r[t][n] == ReadVaultEntry(info[t][n].fields, client.conn, hvac).value))
  {
    assert KindOf(info[t][n]) == VaultRef;
  }

  /** A target all of whose secrets are Vault references without a `path`
      resolves nothing and is dropped from a successful result. */
  lemma PathlessVaultTargetIsDropped(info: Secrets, config: Configuration, env: Environment, hvac: Hvac,
                                     t: string)
    requires LoadSecretsDefined(info, config, env, hvac)
    requires t in info
    requires forall n :: n in info[t] ==> ClaimedByVault(info[t][n]) && Get(info[t][n].fields, "path") == Null
    requires LoadSecrets(info, config, env, hvac).Success?
    ensures t !in LoadSecrets(info, config, env, hvac).value
  {
    var r := LoadSecrets(info, config, env, hvac).value;
    forall n | n in info[t]
      ensures !Has(r, t, n)
    {
      assert KindOf(info[t][n]) == VaultRef;
    }
    TargetHasAnEntry(r, t);
  }
}
