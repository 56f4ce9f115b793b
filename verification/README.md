# Secret loading of chaostoolkit-lib, modelled in Dafny

This project models `chaoslib/secret.py`, the part of the Chaos Toolkit
library that turns an experiment's declarative `secrets` section into
resolved values. A declaration maps a *target* (the provider that will use
the secrets) to named secrets. Each secret is one of three kinds:

- a literal;
- an environment reference `{"type": "env", "key": ...}`;
- a Vault reference `{"type": "vault", "path": ..., "key"?: ...}`.

`load_secrets` runs three loaders in a fixed order and merges their outputs
target by target:

- `load_inline_secrets` passes the literals through;
- `load_secrets_from_env` looks the variables up and raises
  `InvalidExperiment` when one is missing;
- `load_secrets_from_vault` reads the Vault KV engine, version 1 or 2.

Before reading, `load_secrets_from_vault` builds a client with
`create_vault_client`. That function picks the authentication (a static
token, an approle exchange, or none) and the KV version from the
configuration.

## Files

- `wrappers.dfy`: `Option` and `Result`.
- `values.dfy`: the JSON-like `Value`, `dict.get`, and Python's `str` on
  values, with the decimal rendering of integers.
- `secret_maps.dfy`: the `target → name → value` shape; the errors and
  their messages; the removal of empty targets; the per-target merge and
  its fold.
- `resolvers.dfy`: how a secret is classified; the inline and environment
  loaders.
- `vault_client.dfy`: `create_vault_client`, with the hvac package and the
  Vault server as oracles.
- `vault_resolver.dfy`: the Vault loader.
- `orchestrator.dfy`: `load_secrets`, its per-entry meaning
  (`Resolution`), the proof that the two agree, and their consequences.
- `examples.dfy`: the repository's tests and the docstring's example,
  stated as lemmas.

## How the outside world is modelled

- The process environment is a parameter `Environment = map<string, string>`.
- The `hvac` import is the datatype `Hvac`:
  - `NotInstalled` when hvac cannot be imported;
  - `Installed(approleLogin, readV1, readV2)` otherwise. Its three
    functions stand for `auth_approle`, `kv.v1.read_secret` and
    `kv.v2.read_secret_version`, each answering for the server behind the
    client.
- `approleLogin` gives the response's `auth.client_token`, or the text of
  the exception it raised.
- A read gives a decoded payload, or `None`.
- `InvalidExperiment` is a `Result` failure carrying an `Error`. `Message`
  renders the exact text the code raises with.
- Python raises on some malformed inputs, and those inputs are
  preconditions (`EnvRefsWellFormed`, `EntryReadable`):
  - an env reference without a string `key`;
  - a version 2 payload whose `data` is not a dict;
  - a keyed lookup that raises (see "## Left out").

  `LoadSecretsDefined` is the precondition of `load_secrets`. It asks for
  well-formed Vault reads only when every variable is present, because a
  missing variable raises before the Vault loader starts (line 129 runs
  before line 189). `Loadable` asks both loaders to be defined on their
  own. The success-side lemmas use it.

## Where the code differs from its documentation

- The `load_secrets` docstring (chaoslib/secret.py:39-59) gives a Vault
  reference with a `key` and no `path`, and shows it resolved. The code
  skips any Vault reference without a `path` (lines 202-206), so
  `target_3` is absent from the result. `DocstringExampleDropsTarget3`
  proves this, and the model follows the code.

## Behaviour worth knowing

- A declaration made only of literals does not always come back
  unchanged:
  - targets with no secrets are dropped;
  - the call still fails when an approle exchange fails, because the
    client is built before the declaration is inspected (line 189).

  `LiteralOnlySpecResolvesToItself` states the exact result.
- The merge lets a later loader win on a collision (`FoldKeepsLastWriter`).
  In `load_secrets` no collision can happen, because the loaders claim
  disjoint entries (`KindOf`, `LoadSecretsIsResolution`).
- Without hvac, the Vault loader returns `{}` at the first Vault
  reference. With none, every target it builds is empty and is dropped.
  So either way it contributes nothing (`WithoutHvacOnlyInlineAndEnvResolve`).
- The KV version is `str` of the configured value, so the integer `1`
  selects version 1 just as the string `"1"` does (`CreateVaultClient`,
  `PyStrIsOne`).

## Model

| member | source | states |
|---|---|---|
| Values.NatToDecimal | chaoslib/secret.py:256-257 | `str` of a natural number is a non-empty run of digits without a leading zero, one digit exactly below 10 |
| Values.DecimalRoundTrip | chaoslib/secret.py:256-257 | reading back the digits `str` writes for a natural number gives the number |
| Values.PyStr | chaoslib/secret.py:256-257 | `str` of a string is the string itself, and `str` of an integer is its signed decimal notation: a `-` only for negatives, digits without a leading zero (except for 0 itself) that read back to the integer |
| Values.PyStrIsOne | chaoslib/secret.py:256-257 | `str(v) == "1"` exactly when `v` is the string "1" or the integer 1, so only those select the version 1 engine |
| SecretMaps.Message | chaoslib/secret.py:272-274 | the text `InvalidExperiment` is raised with; `ErrorOfMessage` reads back from it the error, and with it the variable or approle cause, that it was raised for |
| SecretMaps.MessageDeterminesError | chaoslib/secret.py:129-131 | the two `InvalidExperiment` messages (missing variable, failed approle) never coincide, and each gives back the variable or cause it names |
| SecretMaps.DropEmpty | chaoslib/secret.py:111-112 | popping empty targets leaves no empty target, keeps every non-empty target unchanged and every entry; a map without empty targets is unchanged |
| SecretMaps.Merge | chaoslib/secret.py:84-88 | one merge pass keeps every target and entry of both sides; the part's value wins on a shared entry, and the accumulator's is kept otherwise; no empty target appears |
| SecretMaps.FoldKeepsLastWriter | chaoslib/secret.py:83-88 | the merge loop over any list of loader outputs holds exactly the entries some output holds, each with the value of the last output holding it, and no empty target |
| SecretMaps.FoldOfDisjointEntry | chaoslib/secret.py:83-88 | when at most one of three outputs holds an entry, the fold holds it exactly when one does, with that output's value |
| SecretMaps.MergeNothing | chaoslib/secret.py:84-88 | merging an output with no targets changes nothing |
| SecretMaps.PointwiseEqual | chaoslib/secret.py:83-92 | two results without empty targets that hold the same entries with the same values are equal |
| Resolvers.KindOf | chaoslib/secret.py:105-109 | every declared secret has one kind, and each kind is exactly the guard of one loader (lines 106-109, 126, 195), so each secret is claimed by exactly one loader |
| Resolvers.LoadInlineSecrets | chaoslib/secret.py:95-114 | the inline loader outputs exactly the literal entries, each unchanged, with no empty target |
| Resolvers.MissingEnvKeys | chaoslib/secret.py:125-128 | the missing variables are exactly those named by some env reference and absent from the environment; there are none exactly when every reference finds its variable |
| Resolvers.LoadSecretsFromEnv | chaoslib/secret.py:117-137 | the environment loader fails exactly when a variable is missing, with an error naming a missing variable; otherwise it outputs exactly the env references, each replaced by its variable's value, with no empty target |
| VaultClientFactory.CreateVaultClient | chaoslib/secret.py:247-277 | no client without hvac; the client is bound to `vault_addr` with KV version `str(configuration.get("vault_kv_version", "2"))`, so a configured `null` gives "None"; a configured token is used and the approle exchange is not consulted; otherwise, with both role fields, the exchanged token is used and a failed exchange is exactly the failure case; with neither the client is unauthenticated |
| VaultResolver.ReadVaultEntry | chaoslib/secret.py:202-236 | one Vault reference is skipped exactly when it has no `path`, when the read gives nothing or `{}`, or when its `key` is absent from the data; otherwise it gives the named field, or the whole data |
| VaultResolver.StoredDataIsRead | chaoslib/secret.py:209-236 | for any secret data `d` and whatever else the payload holds, version 1 finds `d` under `payload.data` and version 2 under `payload.data.data`: a reference without `key` gets all of `d`, and one with a hashable `key` gets its field exactly when `d` has it |
| VaultResolver.FirstOccurrence | chaoslib/secret.py:228 | Python's `key in data` on two strings holds exactly when the key occurs at some index of the data: this gives the first such index |
| VaultResolver.OccurrenceIsSubstring | chaoslib/secret.py:228 | an occurrence of the key at any index of the data makes `key in data` true |
| VaultResolver.LongerIsNoSubstring | chaoslib/secret.py:228 | a key longer than the string data never occurs in it, so such a keyed reference is skipped |
| VaultResolver.OnlySelectedEndpointIsRead | chaoslib/secret.py:209-214 | only the read endpoint of the client's KV version is consulted: servers that agree there resolve every reference alike |
| VaultResolver.ReadVaultSecrets | chaoslib/secret.py:191-241 | with a client, the Vault loader outputs exactly the Vault references not skipped, each with its value, and drops the targets left empty; a skip affects only its own entry |
| VaultResolver.LoadSecretsFromVault | chaoslib/secret.py:187-241 | the Vault loader fails exactly when building the client fails, with that error; without hvac it outputs `{}` whatever the declaration holds; otherwise it outputs the references read as above, with no empty target |
| Orchestrator.LoadSecrets | chaoslib/secret.py:19-92 | `load_secrets` fails exactly when a variable is missing or the client cannot be built; the environment error comes first, whatever the Vault reads would do; no partial result is returned; on success the result has no empty target and equals the per-entry meaning `Resolution` |
| Orchestrator.Resolution | chaoslib/secret.py:77-88 | the reference meaning of a declaration: each secret replaced by what its kind resolves to, skipped secrets and then empty targets left out |
| Orchestrator.LoadedEntriesResolvable | chaoslib/secret.py:125-132 | once every variable is present and a client is built, every declared secret can be resolved without raising |
| Orchestrator.EntryAgrees | chaoslib/secret.py:83-88 | one entry of the merged loader outputs is present exactly when its meaning is, with the same value |
| Orchestrator.LoadSecretsIsResolution | chaoslib/secret.py:77-88 | merging the outputs of the inline, environment and Vault loaders, in that order, gives exactly the per-entry meaning: no entry is lost or overwritten |
| Orchestrator.LiteralOnlySpecIsLoadable | chaoslib/secret.py:105-109 | a declaration of literals only can always be loaded without raising |
| Orchestrator.LiteralOnlySpecResolvesToItself | chaoslib/secret.py:95-114 | a declaration of literals only resolves to itself less its empty targets, once the client can be built |
| Orchestrator.WithoutHvacOnlyInlineAndEnvResolve | chaoslib/secret.py:196-200 | without hvac the Vault loader contributes `{}`, and `load_secrets` gives the merge of the inline and environment outputs alone, or the environment error |
| Orchestrator.MissingEnvVariableFails | chaoslib/secret.py:126-131 | a reference to a variable the environment lacks makes the whole call fail with an error naming a variable the declaration references and the environment lacks, whatever the Vault references and the Vault server hold |
| Orchestrator.EnvReferenceResolvesToVariable | chaoslib/secret.py:126-132 | in a successful result an env reference holds exactly its variable's value |
| Orchestrator.InlineSecretPassesThrough | chaoslib/secret.py:105-109 | in a successful result a literal, including a dict with an unknown `type`, holds its declared value |
| Orchestrator.VaultSecretOutcome | chaoslib/secret.py:195-236 | in a successful result a Vault reference is absent without hvac; with hvac it is present exactly when its read is not skipped, and holds what was read |
| Orchestrator.PathlessVaultTargetIsDropped | chaoslib/secret.py:202-206 | a target whose secrets are all Vault references without `path` is absent from a successful result |
| SecretExamples.ShouldLoadEnvironment | tests/test_secret.py:13-23 | the env reference to `KUBE_API_URL` resolves to `http://1.2.3.4` |
| SecretExamples.ShouldLoadInline | tests/test_secret.py:26-32 | a literal declaration loads to itself |
| SecretExamples.ShouldMergeProperly | tests/test_secret.py:35-49 | a literal, an untyped dict and an env reference in one target all come out, each with its own value |
| SecretExamples.ShouldAuthWithApprole | tests/test_secret.py:52-73 | the approle exchange is asked with the configured role, and the client gets the token it returns |
| SecretExamples.ApproleFailureAbortsTheRun | tests/test_secret.py:76-89 | a failed approle exchange fails the client and `load_secrets`, even for a declaration without Vault references |
| SecretExamples.ShouldAuthWithToken | tests/test_secret.py:92-106 | a configured token becomes the client's token whatever the approle endpoint would answer, with KV version "1" |
| SecretExamples.ReadSecretsWithKvVersion1 | tests/test_secret.py:109-159 | with KV version 1, a whole reference gives `payload.data` and a keyed one its field |
| SecretExamples.ReadSecretsWithKvVersion2 | tests/test_secret.py:162-216 | with KV version 2, a whole reference gives `payload.data.data` and a keyed one its field |
| SecretExamples.NothingReadLoadsNothing | chaoslib/secret.py:238-239 | when every Vault reference is skipped, the Vault loader outputs `{}` |
| SecretExamples.KeyedRefOnStringDataIsSkipped | chaoslib/secret.py:226-232 | a keyed reference whose data is a string not containing the key is skipped, and its target dropped |
| SecretExamples.MissingVariableBeforeBadVaultRead | chaoslib/secret.py:126-131 | a declaration with a missing variable and a Vault reference whose version 2 read would raise fails with the environment error; the Vault loader alone would raise on it |
| SecretExamples.DocstringExampleDropsTarget3 | chaoslib/secret.py:28-62 | the docstring's declaration loads, but its path-less Vault reference leaves `target_3` out of the result |

## Left out

- HTTP transport and the hvac client object: reads and the approle
  exchange are oracles. An exception raised by a read propagates out of
  `load_secrets` in the code. The model's reads always answer, with a
  payload or `None`.
- Logging: the debug, warning and error messages mark skips and have no
  other effect.
- `os.environ` as process state: it is a read-only map parameter.
- Dictionary order. It decides which missing variable the error names.
  Because of it, `LoadSecretsFromEnv` and `LoadSecrets` are ghost
  functions.
- Dictionary order also decides whether `InvalidExperiment` or a crash
  comes first when one declaration has both a missing variable and an env
  reference without a string `key`. If the missing variable comes first
  in dict order, the code raises `InvalidExperiment` at line 129. The
  model excludes every such declaration through `EnvRefsWellFormed`, so
  it promises nothing about that case.
- Resolvers.LoadSecretsFromEnv: the error names some missing variable
  rather than the first one in dictionary order, for the reason above.
- Orchestrator.LoadSecrets: same weakening as `LoadSecretsFromEnv`.
- `configuration=None` with hvac installed raises `AttributeError`
  (line 253). The model's configuration is always a map.
- VaultClientFactory.CreateVaultClient: the approle oracle returns
  `auth.client_token` directly. A response without that field would raise
  `KeyError` at line 276, which is not modelled.
- Values.PyStr: lists and dicts are rendered as "[...]" and "{...}", not in
  full. Only `str(v) == "1"` is observed, and no container gives "1"
  either way. Floats are not part of `Value`.
- VaultResolver.ReadVaultEntry: a keyed reference whose data is a list is
  excluded by the precondition. In Python it is skipped when the key is
  not an element and raises otherwise. Python's cross-type equality
  (`1 == True`) is not modelled.
- Other keyed lookups that raise in Python are preconditions, not errors:
  - data that is `None`, a number or a boolean (`TypeError` at line 228);
  - a string containing the key (`AttributeError` at line 234);
  - an unhashable key against a dict (`TypeError` at line 228);
  - a key that is not a string against string data (`TypeError` at
    line 228).

  An env reference without a `key` (`KeyError` at line 127), or with a
  key that is not a string (`TypeError` from `os.environ` at line 128),
  is a precondition too.
- The `configuration` parameter of the inline and environment loaders is
  unused in the code and omitted here. The `requests` import is unused.
