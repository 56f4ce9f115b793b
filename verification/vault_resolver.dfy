/** `load_secrets_from_vault`: Vault references resolved through the KV
    secrets engine, version 1 or 2, tolerating per-entry failures. */
module VaultResolver {
  import opened Wrappers
  import opened Values
  import opened SecretMaps
  import opened Resolvers
  import opened VaultClientFactory

  /** The client talks to a version 1 KV engine; any other version string,
      the default "2" included, means version 2. */
  predicate IsKv1(conn: Connection) {
    conn.kvVersion == "1"
  }

  /** The read issued for `path`: `kv.v1.read_secret` or
      `kv.v2.read_secret_version`. */
  function ReadPayload(hvac: Hvac, conn: Connection, path: Value): Option<Payload>
    requires hvac.Installed?
  {
    if IsKv1(conn) then hvac.readV1(conn, path) else hvac.readV2(conn, path)
  }

  /** `not vault_payload`: nothing, or an empty dict. */
  predicate PayloadEmpty(p: Option<Payload>) {
    p.None? || p.value == map[]
  }

  /** Unwrapping a version 2 payload calls `.get` on its `data` member (or
      on `{}` when there is none), which raises unless that is a dict. */
  predicate UnwrapDefined(payload: Payload, kv1: bool) {
    kv1 || GetOr(payload, "data", Obj(map[])).Obj?
  }

  /** The secret data inside a payload: `payload["data"]` for version 1,
      `payload["data"]["data"]` for version 2, `None` where a level is
      missing. */
  function Unwrap(payload: Payload, kv1: bool): Value
    requires UnwrapDefined(payload, kv1)
  {
    if kv1 then Get(payload, "data")
    else Get(GetOr(payload, "data", Obj(map[])).fields, "data")
  }

  /** `a` occurs in `b`: Python's `a in b` on two strings. */
  predicate Substring(a: string, b: string)
    decreases |b|
  {
    a <= b || (b != [] && Substring(a, b[1..]))
  }

  /** `a` occurs in `b` starting at index `i`. */
  predicate OccursAt(a: string, b: string, i: nat) {
    i + |a| <= |b| && b[i..i + |a|] == a
  }

  /** A slice of `b` past its first character is a slice of `b[1..]`. */
  lemma SliceOfTail(b: string, lo: nat, hi: nat)
    requires 1 <= lo <= hi <= |b|
    ensures b[1..][lo - 1..hi - 1] == b[lo..hi]
  {
    forall k | 0 <= k < hi - lo
      ensures b[1..][lo - 1..hi - 1][k] == b[lo..hi][k]
    {
    }
  }

  /** An occurrence at any index makes `a in b` true. */
  lemma {:induction false} OccurrenceIsSubstring(a: string, b: string, i: nat)
    requires OccursAt(a, b, i)
    ensures Substring(a, b)
    decreases i
  {
    if i == 0 {
      assert a == b[..|a|];
    } else {
      SliceOfTail(b, i, i + |a|);
      OccurrenceIsSubstring(a, b[1..], i - 1);
    }
  }

  /** Where `a in b` finds `a`: the first index it occurs at, so `a in b`
      holds exactly when `a` occurs somewhere in `b`. */
  function FirstOccurrence(a: string, b: string): (i: nat)
    requires Substring(a, b)
    ensures OccursAt(a, b, i)
    ensures forall j: nat :: j < i ==> !OccursAt(a, b, j)
    decreases |b|
  {
    if a <= b then
      assert b[0..|a|] == a;
      0
    else
      var i := FirstOccurrence(a, b[1..]);
      ShiftedOccurrence(a, b, i + 1);
      i + 1
  }

  /** An occurrence after the first character is one in the rest of the
      string. */
  lemma ShiftedOccurrence(a: string, b: string, i: nat)
    requires b != [] && 0 < i
    ensures forall j: nat :: 0 < j <= i ==> (OccursAt(a, b, j) <==> OccursAt(a, b[1..], j - 1))
  {
    forall j: nat | 0 < j <= i
      ensures OccursAt(a, b, j) <==> OccursAt(a, b[1..], j - 1)
    {
      if j + |a| <= |b| {
        SliceOfTail(b, j, j + |a|);
      }
    }
  }

  /** A string longer than another does not occur in it. */
  lemma {:induction false} LongerIsNoSubstring(a: string, b: string)
    requires |a| > |b|
    ensures !Substring(a, b)
    decreases |b|
  {
    if b != [] {
      LongerIsNoSubstring(a, b[1..]);
    }
  }

  /** `vault_key not in data` followed by `data.get(vault_key)` runs
      without raising: the data is a dict and the key can be hashed, or
      the data is a string the (string) key does not occur in, so the
      entry is skipped before `.get` is reached. */
  predicate KeyLookupDefined(key: Value, data: Value) {
    || (data.Obj? && Hashable(key))
    || (data.Str? && key.Str? && !Substring(key.s, data.s))
  }

  /** Resolving the Vault reference `ref` runs without Python raising: a
      version 2 payload's `data` is a dict, and the lookup of a named
      `key` is defined. */
  predicate EntryReadable(ref: Dict, conn: Connection, hvac: Hvac)
    requires hvac.Installed?
  {
    var path := Get(ref, "path");
    path != Null ==>
      var payload := ReadPayload(hvac, conn, path);
      !PayloadEmpty(payload) ==>
        && UnwrapDefined(payload.value, IsKv1(conn))
        && ("key" in ref ==> KeyLookupDefined(ref["key"], Unwrap(payload.value, IsKv1(conn))))
  }

  /** The body of the inner loop for one Vault reference: `None` when the
      entry is skipped (no `path`, nothing read, or the named `key` absent
      from the data, which is then a dict or a string), otherwise the named field or, without a `key`, the
      whole data. */
  function ReadVaultEntry(ref: Dict, conn: Connection, hvac: Hvac): (r: Option<Value>)
    requires hvac.Installed? && EntryReadable(ref, conn, hvac)
    ensures r.None? <==>
              || Get(ref, "path") == Null
              || PayloadEmpty(ReadPayload(hvac, conn, Get(ref, "path")))
              || ("key" in ref &&
                  var data := Unwrap(ReadPayload(hvac, conn, Get(ref, "path")).value, IsKv1(conn));
                  !(data.Obj? && InDict(ref["key"], data.fields)))
    ensures Get(ref, "path") == Null ==> r == None
    ensures Get(ref, "path") != Null ==>
              var payload := ReadPayload(hvac, conn, Get(ref, "path"));
              && (PayloadEmpty(payload) ==> r == None)
              && (!PayloadEmpty(payload) ==>
                    var data := Unwrap(payload.value, IsKv1(conn));
                    && ("key" !in ref ==> r == Some(data))
                    && ("key" in ref && !(data.Obj? && InDict(ref["key"], data.fields)) ==> r == None)
                    && ("key" in ref && data.Obj? && InDict(ref["key"], data.fields) ==>
                          r == Some(data.fields[ref["key"].s])))
  {
    var path := Get(ref, "path");
    if path == Null then None
    else
      var payload := ReadPayload(hvac, conn, path);
      if PayloadEmpty(payload) then None
      else
        var data := Unwrap(payload.value, IsKv1(conn));
        if "key" in ref then
          if data.Obj? && InDict(ref["key"], data.fields) then Some(data.fields[ref["key"].s]) else None
        else Some(data)
  }

  /** How the stored secret reaches the declaration: version 1 answers
      with the secret data `d` under `data`, version 2 under `data.data`,
      whatever else either payload holds. A reference without `key` gets
      all of `d`; one with a hashable `key` gets that field of `d`, and is
      skipped when `d` lacks it. */
  lemma StoredDataIsRead(ref: Dict, conn: Connection, hvac: Hvac, outer: Payload, inner: Payload, d: Dict)
    requires hvac.Installed?
    requires Get(ref, "path") != Null
    requires IsKv1(conn) ==> hvac.readV1(conn, Get(ref, "path")) == Some(outer["data" := Obj(d)])
    requires !IsKv1(conn) ==> hvac.readV2(conn, Get(ref, "path")) == Some(outer["data" := Obj(inner["data" := Obj(d)])])
    requires "key" in ref ==> Hashable(ref["key"])
    ensures EntryReadable(ref, conn, hvac)
    ensures "key" !in ref ==> ReadVaultEntry(ref, conn, hvac) == Some(Obj(d))
    ensures "key" in ref ==> (ReadVaultEntry(ref, conn, hvac).Some? <==> InDict(ref["key"], d))
    ensures "key" in ref && InDict(ref["key"], d) ==> ReadVaultEntry(ref, conn, hvac) == Some(d[ref["key"].s])
  {
    var payload := ReadPayload(hvac, conn, Get(ref, "path")).value;
    assert "data" in payload;
    assert Unwrap(payload, IsKv1(conn)) == Obj(d);
  }

  /** Only the endpoint of the client's KV version is consulted: two
      servers that answer alike there resolve every reference alike. */
  lemma OnlySelectedEndpointIsRead(ref: Dict, conn: Connection, h1: Hvac, h2: Hvac)
    requires h1.Installed? && h2.Installed?
    requires IsKv1(conn) ==> forall p :: h1.readV1(conn, p) == h2.readV1(conn, p)
    requires !IsKv1(conn) ==> forall p :: h1.readV2(conn, p) == h2.readV2(conn, p)
    requires EntryReadable(ref, conn, h1)
    ensures EntryReadable(ref, conn, h2)
    ensures ReadVaultEntry(ref, conn, h1) == ReadVaultEntry(ref, conn, h2)
  {
    var path := Get(ref, "path");
    if path != Null {
      assert ReadPayload(h1, conn, path) == ReadPayload(h2, conn, path);
    }
  }

  /** Every Vault reference of `info` can be resolved without raising. */
  predicate VaultRefsReadable(info: Secrets, conn: Connection, hvac: Hvac)
    requires hvac.Installed?
  {
    forall t, n :: t in info && n in info[t] && ClaimedByVault(info[t][n]) ==>
      EntryReadable(info[t][n].fields, conn, hvac)
  }

  /** The precondition of the loader: whatever client gets built, the
      reads it makes do not raise. */
  predicate VaultReadsDefined(info: Secrets, config: Configuration, hvac: Hvac) {
    match CreateVaultClient(config, hvac)
    case Success(Client(conn)) => hvac.Installed? && VaultRefsReadable(info, conn, hvac)
    case _ => true
  }

  /** The inner loop of the loader over one target's secrets. */
  function VaultEntries(keys: map<string, Value>, conn: Connection, hvac: Hvac): (r: map<string, Value>)
    requires hvac.Installed?
    requires forall n :: n in keys && ClaimedByVault(keys[n]) ==> EntryReadable(keys[n].fields, conn, hvac)
    ensures forall n :: n in r <==>
              n in keys && ClaimedByVault(keys[n]) && ReadVaultEntry(keys[n].fields, conn, hvac).Some?
    ensures forall n :: n in r ==> n in keys && ClaimedByVault(keys[n]) && r[n] == ReadVaultEntry(keys[n].fields, conn, hvac).value
  {
    map n | n in keys && ClaimedByVault(keys[n]) && ReadVaultEntry(keys[n].fields, conn, hvac).Some?
      :: ReadVaultEntry(keys[n].fields, conn, hvac).value
  }

  /** The loader's loops once a client exists: each Vault reference either
      resolves or is skipped alone, and targets left empty are dropped. */
  function ReadVaultSecrets(info: Secrets, conn: Connection, hvac: Hvac): (r: Secrets)
    requires hvac.Installed? && VaultRefsReadable(info, conn, hvac)
    ensures NoEmptyTargets(r)
    ensures forall t, n :: Has(r, t, n) <==>
              Has(info, t, n) && ClaimedByVault(info[t][n]) && ReadVaultEntry(info[t][n].fields, conn, hvac).Some?
    ensures forall t, n :: Has(r, t, n) ==>
              Has(info, t, n) && ClaimedByVault(info[t][n]) && r[t][n] == ReadVaultEntry(info[t][n].fields, conn, hvac).value
  {
    DropEmpty(map t | t in info :: VaultEntries(info[t], conn, hvac))
  }

  /** `load_secrets_from_vault`. The client is built first, so a failed
      approle exchange raises whatever `info` holds. Without hvac the
      loader gives `{}`: it returns `{}` at the first Vault reference, and
      with none every target ends up empty and is dropped. */
  function LoadSecretsFromVault(info: Secrets, config: Configuration, hvac: Hvac): (r: Result<Secrets, Error>)
    requires VaultReadsDefined(info, config, hvac)
    ensures r.Failure? <==> CreateVaultClient(config, hvac).Failure?
    ensures r.Failure? ==> r.error == CreateVaultClient(config, hvac).error
    ensures hvac.NotInstalled? ==> r == Success(map[])
    ensures r.Success? ==> NoEmptyTargets(r.value)
    ensures r.Success? && hvac.Installed? ==>
              var conn := CreateVaultClient(config, hvac).value.conn;
              && (forall t, n :: Has(r.value, t, n) <==>
                    Has(info, t, n) && ClaimedByVault(info[t][n]) && ReadVaultEntry(info[t][n].fields, conn, hvac).Some?)
              && (forall t, n :: Has(r.value, t, n) ==>
                    Has(info, t, n) && ClaimedByVault(info[t][n]) && r.value[t][n] == ReadVaultEntry(info[t][n].fields, conn, hvac).value)
  {
    var client :- CreateVaultClient(config, hvac);
    match client
    case NoClient => Success(map[])
    case Client(conn) => Success(ReadVaultSecrets(info, conn, hvac))
  }
}
