/** The shape shared by a secrets declaration and its resolution
    (target → secret name → value), and the per-target merge with which
    `load_secrets` combines the loaders' outputs. */
module SecretMaps {
  import opened Wrappers
  import opened Values

  /** target → secret name → value. A declaration holds literals and
      references; a resolution holds the values they stand for. */
  type Secrets = map<string, map<string, Value>>

  /** The two ways loading raises `InvalidExperiment`: an env reference to
      a variable the environment lacks, and a failed approle exchange with
      the text of the exception it raised. */
  datatype Error =
    | MissingEnvKey(key: string)
    | ApproleFailed(cause: string)

  // The messages' first words are written as separate literals: the
  // verifier reads characters out of short literals only.
  const MissingEnvKeyPrefix := "Secrets" + " make reference to an environment key that does not exist: "
  const ApproleFailedPrefix := "Failed" + " to connect to Vault with the AppRole: "

  /** The message `InvalidExperiment` is raised with; `ErrorOfMessage`
      reads the error back from it. */
  function Message(e: Error): (m: string)
    ensures ErrorOfMessage(m) == Some(e)
  {
    match e
    case MissingEnvKey(k) =>
      assert (MissingEnvKeyPrefix + k)[|MissingEnvKeyPrefix|..] == k;
      MissingEnvKeyPrefix + k
    case ApproleFailed(cause) =>
      assert MissingEnvKeyPrefix[0] == 'S' && (ApproleFailedPrefix + cause)[0] == 'F';
      assert (ApproleFailedPrefix + cause)[|ApproleFailedPrefix|..] == cause;
      ApproleFailedPrefix + cause
  }

  /** The error a message was raised for, by its opening words; `None`
      for any other text. */
  function ErrorOfMessage(m: string): Option<Error> {
    if MissingEnvKeyPrefix <= m then Some(MissingEnvKey(m[|MissingEnvKeyPrefix|..]))
    else if ApproleFailedPrefix <= m then Some(ApproleFailed(m[|ApproleFailedPrefix|..]))
    else None
  }

  /** The message tells the errors apart: a left inverse makes `Message`
      one-to-one. */
  lemma MessageDeterminesError(e1: Error, e2: Error)
    ensures Message(e1) == Message(e2) <==> e1 == e2
  {
  }

  /** Secret `n` of target `t` is present. */
  predicate Has(s: Secrets, t: string, n: string) {
    t in s && n in s[t]
  }

  /** Every loader pops a target it resolved nothing for. */
  predicate NoEmptyTargets(s: Secrets) {
    forall t :: t in s ==> s[t] != map[]
  }

  /** The `if not secrets[target]: secrets.pop(target)` that closes the
      per-target loop of each loader. */
  function DropEmpty(s: Secrets): (r: Secrets)
    ensures NoEmptyTargets(r)
    ensures forall t :: t in r <==> t in s && s[t] != map[]
    ensures forall t :: t in r ==> r[t] == s[t]
    ensures forall t, n :: Has(r, t, n) <==> Has(s, t, n)
    ensures NoEmptyTargets(s) ==> r == s
  {
    map t | t in s && s[t] != map[] :: s[t]
  }

  /** The entries of target `t`, `{}` when it is absent. */
  function Entries(s: Secrets, t: string): map<string, Value> {
    if t in s then s[t] else map[]
  }

  /** One pass of the merge loop: every target of `part` is created in
      `acc` when missing and then `update`d with `part`'s entries. */
  function Merge(acc: Secrets, part: Secrets): (r: Secrets)
    ensures r.Keys == acc.Keys + part.Keys
    ensures forall t, n :: Has(r, t, n) <==> Has(acc, t, n) || Has(part, t, n)
    ensures forall t, n :: Has(part, t, n) ==> Has(r, t, n) && r[t][n] == part[t][n]
    ensures forall t, n :: Has(acc, t, n) && !Has(part, t, n) ==> Has(r, t, n) && r[t][n] == acc[t][n]
    ensures NoEmptyTargets(acc) && NoEmptyTargets(part) ==> NoEmptyTargets(r)
  {
    var r := map t | t in acc.Keys + part.Keys :: Entries(acc, t) + Entries(part, t);
    MergeIsPointwise(acc, part, r);
    r
  }

  lemma MergeIsPointwise(acc: Secrets, part: Secrets, r: Secrets)
    requires r.Keys == acc.Keys + part.Keys
    requires forall t :: t in r ==> r[t] == Entries(acc, t) + Entries(part, t)
    ensures forall t, n :: Has(r, t, n) <==> Has(acc, t, n) || Has(part, t, n)
    ensures forall t, n :: Has(part, t, n) ==> Has(r, t, n) && r[t][n] == part[t][n]
    ensures forall t, n :: Has(acc, t, n) && !Has(part, t, n) ==> Has(r, t, n) && r[t][n] == acc[t][n]
    ensures NoEmptyTargets(acc) && NoEmptyTargets(part) ==> NoEmptyTargets(r)
  {
    MergeKeepsTargetsNonEmpty(acc, part, r);
  }

  lemma MergeKeepsTargetsNonEmpty(acc: Secrets, part: Secrets, r: Secrets)
    requires r.Keys == acc.Keys + part.Keys
    requires forall t :: t in r ==> r[t] == Entries(acc, t) + Entries(part, t)
    ensures NoEmptyTargets(acc) && NoEmptyTargets(part) ==> NoEmptyTargets(r)
  {
  }

  /** `parts[i]` is the last of the parts that holds secret `n` of `t`. */
  predicate LastHolder(parts: seq<Secrets>, i: int, t: string, n: string)
    requires 0 <= i < |parts|
  {
    Has(parts[i], t, n) && forall j :: i < j < |parts| ==> !Has(parts[j], t, n)
  }

  /** The merge loop run over `parts` in order, starting from `{}`. */
  function Fold(parts: seq<Secrets>): Secrets
    decreases |parts|
  {
    if parts == [] then map[] else Merge(Fold(parts[..|parts| - 1]), parts[|parts| - 1])
  }

  /** What the merge loop keeps: an entry is in the result when some part
      has it, its value comes from the last part that has it, and no
      target is left empty when no part has an empty target. */
  lemma {:induction false} FoldKeepsLastWriter(parts: seq<Secrets>)
    ensures var r := Fold(parts);
      && (forall t, n :: Has(r, t, n) <==> exists i :: 0 <= i < |parts| && Has(parts[i], t, n))
      && (forall i, t, n :: 0 <= i < |parts| && LastHolder(parts, i, t, n) ==> Has(r, t, n) && r[t][n] == parts[i][t][n])
      && ((forall i :: 0 <= i < |parts| ==> NoEmptyTargets(parts[i])) ==> NoEmptyTargets(r))
    decreases |parts|
  {
    if parts != [] {
      var init := parts[..|parts| - 1];
      FoldKeepsLastWriter(init);
      FoldStep(parts, Fold(init), Fold(parts));
    }
  }

  /** The inductive step of `Fold`: merging the last part into the fold of
      the others. */
  lemma FoldStep(parts: seq<Secrets>, prev: Secrets, r: Secrets)
    requires parts != []
    requires var init := parts[..|parts| - 1];
      && (forall t, n :: Has(prev, t, n) <==> exists i :: 0 <= i < |init| && Has(init[i], t, n))
      && (forall i, t, n :: 0 <= i < |init| && LastHolder(init, i, t, n) ==> Has(prev, t, n) && prev[t][n] == init[i][t][n])
      && ((forall i :: 0 <= i < |init| ==> NoEmptyTargets(init[i])) ==> NoEmptyTargets(prev))
    requires r == Merge(prev, parts[|parts| - 1])
    ensures forall t, n :: Has(r, t, n) <==> exists i :: 0 <= i < |parts| && Has(parts[i], t, n)
    ensures forall i, t, n :: 0 <= i < |parts| && LastHolder(parts, i, t, n) ==> Has(r, t, n) && r[t][n] == parts[i][t][n]
    ensures (forall i :: 0 <= i < |parts| ==> NoEmptyTargets(parts[i])) ==> NoEmptyTargets(r)
  {
    FoldStepHolds(parts, prev, r);
    FoldStepLastWriter(parts, prev, r);
    var init := parts[..|parts| - 1];
    assert forall i :: 0 <= i < |init| ==> init[i] == parts[i];
  }

  /** The step for membership: an entry of the merge comes from the last
      part or from one of the others. */
  lemma FoldStepHolds(parts: seq<Secrets>, prev: Secrets, r: Secrets)
    requires parts != []
    requires var init := parts[..|parts| - 1];
      forall t, n :: Has(prev, t, n) <==> exists i :: 0 <= i < |init| && Has(init[i], t, n)
    requires r == Merge(prev, parts[|parts| - 1])
    ensures forall t, n :: Has(r, t, n) <==> exists i :: 0 <= i < |parts| && Has(parts[i], t, n)
  {
    var init := parts[..|parts| - 1];
    var k := |parts| - 1;
    forall t, n
      ensures Has(r, t, n) <==> exists i :: 0 <= i < |parts| && Has(parts[i], t, n)
    {
      if Has(parts[k], t, n) {
        assert Has(r, t, n);
      } else if Has(r, t, n) {
        var i :| 0 <= i < |init| && Has(init[i], t, n);
        assert init[i] == parts[i];
      } else {
        forall i | 0 <= i < k
          ensures !Has(parts[i], t, n)
        {
          assert init[i] == parts[i];
        }
      }
    }
  }

  /** The step for values: the last holder of an entry is either the last
      part or the last holder among the others. */
  lemma FoldStepLastWriter(parts: seq<Secrets>, prev: Secrets, r: Secrets)
    requires parts != []
    requires var init := parts[..|parts| - 1];
      forall i, t, n :: 0 <= i < |init| && LastHolder(init, i, t, n) ==> Has(prev, t, n) && prev[t][n] == init[i][t][n]
    requires r == Merge(prev, parts[|parts| - 1])
    ensures forall i, t, n :: 0 <= i < |parts| && LastHolder(parts, i, t, n) ==> Has(r, t, n) && r[t][n] == parts[i][t][n]
  {
    var init := parts[..|parts| - 1];
    var k := |parts| - 1;
    forall i, t, n | 0 <= i < |parts| && LastHolder(parts, i, t, n)
      ensures Has(r, t, n) && r[t][n] == parts[i][t][n]
    {
      if i < k {
        assert init[i] == parts[i];
        assert forall j :: i < j < |init| ==> init[j] == parts[j];
        assert LastHolder(init, i, t, n);
      }
    }
  }

  /** Two resolutions without empty targets are equal once they hold the
      same entries with the same values. */
  lemma PointwiseEqual(a: Secrets, b: Secrets)
    requires NoEmptyTargets(a) && NoEmptyTargets(b)
    requires forall t, n :: Has(a, t, n) <==> Has(b, t, n)
    requires forall t, n :: Has(a, t, n) ==> Has(b, t, n) && a[t][n] == b[t][n]
    ensures a == b
  {
    forall t | t in a
      ensures t in b
    {
      TargetHasAnEntry(a, t);
    }
    forall t | t in b
      ensures t in a
    {
      TargetHasAnEntry(b, t);
    }
    forall t | t in a
      ensures a[t] == b[t]
    {
      SameTarget(a, b, t);
    }
  }

  /** One target of two resolutions that agree entry by entry. */
  lemma SameTarget(a: Secrets, b: Secrets, t: string)
    requires t in a && t in b
    requires forall n :: Has(a, t, n) <==> Has(b, t, n)
    requires forall n :: Has(a, t, n) ==> Has(b, t, n) && a[t][n] == b[t][n]
    ensures a[t] == b[t]
  {
    assert a[t].Keys == b[t].Keys by {
      forall n | n in a[t]
        ensures n in b[t]
      {
        assert Has(a, t, n);
      }
      forall n | n in b[t]
        ensures n in a[t]
      {
        assert Has(b, t, n);
      }
    }
    forall n | n in a[t]
      ensures a[t][n] == b[t][n]
    {
      assert Has(a, t, n);
    }
  }

  /** The merge loop over three parts, unrolled. */
  lemma FoldOfThree(a: Secrets, b: Secrets, c: Secrets)
    ensures Fold([a, b, c]) == Merge(Merge(Merge(map[], a), b), c)
  {
    assert [a, b, c][..2] == [a, b];
    assert [a, b][..1] == [a];
    assert [a][..0] == [];
    assert Fold([a]) == Merge(map[], a);
    assert Fold([a, b]) == Merge(Fold([a]), b);
    assert Fold([a, b, c]) == Merge(Fold([a, b]), c);
  }

  /** Folding three parts of which at most one holds secret `n` of `t`
      keeps that entry, with its value, if any part has it. */
  lemma FoldOfDisjointEntry(a: Secrets, b: Secrets, c: Secrets, t: string, n: string)
    requires !(Has(a, t, n) && Has(b, t, n))
    requires !(Has(a, t, n) && Has(c, t, n))
    requires !(Has(b, t, n) && Has(c, t, n))
    ensures Has(Fold([a, b, c]), t, n) <==> Has(a, t, n) || Has(b, t, n) || Has(c, t, n)
    ensures Has(a, t, n) ==> Has(Fold([a, b, c]), t, n) && Fold([a, b, c])[t][n] == a[t][n]
    ensures Has(b, t, n) ==> Has(Fold([a, b, c]), t, n) && Fold([a, b, c])[t][n] == b[t][n]
    ensures Has(c, t, n) ==> Has(Fold([a, b, c]), t, n) && Fold([a, b, c])[t][n] == c[t][n]
  {
    FoldOfThree(a, b, c);
  }

  /** Merging in a part with no targets changes nothing. */
  lemma MergeNothing(acc: Secrets)
    ensures Merge(acc, map[]) == acc
  {
    var r := Merge(acc, map[]);
    forall t | t in r
      ensures r[t] == acc[t]
    {
      assert r[t] == Entries(acc, t) + map[];
    }
  }

  /** In a result without empty targets, a target is present only through
      one of its entries. */
  lemma TargetHasAnEntry(s: Secrets, t: string)
    requires NoEmptyTargets(s)
    ensures t in s ==> exists n :: Has(s, t, n)
  {
    if t in s {
      var n :| n in s[t];
      assert Has(s, t, n);
    }
  }
}
