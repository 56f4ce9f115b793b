/** JSON-like values as they appear in an experiment's `secrets` section, in
    its `configuration` and in the payloads Vault returns, together with the
    little of Python's object protocol the secret loaders rely on. */
module Values {

  /** A JSON value without floating point numbers. Python dicts read from
      JSON are keyed by strings. */
  datatype Value =
    | Null
    | Bool(b: bool)
    | Int(i: int)
    | Str(s: string)
    | Arr(items: seq<Value>)
    | Obj(fields: map<string, Value>)

  type Dict = map<string, Value>

  /** Python's `d.get(k, default)`. */
  function GetOr(d: Dict, k: string, default: Value): Value {
    if k in d then d[k] else default
  }

  /** Python's `d.get(k)`: `None` when the key is absent. */
  function Get(d: Dict, k: string): Value {
    GetOr(d, k, Null)
  }

  /** Python's `key in d` for a key of any hashable type: only strings can
      be keys of a dict read from JSON. */
  predicate InDict(key: Value, d: Dict) {
    key.Str? && key.s in d
  }

  /** Lists and dicts cannot be hashed, so `key in d` raises on them. */
  predicate Hashable(key: Value) {
    !key.Arr? && !key.Obj?
  }

  predicate IsDigit(c: char) {
    '0' <= c <= '9'
  }

  predicate AllDigits(s: string) {
    forall i :: 0 <= i < |s| ==> IsDigit(s[i])
  }

  function DigitChar(d: nat): (c: char)
    requires d < 10
    ensures IsDigit(c)
    ensures c as int - '0' as int == d
  {
    ('0' as int + d) as char
  }

  /** The decimal digits of `n`, as Python's `str(n)` writes them. */
  function NatToDecimal(n: nat): (s: string)
    ensures AllDigits(s)
    ensures 1 <= |s|
    ensures n < 10 <==> |s| == 1
    ensures s[0] != '0' || n == 0
    decreases n
  {
    if n < 10 then [DigitChar(n)] else NatToDecimal(n / 10) + [DigitChar(n % 10)]
  }

  /** The number a string of decimal digits denotes (the partner of
      `NatToDecimal`). */
  function DecimalValue(s: string): nat
    requires AllDigits(s)
    decreases |s|
  {
    if s == [] then 0
    else DecimalValue(s[..|s| - 1]) * 10 + (s[|s| - 1] as int - '0' as int)
  }

  lemma {:induction false} DecimalRoundTrip(n: nat)
    ensures DecimalValue(NatToDecimal(n)) == n
    decreases n
  {
    var s := NatToDecimal(n);
    if n < 10 {
      assert s[..|s| - 1] == [];
    } else {
      assert s[..|s| - 1] == NatToDecimal(n / 10);
      DecimalRoundTrip(n / 10);
    }
  }

  /** Python's `str(v)`. Scalars are rendered exactly; lists and dicts are
      abbreviated to their brackets, which is all that `str(v) == "1"`
      can observe of them. */
  function PyStr(v: Value): (r: string)
    ensures v.Str? ==> r == v.s
    ensures v.Int? && v.i >= 0 ==>
              && |r| >= 1 && (r[0] != '0' || v.i == 0)
              && AllDigits(r) && DecimalValue(r) == v.i
    ensures v.Int? && v.i < 0 ==>
              && |r| > 1 && r[0] == '-' && r[1] != '0'
              && AllDigits(r[1..]) && DecimalValue(r[1..]) == -v.i
  {
    match v
    case Null => "None"
    case Bool(b) => if b then "True" else "False"
    case Int(i) =>
      if i < 0 then
        var digits := NatToDecimal(-i);
        DecimalRoundTrip(-i);
        assert ("-" + digits)[1..] == digits;
        "-" + digits
      else
        DecimalRoundTrip(i);
        NatToDecimal(i)
    case Str(s) => s
    case Arr(_) => "[...]"
    case Obj(_) => "{...}"
  }

  /** Exactly two values are rendered as "1" by `str`: the string "1" and
      the integer 1. */
  lemma PyStrIsOne(v: Value)
    ensures PyStr(v) == "1" <==> v == Str("1") || v == Int(1)
  {
    if v.Int? && v.i >= 0 && PyStr(v) == "1" {
      var s := NatToDecimal(v.i);
      assert |s| == 1;
      DecimalRoundTrip(v.i);
      assert s == [s[0]];
      assert s[0] == '1';
      assert DecimalValue(s) == DecimalValue(s[..0]) * 10 + 1;
    }
    if v.Int? && v.i < 0 {
      assert PyStr(v)[0] == '-';
    }
  }
}
