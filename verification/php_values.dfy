/** The dynamically typed PHP values the helpers receive, and the few PHP
    primitives the exporter relies on: array lookup, `isset`, `is_array`,
    `empty` on strings and the conversion of integers and keys to strings. */
module PhpValues {
  import opened Wrappers

  /** A PHP array key: an integer or a string. */
  datatype Key = IntKey(i: int) | StrKey(s: string)

  /** A PHP value. Arrays are ordered lists of key/value entries, in
      insertion order, which is the order `foreach` visits them. */
  datatype Value =
    | Null
    | Bool(b: bool)
    | Int(i: int)
    | Str(s: string)
    | Arr(entries: seq<(Key, Value)>)

  /** The value stored under key `k` (the first entry carrying it), as PHP's
      `$array[$k]`; `None` when the key is absent. */
  function Get(entries: seq<(Key, Value)>, k: Key): (r: Option<Value>)
    ensures r.None? <==> forall e :: e in entries ==> e.0 != k
    ensures r.Some? ==> (k, r.value) in entries
  {
    if |entries| == 0 then None
    else if entries[0].0 == k then Some(entries[0].1)
    else Get(entries[1..], k)
  }

  /** PHP `isset($array[$k])`: the key is present and its value is not null. */
  predicate IsSet(entries: seq<(Key, Value)>, k: Key) {
    Get(entries, k).Some? && Get(entries, k).value != Null
  }

  /** The values of an array in iteration order, keys dropped, as
      `foreach ($array as $value)` visits them. */
  function Values(entries: seq<(Key, Value)>): (r: seq<Value>)
    ensures |r| == |entries|
    ensures forall i :: 0 <= i < |entries| ==> r[i] == entries[i].1
  {
    seq(|entries|, i requires 0 <= i < |entries| => entries[i].1)
  }

  /** PHP `empty($s)` for a string: true for `""` and for `"0"`. */
  predicate IsEmptyString(s: string) {
    s == "" || s == "0"
  }

  function DigitChar(d: nat): (c: char)
    requires d < 10
    ensures '0' <= c <= '9'
  {
    (48 + d) as char
  }

  function DigitValue(c: char): nat {
    if '0' <= c <= '9' then (c as int) - 48 else 0
  }

  /** Decimal digits without a leading zero, or "0" itself. */
  predicate IsCanonicalDecimal(s: string) {
    && |s| > 0
    && (forall i :: 0 <= i < |s| ==> '0' <= s[i] <= '9')
    && (s[0] != '0' || s == "0")
  }

  /** Decimal rendering of a natural number, as PHP converts an integer to a
      string: no leading zeros, "0" for zero. */
  function NatToDecimal(n: nat): (s: string)
    ensures |s| > 0
    ensures forall i :: 0 <= i < |s| ==> '0' <= s[i] <= '9'
    ensures s == "0" <==> n == 0
    ensures n > 0 ==> s[0] != '0'
    ensures IsCanonicalDecimal(s)
    decreases n
  {
    if n < 10 then [DigitChar(n)] else NatToDecimal(n / 10) + [DigitChar(n % 10)]
  }

  /** The number a string of decimal digits denotes. */
  function DecimalValue(s: string): nat
    decreases |s|
  {
    if |s| == 0 then 0 else DecimalValue(s[..|s| - 1]) * 10 + DigitValue(s[|s| - 1])
  }

  /** Reading back a rendered number gives the number. */
  lemma {:induction false} DecimalRoundTrip(n: nat)
    ensures DecimalValue(NatToDecimal(n)) == n
    decreases n
  {
    if n >= 10 {
      var s := NatToDecimal(n);
      assert s[..|s| - 1] == NatToDecimal(n / 10);
      DecimalRoundTrip(n / 10);
    }
  }

  /** A digit string of a number above 9 does not start with "0"; its value
      is then at least 10 when it has more than one digit. */
  lemma {:induction false} LeadingDigitValue(s: string)
    requires |s| > 0 && s[0] != '0'
    requires forall i :: 0 <= i < |s| ==> '0' <= s[i] <= '9'
    ensures DecimalValue(s) > 0
    ensures |s| > 1 ==> DecimalValue(s) >= 10
    decreases |s|
  {
    if |s| > 1 {
      var p := s[..|s| - 1];
      assert p[0] == s[0];
      LeadingDigitValue(p);
    }
  }

  /** The canonical rendering is the only one: a digit string without a
      leading zero (or "0" itself) is the rendering of the number it denotes. */
  lemma {:induction false} DecimalCanonical(s: string)
    requires IsCanonicalDecimal(s)
    ensures NatToDecimal(DecimalValue(s)) == s
    decreases |s|
  {
    var n := DecimalValue(s);
    var last := s[|s| - 1];
    var d := DigitValue(last);
    if |s| == 1 {
      assert s == [last] && s[..|s| - 1] == [];
      assert DecimalValue(s[..|s| - 1]) == 0;
      assert n == d;
      assert DigitChar(d) == last;
    } else {
      var p := s[..|s| - 1];
      assert p[0] == s[0] && s != "0";
      assert IsCanonicalDecimal(p);
      LeadingDigitValue(p);
      DecimalCanonical(p);
      var q := DecimalValue(p);
      assert n == q * 10 + d && d < 10;
      assert n / 10 == q && n % 10 == d;
      assert DigitChar(d) == last;
      assert s == p + [last];
    }
  }

  /** PHP's string form of an integer. */
  function IntToString(i: int): (s: string)
    ensures |s| > 0
  {
    if i < 0 then "-" + NatToDecimal(-i) else NatToDecimal(i)
  }

  /** PHP's string form of an array key, as `$key . $suffix` uses it. */
  function KeyString(k: Key): string {
    match k
    case IntKey(i) => IntToString(i)
    case StrKey(s) => s
  }

  /** PHP's string interpolation of a value: `null` and `false` give "",
      `true` gives "1", an array gives "Array". */
  function PhpToString(v: Value): string {
    match v
    case Null => ""
    case Bool(b) => if b then "1" else ""
    case Int(i) => IntToString(i)
    case Str(s) => s
    case Arr(_) => "Array"
  }
}
