/**
 JavaScript scalar values as they reach the statement builders, with the two
 JavaScript conversions the builders rely on: truthiness (`!val`) and the
 string conversion performed by template-literal interpolation (`${val}`).
 Numbers are restricted to integers.
 */
module JsValues {

  datatype Value = Null | Undefined | Str(s: string) | Num(n: int) | Bool(b: bool)

  /** JavaScript falsiness, restricted to the values above. */
  predicate Falsy(v: Value) {
    match v
    case Null => true
    case Undefined => true
    case Str(s) => s == ""
    case Num(n) => n == 0
    case Bool(b) => !b
  }

  /** The falsy values are exactly the five JavaScript ones this value space has. */
  lemma FalsyValues(v: Value)
    ensures Falsy(v) <==> v in {Null, Undefined, Str(""), Num(0), Bool(false)}
  {
  }

  predicate IsDigit(c: char) {
    '0' <= c <= '9'
  }

  function DigitChar(d: nat): (c: char)
    requires d < 10
    ensures IsDigit(c) && c as int - '0' as int == d
  {
    ('0' as int + d) as char
  }

  function DigitValue(c: char): nat {
    if IsDigit(c) then c as int - '0' as int else 0
  }

  /** Decimal text of a natural number, most significant digit first, no leading zeros. */
  function NatText(n: nat): (r: string)
    ensures |r| > 0
    ensures forall i :: 0 <= i < |r| ==> IsDigit(r[i])
    ensures |r| > 1 ==> r[0] != '0'
    decreases n
  {
    if n < 10 then [DigitChar(n)] else NatText(n / 10) + [DigitChar(n % 10)]
  }

  /** `String(n)` for an integer `n`. */
  function IntText(n: int): string {
    if n < 0 then "-" + NatText(-n) else NatText(n)
  }

  /** The text `${v}` produces inside a template literal. */
  function ToText(v: Value): string {
    match v
    case Null => "null"
    case Undefined => "undefined"
    case Str(s) => s
    case Num(n) => IntText(n)
    case Bool(b) => if b then "true" else "false"
  }

  /** Reads decimal digits back; the independent inverse of `NatText`. */
  function ParseNat(s: string): nat
    decreases |s|
  {
    if |s| == 0 then 0 else ParseNat(s[..|s| - 1]) * 10 + DigitValue(s[|s| - 1])
  }

  function ParseInt(s: string): int {
    if |s| > 0 && s[0] == '-' then 0 - ParseNat(s[1..]) else ParseNat(s)
  }

  lemma {:induction false} NatTextRoundTrip(n: nat)
    ensures ParseNat(NatText(n)) == n
    decreases n
  {
    if n >= 10 {
      NatTextRoundTrip(n / 10);
      var t := NatText(n / 10) + [DigitChar(n % 10)];
      assert t[..|t| - 1] == NatText(n / 10);
    }
  }

  /** Integer rendering loses nothing: the decimal text reads back as the same number. */
  lemma IntTextRoundTrip(n: int)
    ensures ParseInt(IntText(n)) == n
  {
    if n < 0 {
      NatTextRoundTrip(-n);
      assert ("-" + NatText(-n))[1..] == NatText(-n);
    } else {
      NatTextRoundTrip(n);
    }
  }
}
