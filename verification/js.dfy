/** JavaScript values as the progression engine meets them: a field that holds
    a value of the expected type, or one of the two nullish values. Numbers are
    modelled as integers. */
module Js {

  datatype Option<+T> = None | Some(value: T)

  /** A JavaScript field: `undefined`, `null`, or a value of the expected type. */
  datatype Js<+T> = Undefined | Null | Val(v: T)

  /** `a ?? b`: the right operand is used only when the left one is nullish. */
  function Coalesce<T>(a: Js<T>, b: Js<T>): Js<T>
  {
    if a.Val? then a else b
  }

  /** JavaScript truthiness of a string field (`""`, `null` and `undefined` are falsy). */
  predicate TruthyText(t: Js<string>)
  {
    t.Val? && t.v != ""
  }

  /** `x || 0` on a numeric field: nullish and `0` both give `0`. */
  function OrZero(x: Js<int>): int
  {
    if x.Val? then x.v else 0
  }

  predicate IsDigit(c: char)
  {
    '0' <= c <= '9'
  }

  function DigitChar(d: int): (c: char)
    requires 0 <= d < 10
    ensures IsDigit(c)
  {
    "0123456789"[d]
  }

  /** Decimal spelling of a natural number, most significant digit first. */
  function NatToString(n: nat): (s: string)
    ensures |s| >= 1
    ensures forall i :: 0 <= i < |s| ==> IsDigit(s[i])
  {
    if n < 10 then [DigitChar(n)] else NatToString(n / 10) + [DigitChar(n % 10)]
  }

  /** `String(n)` for an integer `n`. */
  function IntToString(n: int): string
  {
    if n < 0 then "-" + NatToString(-n) else NatToString(n)
  }

  /** `String(x)` for a numeric field, including the two nullish spellings. */
  function NumberFieldToString(x: Js<int>): string
  {
    match x
    case Undefined => "undefined"
    case Null => "null"
    case Val(n) => IntToString(n)
  }

  /** Drop every character that is not a decimal digit. */
  function DigitsOnly(s: string): (r: string)
    ensures |r| <= |s|
    ensures forall i :: 0 <= i < |r| ==> IsDigit(r[i])
  {
    if s == [] then []
    else if IsDigit(s[0]) then [s[0]] + DigitsOnly(s[1..])
    else DigitsOnly(s[1..])
  }

  lemma {:induction false} DigitsOnlyConcat(a: string, b: string)
    ensures DigitsOnly(a + b) == DigitsOnly(a) + DigitsOnly(b)
    decreases |a|
  {
    if a == [] {
      assert a + b == b;
    } else {
      assert (a + b)[0] == a[0];
      assert (a + b)[1..] == a[1..] + b;
      DigitsOnlyConcat(a[1..], b);
    }
  }

  lemma {:induction false} DigitsOnlyKeepsDigits(s: string)
    requires forall i :: 0 <= i < |s| ==> IsDigit(s[i])
    ensures DigitsOnly(s) == s
    decreases |s|
  {
    if s != [] {
      DigitsOnlyKeepsDigits(s[1..]);
    }
  }

  /** Stripping the non-digits from `String(n)` leaves the decimal digits of `|n|`:
      the sign of a negative integer is lost. */
  lemma DigitsOfIntToString(n: int)
    ensures DigitsOnly(IntToString(n)) == NatToString(if n < 0 then -n else n)
  {
    var m: nat := if n < 0 then -n else n;
    DigitsOnlyKeepsDigits(NatToString(m));
    if n < 0 {
      DigitsOnlyConcat("-", NatToString(m));
    }
  }
}
