/** Small shared vocabulary: an optional value, a result-or-error, decimal rendering of integers
    as Python's str() and JavaScript's String() print them, JavaScript's
    truncating remainder, and sums over sequences. */
module Common {

  datatype Option<+T> = None | Some(value: T) {
    /** The value, or a default when there is none (Python's `x or d`, when
        only absence is falsy). */
    function GetOr(default: T): T {
      match this
      case Some(v) => v
      case None => default
    }
  }

  /** A value or the error that prevented it. */
  datatype Result<+T, +E> = Ok(value: T) | Err(error: E)

  /** The decimal digit character for 0..9. */
  function DigitChar(d: nat): (c: char)
    requires d < 10
    ensures '0' <= c <= '9'
  {
    ('0' as int + d) as char
  }

  /** The numeric value of a decimal digit character. */
  function DigitValue(c: char): (d: nat)
    requires '0' <= c <= '9'
    ensures d < 10 && DigitChar(d) == c
  {
    (c as int - '0' as int) as nat
  }

  lemma DigitCharValue(d: nat)
    requires d < 10
    ensures DigitValue(DigitChar(d)) == d
  {
  }

  predicate IsDigits(s: string) {
    forall i :: 0 <= i < |s| ==> '0' <= s[i] <= '9'
  }

  /** Decimal rendering of a natural number, without leading zeros. */
  function NatToString(n: nat): (s: string)
    ensures |s| >= 1 && IsDigits(s)
    ensures n < 10 <==> |s| == 1
    ensures |s| > 1 ==> s[0] != '0'
    decreases n
  {
    if n < 10 then [DigitChar(n)] else NatToString(n / 10) + [DigitChar(n % 10)]
  }

  /** Parsing a run of decimal digits (leading zeros allowed). */
  function DigitsValue(s: string): (n: nat)
    requires IsDigits(s)
    decreases |s|
  {
    if s == [] then 0 else 10 * DigitsValue(s[..|s| - 1]) + DigitValue(s[|s| - 1])
  }

  /** Reading back what NatToString printed gives the number again. */
  lemma {:induction false} NatToStringRoundTrip(n: nat)
    ensures DigitsValue(NatToString(n)) == n
    decreases n
  {
    if n >= 10 {
      var s := NatToString(n);
      assert s == NatToString(n / 10) + [DigitChar(n % 10)];
      assert s[..|s| - 1] == NatToString(n / 10) && s[|s| - 1] == DigitChar(n % 10);
      NatToStringRoundTrip(n / 10);
      DigitCharValue(n % 10);
      assert n == 10 * (n / 10) + n % 10;
    }
  }

  /** Decimal rendering of an integer, with a leading '-' when negative. */
  function IntToString(i: int): (s: string)
    ensures |s| >= 1
  {
    if i >= 0 then NatToString(i) else "-" + NatToString(-i)
  }

  /** JavaScript's `%`: the remainder of division truncated toward zero, so it
      has the sign of the dividend. */
  function TruncRem(a: int, b: int): (r: int)
    requires b > 0
    ensures a >= 0 ==> r == a % b
    ensures a < 0 ==> -b < r <= 0 && r == -((-a) % b)
  {
    if a >= 0 then a % b else -((-a) % b)
  }

  /** `String(n).padStart(2, "0")`. */
  function Pad2(i: int): (s: string)
    ensures 0 <= i < 10 ==> s == ['0', DigitChar(i)]
    ensures (i < 0 || i >= 10) ==> s == IntToString(i)
  {
    var t := IntToString(i);
    if |t| < 2 then "0" + t else t
  }

  function SumInts(xs: seq<int>): int
    decreases |xs|
  {
    if xs == [] then 0 else SumInts(xs[..|xs| - 1]) + xs[|xs| - 1]
  }

  function SumReals(xs: seq<real>): real
    decreases |xs|
  {
    if xs == [] then 0.0 else SumReals(xs[..|xs| - 1]) + xs[|xs| - 1]
  }

  lemma {:induction false} SumIntsAppend(xs: seq<int>, ys: seq<int>)
    ensures SumInts(xs + ys) == SumInts(xs) + SumInts(ys)
    decreases |ys|
  {
    if ys != [] {
      assert (xs + ys)[..|xs + ys| - 1] == xs + ys[..|ys| - 1];
      SumIntsAppend(xs, ys[..|ys| - 1]);
    } else {
      assert xs + ys == xs;
    }
  }

  lemma {:induction false} SumRealsAppend(xs: seq<real>, ys: seq<real>)
    ensures SumReals(xs + ys) == SumReals(xs) + SumReals(ys)
    decreases |ys|
  {
    if ys != [] {
      assert (xs + ys)[..|xs + ys| - 1] == xs + ys[..|ys| - 1];
      SumRealsAppend(xs, ys[..|ys| - 1]);
    } else {
      assert xs + ys == xs;
    }
  }

  /** Whether a string starts with a given prefix. */
  predicate StartsWith(s: string, prefix: string) {
    |prefix| <= |s| && s[..|prefix|] == prefix
  }
}
