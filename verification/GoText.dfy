/**
 The parts of Go's integers and of its fmt and strconv packages that the slug
 code rests on: 64-bit wrap-around, truncated division, the %d verb and
 ParseInt(s, 10, 64).
 */
module GoText {
  import opened Wrappers

  const TWO_63 := 0x8000_0000_0000_0000
  const TWO_64 := 0x1_0000_0000_0000_0000

  /** A second in the nanoseconds that time.Duration counts. */
  const SECOND := 1_000_000_000

  datatype ParseError = Syntax | Range

  predicate IsInt64(n: int) {
    -TWO_63 <= n < TWO_63
  }

  /** The int64 that a computation with mathematical value n leaves behind. */
  function Wrap64(n: int): (r: int)
    ensures IsInt64(r)
    ensures IsInt64(n) ==> r == n
  {
    (n + TWO_63) % TWO_64 - TWO_63
  }

  /** It is the one 64-bit integer that differs from n by a multiple of 2^64. */
  lemma WrapsAround(n: int, r: int)
    ensures Wrap64(n) == r <==> IsInt64(r) && (n - r) % TWO_64 == 0
  {
  }

  /** Go's integer division by a positive divisor truncates toward zero. */
  function TruncDiv(a: int, b: int): int
    requires b > 0
  {
    if a >= 0 then a / b else -(-a / b)
  }

  /** It leaves a remainder of the sign of the dividend. */
  lemma TruncatesTowardZero(a: int, b: int)
    requires b > 0
    ensures var r := a - TruncDiv(a, b) * b;
            if a >= 0 then 0 <= r < b else -b < r <= 0
  {
  }

  predicate IsDigit(c: char) {
    '0' <= c <= '9'
  }

  predicate AllDigits(s: string) {
    forall i | 0 <= i < |s| :: IsDigit(s[i])
  }

  function DigitText(d: nat): (c: char)
    requires d < 10
    ensures IsDigit(c)
  {
    '0' + d as char
  }

  function DigitValue(c: char): (d: nat)
    requires IsDigit(c)
    ensures d < 10
  {
    (c - '0') as nat
  }

  function NatText(n: nat): (s: string)
    ensures s != "" && AllDigits(s)
  {
    if n < 10 then [DigitText(n)] else NatText(n / 10) + [DigitText(n % 10)]
  }

  function NatValue(s: string): nat
    requires AllDigits(s)
  {
    if s == "" then 0 else 10 * NatValue(s[..|s| - 1]) + DigitValue(s[|s| - 1])
  }

  /** fmt.Sprintf("%d", n) */
  function IntText(n: int): string {
    if n < 0 then "-" + NatText(-n) else NatText(n)
  }

  /** strconv.ParseInt(s, 10, 64): an optional sign, then at least one digit, in range. */
  function ParseInt64(s: string): Result<int, ParseError> {
    if s == "" then Failure(Syntax)
    else
      var digits := if s[0] == '+' || s[0] == '-' then s[1..] else s;
      if digits == "" || !AllDigits(digits) then Failure(Syntax)
      else
        var magnitude: int := NatValue(digits);
        var n := if s[0] == '-' then -magnitude else magnitude;
        if IsInt64(n) then Success(n) else Failure(Range)
  }

  lemma {:induction false} NatTextRoundTrip(n: nat)
    ensures NatValue(NatText(n)) == n
  {
    if n >= 10 {
      var s := NatText(n);
      assert s[..|s| - 1] == NatText(n / 10);
      NatTextRoundTrip(n / 10);
    }
  }

  /** What %d prints, ParseInt reads back; outside int64 it reports a range error. */
  lemma IntTextRoundTrip(n: int)
    ensures ParseInt64(IntText(n)) == if IsInt64(n) then Success(n) else Failure(Range)
  {
    var digits := NatText(if n < 0 then -n else n);
    NatTextRoundTrip(if n < 0 then -n else n);
    var s := IntText(n);
    if n < 0 {
      assert s[0] == '-' && s[1..] == digits;
    } else {
      assert s == digits && IsDigit(s[0]);
    }
  }

  /** A plus sign in front changes nothing. */
  lemma PlusSign(n: nat)
    ensures ParseInt64("+" + NatText(n)) == ParseInt64(NatText(n))
  {
    IntTextRoundTrip(n);
    NatTextRoundTrip(n);
    assert ("+" + NatText(n))[1..] == NatText(n);
  }

  /** A character past the first that is no digit makes ParseInt fail. */
  lemma StrayCharacterFails(s: string, k: nat)
    requires 0 < k < |s| && !IsDigit(s[k])
    ensures ParseInt64(s) == Failure(Syntax)
  {
    if s[0] == '+' || s[0] == '-' {
      assert s[1..][k - 1] == s[k];
    }
  }
}
