/** strconv on decimal integers. */
module Decimal {
  import opened Text

  const MAX_INT64 := 0x7fff_ffff_ffff_ffff
  const MAX_UINT64 := 0xffff_ffff_ffff_ffff

  predicate Digit(c: byte) {
    '0' as int <= c <= '9' as int
  }

  predicate AllDigits(s: Bytes) {
    forall c <- s :: Digit(c)
  }

  /** strconv.AppendInt / Itoa for n >= 0. */
  function Digits(n: nat): (s: Bytes)
    ensures s != [] && AllDigits(s)
  {
    if n < 10 then ['0' as int + n] else Digits(n / 10) + ['0' as int + n % 10]
  }

  function DigitsValue(s: Bytes): nat
    requires AllDigits(s)
  {
    if s == [] then 0
    else
      assert s[|s| - 1] in s;
      10 * DigitsValue(s[..|s| - 1]) + (s[|s| - 1] - '0' as int)
  }

  lemma {:induction false} DigitsRoundTrip(n: nat)
    ensures DigitsValue(Digits(n)) == n
  {
    if n >= 10 {
      DigitsRoundTrip(n / 10);
      assert Digits(n)[..|Digits(n)| - 1] == Digits(n / 10);
    }
  }

  /** The number of leading digits. */
  function DigitRun(s: Bytes): (k: nat)
    ensures k <= |s| && AllDigits(s[..k]) && (k < |s| ==> !Digit(s[k]))
  {
    if s == [] || !Digit(s[0]) then 0
    else
      var k := DigitRun(s[1..]);
      assert s[..k + 1] == [s[0]] + s[1..][..k];
      k + 1
  }

  lemma {:induction false} DigitRunOf(digits: Bytes, after: Bytes)
    requires AllDigits(digits) && (after != [] ==> !Digit(after[0]))
    ensures DigitRun(digits + after) == |digits|
  {
    if digits == [] {
      assert digits + after == after;
    } else {
      DigitRunOf(digits[1..], after);
      assert (digits + after)[1..] == digits[1..] + after;
    }
  }

  /** The value strconv.Atoi returns, error or not: 0 for a syntax error, the nearest bound for a range
      error; digits that overflow 64 bits are a range error even when garbage follows. */
  function Atoi(s: Bytes): (n: int)
    ensures -MAX_INT64 - 1 <= n <= MAX_INT64
  {
    var signed := s != [] && (s[0] == '-' as int || s[0] == '+' as int);
    var negative := signed && s[0] == '-' as int;
    var t := if signed then s[1..] else s;
    var k := DigitRun(t);
    var v: int := DigitsValue(t[..k]);
    if v <= MAX_UINT64 && (k == 0 || k < |t|) then 0
    else if negative then (if v > MAX_INT64 + 1 then -MAX_INT64 - 1 else -v)
    else if v > MAX_INT64 then MAX_INT64 else v
  }

  /** strconv.Atoi reports no error. */
  predicate AtoiOk(s: Bytes) {
    var signed := s != [] && (s[0] == '-' as int || s[0] == '+' as int);
    var t := if signed then s[1..] else s;
    var k := DigitRun(t);
    var v := DigitsValue(t[..k]);
    0 < k == |t| && v <= MAX_INT64 + (if signed && s[0] == '-' as int then 1 else 0)
  }

  lemma AtoiOfDigits(n: nat)
    requires n <= MAX_INT64
    ensures Atoi(Digits(n)) == n
  {
    var s := Digits(n);
    assert Digit(s[0]);
    DigitRunOf(s, []);
    assert s + [] == s && s[..|s|] == s;
    DigitsRoundTrip(n);
  }

  /** With a sign or without, a number is read as it is, or as the nearest int64. */
  lemma {:induction false} AtoiOfSigned(n: nat)
    ensures n <= MAX_INT64 ==> Atoi(['-' as int] + Digits(n)) + n == 0
    ensures n > MAX_INT64 ==> Atoi(['-' as int] + Digits(n)) == -MAX_INT64 - 1
    ensures Atoi(Digits(n)) == Atoi(['+' as int] + Digits(n)) == if n <= MAX_INT64 then n else MAX_INT64
  {
    var s := Digits(n);
    DigitsRoundTrip(n);
    hide Digits;
    assert s[0] in s;
    DigitRunOf(s, []);
    assert s + [] == s && s[..|s|] == s;
    assert (['-' as int] + s)[1..] == s && (['+' as int] + s)[1..] == s;
  }

  /** Go's int64 arithmetic wraps around. */
  function Wrap64(n: int): (r: int)
    ensures -MAX_INT64 - 1 <= r <= MAX_INT64
    ensures -MAX_INT64 - 1 <= n <= MAX_INT64 ==> r == n
  {
    (n + MAX_INT64 + 1) % (MAX_UINT64 + 1) - MAX_INT64 - 1
  }
}
