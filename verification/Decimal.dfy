/** Decimal numbers as Go's strconv prints and parses them. */
module Decimal {
  import opened Bytes

  const DOT: byte := '.' as int
  const MINUS: byte := '-' as int
  const PLUS: byte := '+' as int

  type i64 = n: int | -0x8000_0000_0000_0000 <= n < 0x8000_0000_0000_0000

  predicate IsDigit(b: byte) {
    48 <= b <= 57
  }

  predicate AllDigits(s: Blob) {
    forall i :: 0 <= i < |s| ==> IsDigit(s[i])
  }

  function Value(s: Blob): nat
    requires AllDigits(s)
  {
    if s == [] then 0 else 10 * Value(s[..|s| - 1]) + (s[|s| - 1] - 48)
  }

  function PrintUint(n: nat): (s: Blob)
    ensures s != [] && AllDigits(s)
  {
    if n < 10 then [48 + n] else PrintUint(n / 10) + [48 + n % 10]
  }

  function PrintInt(n: int): Blob {
    if n < 0 then [MINUS] + PrintUint(-n) else PrintUint(n)
  }

  /** Digits only, and a value that fits 64 bits. */
  function ParseUint(s: Blob): Option<u64> {
    if s == [] || !AllDigits(s) || Value(s) >= TWO_TO_64 then None else Some(Value(s))
  }

  /** An optional sign before the digits, and a value that fits a signed 64-bit word. */
  function ParseInt(s: Blob): Option<i64> {
    if s == [] then None
    else
      var negative := s[0] == MINUS;
      var signed := negative || s[0] == PLUS;
      match ParseUint(if signed then s[1..] else s)
      case None => None
      case Some(n) =>
        if !negative && n >= 0x8000_0000_0000_0000 then None
        else if negative && n > 0x8000_0000_0000_0000 then None
        else Some(if negative then 0 - n as int else n as int)
  }

  lemma {:induction false} ValuePrint(n: nat)
    ensures Value(PrintUint(n)) == n
  {
    if n >= 10 {
      ValuePrint(n / 10);
      var s := PrintUint(n);
      assert s[..|s| - 1] == PrintUint(n / 10);
    } else {
      assert PrintUint(n)[..0] == [];
    }
  }

  lemma UintRoundTrip(n: nat)
    ensures ParseUint(PrintUint(n)) == Some(n) <==> n < TWO_TO_64
  {
    ValuePrint(n);
  }

  lemma IntRoundTrip(n: i64)
    ensures ParseInt(PrintInt(n)) == Some(n)
  {
    var magnitude: nat := if n < 0 then 0 - n as int else n as int;
    UintRoundTrip(magnitude);
    var digits := PrintUint(magnitude);
    if n < 0 {
      assert PrintInt(n) == [MINUS] + digits && PrintInt(n)[1..] == digits;
    } else {
      assert PrintInt(n) == digits && IsDigit(digits[0]);
    }
  }

  lemma DigitsHaveNoDot(s: Blob)
    requires AllDigits(s)
    ensures DOT !in s
  {
    assert forall i :: 0 <= i < |s| ==> s[i] != DOT;
  }

  /** Neither printer emits a dot and neither parser accepts one. */
  lemma NoDots(n: int, s: Blob)
    ensures DOT !in PrintInt(n)
    ensures n >= 0 ==> DOT !in PrintUint(n)
    ensures DOT in s ==> ParseUint(s) == None && ParseInt(s) == None
  {
    DigitsHaveNoDot(PrintUint(if n < 0 then -n else n));
    if AllDigits(s) {
      DigitsHaveNoDot(s);
    }
    if |s| > 0 && AllDigits(s[1..]) {
      DigitsHaveNoDot(s[1..]);
      assert s == [s[0]] + s[1..];
    }
  }

  /** What is taken for a number: digits, one at least, of a value below 2^64; zeros in front do not matter. */
  lemma UintParsesIff(s: Blob)
    ensures ParseUint(s).Some? <==> s != [] && (forall i :: 0 <= i < |s| ==> 48 <= s[i] <= 57) && Value(s) < TWO_TO_64
    ensures ParseUint(s).Some? ==> ParseUint([48] + s) == ParseUint(s)
  {
    if AllDigits(s) {
      ZeroInFront(s);
    }
  }

  lemma {:induction false} ZeroInFront(s: Blob)
    requires AllDigits(s)
    ensures AllDigits([48] + s) && Value([48] + s) == Value(s)
    decreases |s|
  {
    if s == [] {
      assert [48][..0] == [];
      assert [48] + s == [48];
    } else {
      var n := |s| - 1;
      ZeroInFront(s[..n]);
      assert ([48] + s)[..n + 1] == [48] + s[..n];
    }
  }

  /** A plus sign in front of digits changes nothing; a minus sign negates, down to -2^63. */
  lemma SignsAreRead(n: u64)
    ensures ParseInt([43] + PrintUint(n)) == ParseInt(PrintUint(n)) == if n < 0x8000_0000_0000_0000 then Some(n) else None
    ensures ParseInt([45] + PrintUint(n)) == if n <= 0x8000_0000_0000_0000 then Some(0 - n) else None
  {
    UintRoundTrip(n);
    var digits := PrintUint(n);
    assert ([43] + digits)[1..] == digits && ([45] + digits)[1..] == digits;
    assert IsDigit(digits[0]);
  }

  function Pow10(k: nat): (p: nat) {
    if k == 0 then 1 else 10 * Pow10(k - 1)
  }

  lemma {:induction false} DigitCount(n: nat, k: nat)
    requires k > 0
    ensures Pow10(6) == 1_000_000
    ensures n < Pow10(k) ==> |PrintUint(n)| <= k
  {
    assert Pow10(3) == 1000;
    if n >= 10 && k > 1 {
      DigitCount(n / 10, k - 1);
    }
  }

  /** The last digit is the remainder by ten, and the digits before it print the quotient. */
  lemma DigitByDigit(n: nat)
    ensures var s := PrintUint(n);
      s[|s| - 1] == ByteOf("0123456789"[n % 10]) && (if n < 10 then |s| == 1 else s[..|s| - 1] == PrintUint(n / 10))
  {
    if n >= 10 {
      var s := PrintUint(n);
      assert s[..|s| - 1] == PrintUint(n / 10);
    }
  }
}
