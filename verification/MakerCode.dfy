/** The nine-character maker code derived from a PID: a 64-bit mix and a division loop that adds a constant every round. */
module MakerCode {
  import opened Bytes
  import opened Arith

  const GOLDEN: u64 := 0x9e37_79b9_7f4a_7c15
  const ODD: u64 := 0xff51_afd7_ed55_8ccd
  const ODD_INVERSE: u64 := 0x4f74_430c_22a5_4005
  const CODE_LENGTH := 9

  // ----- the mix -----

  /** Bitwise exclusive or on the low `width` bits. */
  function Xor(a: nat, b: nat, width: nat): nat {
    if width == 0 then 0 else (a + b) % 2 + 2 * Xor(a / 2, b / 2, width - 1)
  }

  function Pow2(n: nat): (p: nat)
    ensures p >= 1
  {
    if n == 0 then 1 else 2 * Pow2(n - 1)
  }

  lemma {:induction false} XorInvolution(a: nat, b: nat, width: nat)
    requires a < Pow2(width)
    ensures Xor(a, b, width) < Pow2(width)
    ensures Xor(Xor(a, b, width), b, width) == a
  {
    if width > 0 {
      XorInvolution(a / 2, b / 2, width - 1);
      FlipTwice(a, b, Xor(a / 2, b / 2, width - 1));
    }
  }

  /** Bit `k` of a number. */
  predicate Bit(n: nat, k: nat) {
    if k == 0 then n % 2 == 1 else Bit(n / 2, k - 1)
  }

  /** Which is the quotient by that power of two, odd or even. */
  lemma {:induction false} BitIsQuotient(n: nat, k: nat)
    ensures Bit(n, k) <==> n / Pow2(k) % 2 == 1
  {
    if k > 0 {
      BitIsQuotient(n / 2, k - 1);
      HalfThenDivide(n, Pow2(k - 1));
    }
  }

  lemma HalfThenDivide(n: nat, p: nat)
    requires p > 0
    ensures n / 2 / p == n / (2 * p)
  {
    var h := n / 2;
    var q, r := h / p, h % p;
    assert h == p * q + r;
    assert (2 * p) * q == 2 * (p * q);
    DivUnique(n, 2 * p, q, 2 * r + n % 2);
  }

  lemma BitAndHalf(bit: nat, half: nat)
    requires bit < 2
    ensures (bit + 2 * half) % 2 == bit && (bit + 2 * half) / 2 == half
  {
  }

  lemma OddSum(a: nat, b: nat)
    ensures (a + b) % 2 == 1 <==> (a % 2 == 1) != (b % 2 == 1)
  {
  }

  /** Bit by bit, the exclusive or is set exactly where one of the two is and the other is not. */
  lemma {:induction false} XorBits(a: nat, b: nat, width: nat, k: nat)
    requires k < width
    ensures Bit(Xor(a, b, width), k) <==> (Bit(a, k) != Bit(b, k))
  {
    var x := Xor(a / 2, b / 2, width - 1);
    BitAndHalf((a + b) % 2, x);
    OddSum(a, b);
    if k > 0 {
      XorBits(a / 2, b / 2, width - 1, k - 1);
    }
  }

  lemma {:induction false} XorWithZero(b: nat, width: nat)
    requires b < Pow2(width)
    ensures Xor(0, b, width) == b
  {
    if width > 0 {
      XorWithZero(b / 2, width - 1);
    }
  }

  lemma Pow2Doubling(p: nat, n: nat)
    requires Pow2(n) == p
    ensures Pow2(n + 4) == 16 * p
  {
    assert Pow2(n + 1) == 2 * p;
    assert Pow2(n + 2) == 4 * p;
    assert Pow2(n + 3) == 8 * p;
  }

  lemma Pow2Of64()
    ensures Pow2(64) == TWO_TO_64
  {
    Pow2Of32();
    Pow2Doubling(0x1_0000_0000, 32);
    Pow2Doubling(0x10_0000_0000, 36);
    Pow2Doubling(0x100_0000_0000, 40);
    Pow2Doubling(0x1000_0000_0000, 44);
    Pow2Doubling(0x1_0000_0000_0000, 48);
    Pow2Doubling(0x10_0000_0000_0000, 52);
    Pow2Doubling(0x100_0000_0000_0000, 56);
    Pow2Doubling(0x1000_0000_0000_0000, 60);
  }

  lemma Pow2Of32()
    ensures Pow2(32) == 0x1_0000_0000
  {
    Pow2Doubling(0x1, 0);
    Pow2Doubling(0x10, 4);
    Pow2Doubling(0x100, 8);
    Pow2Doubling(0x1000, 12);
    Pow2Doubling(0x1_0000, 16);
    Pow2Doubling(0x10_0000, 20);
    Pow2Doubling(0x100_0000, 24);
    Pow2Doubling(0x1000_0000, 28);
  }

  /** Multiplication as a 64-bit register does it. */
  function WrapMul(a: nat, b: nat): u64 {
    (a * b) % TWO_TO_64
  }

  function Mix(pid: u64): u64 {
    WrapMul(Xor(pid, GOLDEN, 64), ODD)
  }

  function Unmix(x: u64): u64 {
    Pow2Of64();
    XorInvolution(WrapMul(x, ODD_INVERSE), GOLDEN, 64);
    Xor(WrapMul(x, ODD_INVERSE), GOLDEN, 64)
  }

  lemma ProductIsUnit(x: nat, a: nat, b: nat, k: nat, n: nat)
    requires a * b == k * n + 1
    ensures x * a * b == (x * k) * n + x
  {
    assert x * a * b == x * (a * b);
    assert x * (k * n + 1) == x * (k * n) + x;
    assert x * (k * n) == (x * k) * n;
  }

  lemma InverseCancels(x: u64, a: nat, b: nat, k: nat)
    requires a * b == k * TWO_TO_64 + 1
    ensures WrapMul(WrapMul(x, a), b) == x
  {
    ModMul(x * a, b, TWO_TO_64);
    ProductIsUnit(x, a, b, k, TWO_TO_64);
    ModAddMultiple(x, x * k, TWO_TO_64);
  }

  /** Multiplying by the odd constant and then by its inverse is the identity on 64-bit words, in either order. */
  lemma {:induction false} OddMultiplicationInverts(x: u64)
    ensures WrapMul(WrapMul(x, ODD), ODD_INVERSE) == x
    ensures WrapMul(WrapMul(x, ODD_INVERSE), ODD) == x
  {
    var k := (ODD * ODD_INVERSE) / TWO_TO_64;
    assert ODD * ODD_INVERSE == k * TWO_TO_64 + 1;
    InverseCancels(x, ODD, ODD_INVERSE, k);
    InverseCancels(x, ODD_INVERSE, ODD, k);
  }

  /** The mix is a bijection of the 64-bit words: no two PIDs mix alike and every word is some PID's mix. */
  lemma {:induction false} MixIsBijective(pid: u64, word: u64)
    ensures Unmix(Mix(pid)) == pid
    ensures Mix(Unmix(word)) == word
  {
    Pow2Of64();
    XorInvolution(pid, GOLDEN, 64);
    XorInvolution(WrapMul(word, ODD_INVERSE), GOLDEN, 64);
    OddMultiplicationInverts(Xor(pid, GOLDEN, 64));
    OddMultiplicationInverts(word);
  }

  // ----- the closed form -----

  /** Character `d` of the alphabet: the digits, then the letters B to Y without the vowels. */
  function Glyph(d: nat): (c: byte)
    requires d < 30
  {
    if d < 10 then 48 + d           // 0-9
    else if d < 13 then 66 + d - 10 // B-D
    else if d < 16 then 70 + d - 13 // F-H
    else if d < 21 then 74 + d - 16 // J-N
    else if d < 26 then 80 + d - 21 // P-T
    else 86 + d - 26                // V-Y
  }

  lemma GlyphsSpellTheAlphabet(d: nat)
    requires d < 30
    ensures Glyph(d) == ByteOf("0123456789BCDFGHJKLMNPQRSTVWXY"[d])
  {
  }

  function Pow30(n: nat): (p: nat)
    ensures p >= 1
  {
    if n == 0 then 1 else 30 * Pow30(n - 1)
  }

  /** 30 + 30^2 + ... + 30^n */
  function Geometric(n: nat): nat {
    if n == 0 then 0 else 30 * (1 + Geometric(n - 1))
  }

  /** The low `n` base-30 digits of `x`, least significant first, as characters. */
  function Digits30(x: nat, n: nat): (code: Blob)
    ensures |code| == n
  {
    if n == 0 then [] else [Glyph(x % 30)] + Digits30(x / 30, n - 1)
  }

  /** A register value with the constants that `n` rounds will still add, each carried to its own power of 30. */
  function Spread(x: nat, n: nat): nat {
    if n == 0 then x else x + GOLDEN * Geometric(n - 1)
  }

  /** `n` characters in closed form: the low base-30 digits of x + GOLDEN * (30 + 30^2 + ... + 30^(n-1)). */
  function ClosedForm(x: nat, n: nat): (code: Blob)
    ensures |code| == n
  {
    Digits30(Spread(x, n), n)
  }

  /** The maker code: the nine low digits of the mix of the PID, spread. */
  function Code(pid: u64): (code: Blob)
    ensures |code| == CODE_LENGTH
  {
    ClosedForm(Mix(pid), CODE_LENGTH)
  }

  /** What `n` rounds of the loop emit from register value `x`. */
  function Rounds(x: nat, n: nat): (code: Blob)
    ensures |code| == n
    decreases n
  {
    if n == 0 then [] else [Glyph(x % 30)] + Rounds(x / 30 + GOLDEN, n - 1)
  }

  lemma SpreadStep(x: nat, n: nat)
    requires n > 0
    ensures Spread(x, n) % 30 == x % 30
    ensures n > 1 ==> Spread(x, n) / 30 == Spread(x / 30 + GOLDEN, n - 1)
  {
    if n > 1 {
      var g := Geometric(n - 2);
      assert GOLDEN * Geometric(n - 1) == 30 * (GOLDEN + GOLDEN * g);
      CarryDigit(x, GOLDEN + GOLDEN * g);
    }
  }

  /** Adding the constant in every round is the same as adding all of it, spread over the powers of 30, before the first. */
  lemma {:induction false} RoundsClosedForm(x: nat, n: nat)
    ensures Rounds(x, n) == ClosedForm(x, n)
    decreases n
  {
    if n > 0 {
      SpreadStep(x, n);
      RoundsClosedForm(x / 30 + GOLDEN, n - 1);
      assert n == 1 ==> Digits30(Spread(x, n) / 30, 0) == [];
    }
  }

  /** The loop of the source: every value of the register fits 64 bits, so no round wraps. */
  method FillDigits(b: array<byte>, mixed: u64)
    modifies b
    ensures b[..] == ClosedForm(mixed, b.Length)
  {
    var x: u64 := mixed;
    for i := 0 to b.Length
      invariant b[..i] + Rounds(x, b.Length - i) == Rounds(mixed, b.Length)
    {
      b[i] := Glyph(x % 30);
      x := x / 30 + GOLDEN;
    }
    RoundsClosedForm(mixed, b.Length);
  }

  method MakeCode(pid: u64) returns (code: Blob)
    ensures code == Code(pid)
  {
    var b := new byte[CODE_LENGTH];
    FillDigits(b, Mix(pid));
    code := b[..];
  }

  lemma XorStep(a: nat, b: nat, width: nat, x: nat)
    requires width > 0 && Xor(a / 2, b / 2, width - 1) == x
    ensures Xor(a, b, width) == (a + b) % 2 + 2 * x
  {
  }

  lemma Pow2Of54()
    ensures Pow2(54) == 0x40_0000_0000_0000
  {
    Pow2Of32();
    Pow2Doubling(0x1_0000_0000, 32);
    Pow2Doubling(0x10_0000_0000, 36);
    Pow2Doubling(0x100_0000_0000, 40);
    Pow2Doubling(0x1000_0000_0000, 44);
    Pow2Doubling(0x1_0000_0000_0000, 48);
    assert Pow2(53) == 2 * Pow2(52);
  }

  lemma XorOf1001()
    ensures Xor(1001, GOLDEN, 64) == 0x9e3779b97f4a7ffc
  {
    Pow2Of54();
    XorWithZero(0x278dde6e5fd29f, 54);
    XorStep(1, 0x4f1bbcdcbfa53e, 55, 0x278dde6e5fd29f);
    XorStep(3, 0x9e3779b97f4a7c, 56, 0x4f1bbcdcbfa53f);
    XorStep(7, 0x13c6ef372fe94f8, 57, 0x9e3779b97f4a7f);
    XorStep(15, 0x278dde6e5fd29f0, 58, 0x13c6ef372fe94ff);
    XorStep(31, 0x4f1bbcdcbfa53e0, 59, 0x278dde6e5fd29ff);
    XorStep(62, 0x9e3779b97f4a7c1, 60, 0x4f1bbcdcbfa53ff);
    XorStep(125, 0x13c6ef372fe94f82, 61, 0x9e3779b97f4a7ff);
    XorStep(250, 0x278dde6e5fd29f05, 62, 0x13c6ef372fe94fff);
    XorStep(500, 0x4f1bbcdcbfa53e0a, 63, 0x278dde6e5fd29fff);
    XorStep(1001, 0x9e3779b97f4a7c15, 64, 0x4f1bbcdcbfa53ffe);
  }

  lemma Mix1001()
    ensures Mix(1001) == 9671453830680825036
  {
    XorOf1001();
    assert 0x9e3779b97f4a7ffc * 0xff51afd7ed558ccd == 11370391118257045501 * 0x1_0000_0000_0000_0000 + 9671453830680825036;
    DivUnique(0x9e3779b97f4a7ffc * 0xff51afd7ed558ccd, TWO_TO_64, 11370391118257045501, 9671453830680825036);
  }

  lemma RoundStep(x: nat, n: nat, c: byte, rest: Blob)
    requires n > 0 && Rounds(x / 30 + GOLDEN, n - 1) == rest && Glyph(x % 30) == c
    ensures Rounds(x, n) == [c] + rest
  {
  }

  lemma LastRoundsOf1001()
    ensures Rounds(11793842913629869323, 3) == [51, 89, 72]
  {
    RoundStep(11793842916538004955, 1, 72, []);
    RoundStep(11793842916444194129, 2, 89, [72]);
    RoundStep(11793842913629869323, 3, 51, [89, 72]);
  }

  lemma MiddleRoundsOf1001()
    ensures Rounds(11793764309538059796, 6) == [54, 76, 87, 51, 89, 72]
  {
    LastRoundsOf1001();
    RoundStep(11793842829200125167, 4, 87, [51, 89, 72]);
    RoundStep(11793840296307800478, 5, 76, [87, 51, 89, 72]);
    RoundStep(11793764309538059796, 6, 54, [76, 87, 51, 89, 72]);
  }

  lemma RoundsOf1001()
    ensures Rounds(9671453830680825036, 9) == [54, 54, 80, 54, 76, 87, 51, 89, 72]
  {
    MiddleRoundsOf1001();
    RoundStep(11791484706445839351, 7, 80, [54, 76, 87, 51, 89, 72]);
    RoundStep(11723096613679225986, 8, 54, [80, 54, 76, 87, 51, 89, 72]);
    RoundStep(9671453830680825036, 9, 54, [54, 80, 54, 76, 87, 51, 89, 72]);
  }

  lemma TextOf1001()
    ensures Text("66P6LW3YH") == [54, 54, 80, 54, 76, 87, 51, 89, 72]
  {
    var code := "66P6LW3YH";
    assert |Text(code)| == 9;
  }

  /** A whole code, which fixes the two constants: the rounds of the source, the last one first. */
  lemma CodeOf1001()
    ensures Code(1001) == Text("66P6LW3YH")
  {
    Mix1001();
    RoundsClosedForm(9671453830680825036, 9);
    RoundsOf1001();
    TextOf1001();
  }

  // ----- what the codes tell apart -----

  lemma {:induction false} SameDigits(x: nat, y: nat, n: nat)
    ensures Digits30(x, n) == Digits30(y, n) <==> x % Pow30(n) == y % Pow30(n)
  {
    if n > 0 {
      SameDigits(x / 30, y / 30, n - 1);
      var p := Pow30(n - 1);
      ModSplit(x, p);
      ModSplit(y, p);
      assert Digits30(x, n)[1..] == Digits30(x / 30, n - 1);
      assert Digits30(y, n)[1..] == Digits30(y / 30, n - 1);
    }
  }

  lemma {:induction false} SameClosedForm(x: nat, y: nat, n: nat)
    ensures ClosedForm(x, n) == ClosedForm(y, n) <==> x % Pow30(n) == y % Pow30(n)
  {
    SameDigits(Spread(x, n), Spread(y, n), n);
    ModShift(x, y, Spread(0, n), Pow30(n));
  }

  lemma Pow30Of9()
    ensures Pow30(CODE_LENGTH) == 19_683_000_000_000
  {
  }

  /** Two PIDs get the same maker code exactly when their mixed words agree modulo 30^9. */
  lemma {:induction false} SameCode(p: u64, q: u64)
    ensures Code(p) == Code(q) <==> Mix(p) % 19_683_000_000_000 == Mix(q) % 19_683_000_000_000
  {
    Pow30Of9();
    SameClosedForm(Mix(p), Mix(q), CODE_LENGTH);
  }

  // ----- who shares a code -----

  /** How many codes there are. */
  const CODES: nat := 19_683_000_000_000

  predicate InAlphabet(c: byte) {
    exists d: nat :: d < 30 && Glyph(d) == c
  }

  predicate Spelled(code: Blob) {
    forall i :: 0 <= i < |code| ==> InAlphabet(code[i])
  }

  lemma {:induction false} DigitsAreSpelled(x: nat, n: nat)
    ensures Spelled(Digits30(x, n))
  {
    if n > 0 {
      DigitsAreSpelled(x / 30, n - 1);
      assert Glyph(x % 30) == Digits30(x, n)[0];
    }
  }

  /** Every string over the alphabet is the digits of a number. */
  lemma {:induction false} DigitsOnto(code: Blob) returns (x: nat)
    requires Spelled(code)
    ensures Digits30(x, |code|) == code
    decreases |code|
  {
    x := 0;
    if code != [] {
      assert InAlphabet(code[0]);
      var d: nat :| d < 30 && Glyph(d) == code[0];
      var rest := DigitsOnto(code[1..]);
      x := d + 30 * rest;
      CarryDigit(d, rest);
      assert Digits30(x, |code|) == [Glyph(d)] + Digits30(rest, |code| - 1);
    }
  }

  /** The remainder that the mixes of all owners of a code leave. */
  lemma ResidueOf(code: Blob) returns (r: nat)
    requires |code| == CODE_LENGTH && Spelled(code)
    ensures r < CODES && forall pid: u64 :: Code(pid) == code <==> Mix(pid) % CODES == r
  {
    Pow30Of9();
    var x := DigitsOnto(code);
    r := Complement(x, Spread(0, CODE_LENGTH), CODES);
    SameDigits(Spread(r, CODE_LENGTH), x, CODE_LENGTH);
    DivUnique(r, CODES, 0, r);
    forall pid: u64
      ensures Code(pid) == code <==> Mix(pid) % CODES == r
    {
      SameClosedForm(Mix(pid), r, CODE_LENGTH);
    }
  }

  /** The k-th word with the remainder `r`. */
  function WordAt(r: nat, k: nat): nat {
    r + k * CODES
  }

  /** The PIDs whose mixes are r, r + 30^9, ..., r + (n - 1) * 30^9. */
  function Owners(r: nat, n: nat): set<u64>
    requires n > 0 ==> WordAt(r, n - 1) < TWO_TO_64
  {
    if n == 0 then {} else Owners(r, n - 1) + {Unmix(WordAt(r, n - 1))}
  }

  lemma {:induction false} OwnersOf(r: nat, n: nat)
    requires n > 0 ==> WordAt(r, n - 1) < TWO_TO_64
    ensures |Owners(r, n)| == n
    ensures forall pid: u64 :: pid in Owners(r, n) <==> exists k: nat :: k < n && Mix(pid) == WordAt(r, k)
  {
    if n > 0 {
      OwnersOf(r, n - 1);
      var word := WordAt(r, n - 1);
      forall pid: u64
        ensures pid == Unmix(word) <==> Mix(pid) == word
      {
        MixIsBijective(pid, word);
      }
      assert Unmix(word) !in Owners(r, n - 1);
    }
  }

  /** How many 64-bit words leave the remainder `r`. */
  function WordCount(r: nat): nat {
    if r < TWO_TO_64 % CODES then TWO_TO_64 / CODES + 1 else TWO_TO_64 / CODES
  }

  lemma WordsOf(r: nat, word: u64)
    requires r < CODES
    ensures word % CODES == r <==> exists k: nat :: k < WordCount(r) && word == WordAt(r, k)
    ensures WordAt(r, WordCount(r) - 1) < TWO_TO_64
  {
    assert TWO_TO_64 / CODES == 937_191 && TWO_TO_64 % CODES == TWO_TO_64 - 937_191 * CODES;
    if word % CODES == r {
      assert word == WordAt(r, word / CODES);
    }
    forall k: nat | word == WordAt(r, k)
      ensures word % CODES == r
    {
      DivUnique(word, CODES, k, r);
    }
  }

  /**
   The codes handed out are all 30^9 strings of nine letters of the alphabet, and none identifies its owner: each is
   the code of 2^64 / 30^9 PIDs, rounded down or up.
   */
  lemma EveryCodeIsShared(code: Blob) returns (owners: set<u64>)
    ensures forall pid: u64 :: pid in owners <==> Code(pid) == code
    ensures |code| == CODE_LENGTH && Spelled(code) <==> owners != {}
    ensures owners != {} ==> TWO_TO_64 / CODES <= |owners| <= TWO_TO_64 / CODES + 1
  {
    if |code| == CODE_LENGTH && Spelled(code) {
      var r := ResidueOf(code);
      WordsOf(r, 0);
      OwnersOf(r, WordCount(r));
      owners := Owners(r, WordCount(r));
      forall pid: u64
        ensures pid in owners <==> Code(pid) == code
      {
        WordsOf(r, Mix(pid));
      }
    } else {
      owners := {};
      forall pid: u64
        ensures Code(pid) != code
      {
        DigitsAreSpelled(Spread(Mix(pid), CODE_LENGTH), CODE_LENGTH);
      }
    }
  }
}
