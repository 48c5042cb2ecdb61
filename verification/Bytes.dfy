/** Bytes, machine-word ranges and the little-endian integer codec that every NEX field is built from. */
module Bytes {

  type byte = b: int | 0 <= b < 0x100
  type u16 = n: int | 0 <= n < 0x1_0000
  type u32 = n: int | 0 <= n < 0x1_0000_0000
  type u64 = n: int | 0 <= n < TWO_TO_64

  const TWO_TO_64: nat := 0x1_0000_0000_0000_0000

  type Blob = seq<byte>

  // characters that separate parts of names, addresses and paths
  const SLASH: byte := '/' as int
  const COLON: byte := ':' as int
  const UNDERSCORE: byte := '_' as int

  datatype Option<+T> = None | Some(value: T)

  function ByteOf(c: char): byte {
    if c < 256 as char then c as int else '?' as int
  }

  /** The bytes of an ASCII literal. */
  function Text(s: string): (b: Blob)
    ensures |b| == |s|
    ensures forall i :: 0 <= i < |s| ==> b[i] == ByteOf(s[i])
  {
    seq(|s|, i requires 0 <= i < |s| => ByteOf(s[i]))
  }

  /** Concatenation of a list of byte strings. */
  function Flatten(parts: seq<Blob>): Blob {
    if parts == [] then [] else parts[0] + Flatten(parts[1..])
  }

  lemma SliceBehind(a: Blob, b: Blob, i: nat, n: nat)
    requires i + n <= |b|
    ensures (a + b)[|a| + i..|a| + i + n] == b[i..i + n]
  {
  }

  /** 256 to the power `width`: how many values `width` bytes can hold. */
  function Pow256(width: nat): (p: nat)
    ensures p >= 1
  {
    if width == 0 then 1 else 256 * Pow256(width - 1)
  }

  lemma Pow256Values()
    ensures Pow256(1) == 0x100 && Pow256(2) == 0x1_0000
    ensures Pow256(4) == 0x1_0000_0000 && Pow256(8) == TWO_TO_64
  {
    assert Pow256(3) == 256 * Pow256(2);
    assert Pow256(4) == 256 * Pow256(3);
    assert Pow256(5) == 256 * Pow256(4);
    assert Pow256(6) == 256 * Pow256(5);
    assert Pow256(7) == 256 * Pow256(6);
  }

  /** The low `width` bytes of `n`, least significant first; higher bytes are cut off, as a Go cast does. */
  function Le(n: nat, width: nat): (b: Blob)
    ensures |b| == width
  {
    if width == 0 then [] else [n % 256] + Le(n / 256, width - 1)
  }

  function UnLe(b: Blob): nat {
    if b == [] then 0 else b[0] + 256 * UnLe(b[1..])
  }

  lemma {:induction false} UnLeBound(b: Blob)
    ensures UnLe(b) < Pow256(|b|)
  {
    if b != [] {
      UnLeBound(b[1..]);
    }
  }

  /** Writing `n` and reading it back gives `n` exactly when `n` fits the field. */
  lemma {:induction false} LeRoundTrip(n: nat, width: nat)
    ensures UnLe(Le(n, width)) == n <==> n < Pow256(width)
  {
    if width > 0 {
      LeRoundTrip(n / 256, width - 1);
      assert Le(n, width)[1..] == Le(n / 256, width - 1);
    }
  }

  /** Dropping bytes one by one is dropping them at once. */
  lemma Quotients(n: nat)
    ensures n / 256 / 256 == n / 0x1_0000 && n / 0x1_0000 / 256 == n / 0x100_0000 && n / 0x100_0000 / 256 == n / 0x1_0000_0000
  {
  }

  lemma FourBytes(n: nat, a: nat, b: nat, c: nat, width: nat)
    requires a == n / 256 && b == a / 256 && c == b / 256 && width >= 4
    ensures Le(n, width) == [n % 256, a % 256, b % 256, c % 256] + Le(c / 256, width - 4)
  {
    assert Le(c, width - 3) == [c % 256] + Le(c / 256, width - 4);
    assert Le(b, width - 2) == [b % 256] + Le(c, width - 3);
    assert Le(a, width - 1) == [a % 256] + Le(b, width - 2);
  }

  /** The bytes of a 16-bit, a 32-bit and a 64-bit word, least significant first. */
  lemma WordLayout(n: nat)
    ensures Le(n, 2) == [n % 256, n / 0x100 % 256]
    ensures Le(n, 4) == [n % 256, n / 0x100 % 256, n / 0x1_0000 % 256, n / 0x100_0000 % 256]
    ensures Le(n, 8) == Le(n, 4) + Le(n / 0x1_0000_0000, 4)
  {
    TwoByteLayout(n);
    FourByteLayout(n);
    EightByteLayout(n);
  }

  lemma TwoByteLayout(n: nat)
    ensures Le(n, 2) == [n % 256, n / 0x100 % 256]
  {
    var a := n / 0x100;
    assert Le(a, 1) == [a % 256] + Le(a / 256, 0);
  }

  lemma FourByteLayout(n: nat)
    ensures Le(n, 4) == [n % 256, n / 0x100 % 256, n / 0x1_0000 % 256, n / 0x100_0000 % 256]
  {
    var a, b, c := n / 0x100, n / 0x1_0000, n / 0x100_0000;
    Quotients(n);
    FourBytes(n, a, b, c, 4);
    assert Le(c / 256, 0) == [];
  }

  lemma EightByteLayout(n: nat)
    ensures Le(n, 8) == Le(n, 4) + Le(n / 0x1_0000_0000, 4)
  {
    var a, b, c := n / 0x100, n / 0x1_0000, n / 0x100_0000;
    Quotients(n);
    FourBytes(n, a, b, c, 4);
    FourBytes(n, a, b, c, 8);
    assert Le(c / 256, 0) == [];
  }
}
