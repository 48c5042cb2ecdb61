/** Unpadded base64url (section 5 of RFC 4648) as Go's RawURLEncoding prints and parses it. */
module Base64Url {
  import opened Bytes

  function Sextet(i: nat): (c: byte)
    requires i < 64
  {
    if i < 26 then 65 + i        // A-Z
    else if i < 52 then 71 + i   // a-z
    else if i < 62 then i - 4    // 0-9
    else if i == 62 then '-' as int
    else '_' as int
  }

  predicate InAlphabet(c: byte) {
    65 <= c <= 90 || 97 <= c <= 122 || 48 <= c <= 57 || c == '-' as int || c == '_' as int
  }

  function Index(c: byte): (i: nat)
    requires InAlphabet(c)
    ensures i < 64
  {
    if 65 <= c <= 90 then c - 65
    else if 97 <= c <= 122 then c - 71
    else if 48 <= c <= 57 then c + 4
    else if c == '-' as int then 62
    else 63
  }

  lemma SextetRoundTrip(i: nat)
    requires i < 64
    ensures InAlphabet(Sextet(i)) && Index(Sextet(i)) == i
  {
  }

  /** The alphabet is what the 64 sextets are printed as, and nothing else. */
  lemma AlphabetIff(c: byte)
    ensures InAlphabet(c) <==> exists i: nat :: i < 64 && Sextet(i) == c
  {
    if InAlphabet(c) {
      assert Sextet(Index(c)) == c;
    }
  }

  predicate AllInAlphabet(s: Blob) {
    forall i :: 0 <= i < |s| ==> InAlphabet(s[i])
  }

  /** Three bytes as four characters. */
  function Letters(a: byte, b: byte, c: byte): (q: Blob)
    ensures |q| == 4
  {
    [Sextet(a / 4), Sextet(a % 4 * 16 + b / 16), Sextet(b % 16 * 4 + c / 64), Sextet(c % 64)]
  }

  function Encode(b: Blob): Blob {
    if |b| == 0 then []
    else if |b| == 1 then Letters(b[0], 0, 0)[..2]
    else if |b| == 2 then Letters(b[0], b[1], 0)[..3]
    else Letters(b[0], b[1], b[2]) + Encode(b[3..])
  }

  const ZERO: byte := 'A' as int

  /** Four characters as three bytes. */
  function Octets(w: byte, x: byte, y: byte, z: byte): (b: Blob)
    requires InAlphabet(w) && InAlphabet(x) && InAlphabet(y) && InAlphabet(z)
    ensures |b| == 3
  {
    [Index(w) * 4 + Index(x) / 16, Index(x) % 16 * 16 + Index(y) / 4, Index(y) % 4 * 64 + Index(z)]
  }

  /** The bytes of a text over the alphabet; None when a single character is left over. Spare low bits are ignored. */
  function DecodeQuanta(s: Blob): Option<Blob>
    requires AllInAlphabet(s)
  {
    if |s| == 0 then Some([])
    else if |s| == 1 then None
    else if |s| == 2 then Some(Octets(s[0], s[1], ZERO, ZERO)[..1])
    else if |s| == 3 then Some(Octets(s[0], s[1], s[2], ZERO)[..2])
    else
      match DecodeQuanta(s[4..])
      case None => None
      case Some(rest) => Some(Octets(s[0], s[1], s[2], s[3]) + rest)
  }

  /** Line breaks are skipped wherever they stand. */
  function WithoutLineBreaks(s: Blob): Blob {
    if s == [] then []
    else if s[0] == 10 || s[0] == 13 then WithoutLineBreaks(s[1..])
    else [s[0]] + WithoutLineBreaks(s[1..])
  }

  function Decode(s: Blob): Option<Blob> {
    var t := WithoutLineBreaks(s);
    if AllInAlphabet(t) then DecodeQuanta(t) else None
  }

  lemma {:induction false} LettersRoundTrip(a: byte, b: byte, c: byte)
    ensures AllInAlphabet(Letters(a, b, c))
    ensures var q := Letters(a, b, c); Octets(q[0], q[1], q[2], q[3]) == [a, b, c]
  {
    var s1, s2 := a % 4 * 16 + b / 16, b % 16 * 4 + c / 64;
    assert s1 / 16 == a % 4 && s1 % 16 == b / 16;
    assert s2 / 4 == b % 16 && s2 % 4 == c / 64;
    assert a / 4 * 4 + a % 4 == a && b / 16 * 16 + b % 16 == b && c / 64 * 64 + c % 64 == c;
    SextetRoundTrip(a / 4);
    SextetRoundTrip(s1);
    SextetRoundTrip(s2);
    SextetRoundTrip(c % 64);
    var q := Letters(a, b, c);
    var o := Octets(q[0], q[1], q[2], q[3]);
    assert o[0] == a;
    assert o[1] == b;
    assert o[2] == c;
  }

  /** The first byte only needs two characters, the first two bytes only three. */
  lemma FirstOctets(q: Blob, y: byte, z: byte)
    requires |q| == 4 && AllInAlphabet(q) && InAlphabet(y) && InAlphabet(z)
    ensures Octets(q[0], q[1], y, z)[..1] == Octets(q[0], q[1], q[2], q[3])[..1]
    ensures Octets(q[0], q[1], q[2], z)[..2] == Octets(q[0], q[1], q[2], q[3])[..2]
  {
  }

  lemma ShortRoundTrip(a: byte, b: byte)
    ensures AllInAlphabet(Encode([a])) && DecodeQuanta(Encode([a])) == Some([a])
    ensures AllInAlphabet(Encode([a, b])) && DecodeQuanta(Encode([a, b])) == Some([a, b])
  {
    LettersRoundTrip(a, 0, 0);
    LettersRoundTrip(a, b, 0);
    FirstOctets(Letters(a, 0, 0), ZERO, ZERO);
    FirstOctets(Letters(a, b, 0), ZERO, ZERO);
    assert [a, 0, 0][..1] == [a] && [a, b, 0][..2] == [a, b];
  }

  lemma {:induction false} QuantaRoundTrip(b: Blob)
    ensures AllInAlphabet(Encode(b)) && DecodeQuanta(Encode(b)) == Some(b)
    decreases |b|
  {
    if |b| == 0 {
    } else if |b| == 1 {
      ShortRoundTrip(b[0], 0);
      assert b == [b[0]];
    } else if |b| == 2 {
      ShortRoundTrip(b[0], b[1]);
      assert b == [b[0], b[1]];
    } else {
      LettersRoundTrip(b[0], b[1], b[2]);
      QuantaRoundTrip(b[3..]);
      assert Encode(b)[4..] == Encode(b[3..]);
      assert b == [b[0], b[1], b[2]] + b[3..];
    }
  }

  lemma {:induction false} NoLineBreaks(s: Blob)
    requires AllInAlphabet(s)
    ensures WithoutLineBreaks(s) == s
  {
    if s != [] {
      NoLineBreaks(s[1..]);
      assert s == [s[0]] + s[1..];
    }
  }

  /** A line break in a text does not change what it decodes to. */
  lemma {:induction false} LineBreaksAreIgnored(a: Blob, b: Blob)
    ensures Decode(a + [10] + b) == Decode(a + [13] + b) == Decode(a + b)
  {
    BreakDropped(a, 10, b);
    BreakDropped(a, 13, b);
  }

  lemma {:induction false} BreakDropped(a: Blob, c: byte, b: Blob)
    requires c == 10 || c == 13
    ensures WithoutLineBreaks(a + [c] + b) == WithoutLineBreaks(a + b)
    decreases |a|
  {
    if a == [] {
      assert ([] + [c] + b)[1..] == b && [] + b == b;
    } else {
      assert (a + [c] + b)[1..] == a[1..] + [c] + b && (a + b)[1..] == a[1..] + b;
      BreakDropped(a[1..], c, b);
    }
  }

  /** Every byte string survives the trip, through text over the 64-character alphabet only. */
  lemma {:induction false} RoundTrip(b: Blob)
    ensures Decode(Encode(b)) == Some(b) && AllInAlphabet(Encode(b))
  {
    QuantaRoundTrip(b);
    NoLineBreaks(Encode(b));
  }

  /** The alphabet of section 5 of RFC 4648, letter by letter. */
  lemma SextetsSpellTheAlphabet(i: nat)
    requires i < 64
    ensures i < 26 ==> Sextet(i) == ByteOf("ABCDEFGHIJKLMNOPQRSTUVWXYZ"[i])
    ensures 26 <= i < 52 ==> Sextet(i) == ByteOf("abcdefghijklmnopqrstuvwxyz"[i - 26])
    ensures 52 <= i < 62 ==> Sextet(i) == ByteOf("0123456789"[i - 52])
    ensures Sextet(62) == ByteOf('-') && Sextet(63) == ByteOf('_')
  {
    LowerLetters(if 26 <= i < 52 then i - 26 else 0);
  }

  lemma LowerLetters(i: nat)
    requires i < 26
    ensures ByteOf("ABCDEFGHIJKLMNOPQRSTUVWXYZ"[i]) == 65 + i && ByteOf("abcdefghijklmnopqrstuvwxyz"[i]) == 97 + i
  {
    var upper, lower := "ABCDEFGHIJKLMNOPQRSTUVWXYZ", "abcdefghijklmnopqrstuvwxyz";
    assert upper[i] as int == 65 + i;
    assert lower[i] as int == 97 + i;
  }

  /** Four characters carry the 24 bits of three bytes in order, first byte in front. */
  lemma LettersCarryBits(a: byte, b: byte, c: byte)
    ensures var q := Letters(a, b, c);
      AllInAlphabet(q) &&
      ((Index(q[0]) * 64 + Index(q[1])) * 64 + Index(q[2])) * 64 + Index(q[3]) == (a * 256 + b) * 256 + c
  {
    SextetRoundTrip(a / 4);
    SextetRoundTrip(a % 4 * 16 + b / 16);
    SextetRoundTrip(b % 16 * 4 + c / 64);
    SextetRoundTrip(c % 64);
  }

  /** The short endings of section 10 of RFC 4648: two characters for one byte left, three for two, and no padding. */
  lemma TestVectors()
    ensures Encode(Text("f")) == Text("Zg") && Encode(Text("fo")) == Text("Zm8") && Encode(Text("foo")) == Text("Zm9v")
    ensures Encode(Text("foobar")) == Text("Zm9v") + Text("YmFy")
  {
    var foobar := Text("foobar");
    assert foobar[3..] == Text("bar");
    assert Text("bar")[3..] == [];
    assert Encode(Text("bar")) == Text("YmFy");
    assert Encode(Text("foo")) == Text("Zm9v") + Encode(Text("foo")[3..]);
  }

  /** What decodes: text over the alphabet, line breaks aside, that does not leave a single character over. */
  lemma DecodesIff(s: Blob)
    ensures Decode(s).Some? <==> AllInAlphabet(WithoutLineBreaks(s)) && |WithoutLineBreaks(s)| % 4 != 1
  {
    if AllInAlphabet(WithoutLineBreaks(s)) {
      QuantaIff(WithoutLineBreaks(s));
    }
  }

  lemma QuantaStep(s: Blob)
    requires AllInAlphabet(s) && |s| >= 4
    ensures DecodeQuanta(s).Some? <==> DecodeQuanta(s[4..]).Some?
  {
  }

  lemma FourMore(n: nat)
    ensures (n + 4) % 4 == n % 4
  {
  }

  lemma {:induction false} QuantaIff(s: Blob)
    requires AllInAlphabet(s)
    ensures DecodeQuanta(s).Some? <==> |s| % 4 != 1
    decreases |s|
  {
    if |s| >= 4 {
      QuantaIff(s[4..]);
      QuantaStep(s);
      FourMore(|s[4..]|);
    } else {
      assert |s| % 4 == |s|;
    }
  }
}
