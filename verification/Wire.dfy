/**
 The NEX stream primitives the profile and storage handlers use. The library that implements them is
 not part of the repository, so their layout is fixed here once: little-endian integers; a PID is a u64;
 a Buffer is a u32 length and the bytes, a QBuffer a u16 length and the bytes; a String is a u16 length,
 the bytes and a NUL, and the length counts the NUL. A read that runs past the end yields the zero value
 and leaves the stream empty.
 */
module Wire {
  import opened Bytes

  // ----- what a reader sees on the bytes that are left: the value and the bytes after it -----

  function ReadInt(s: Blob, width: nat): (nat, Blob) {
    if |s| < width then (0, []) else (UnLe(s[..width]), s[width..])
  }

  function ReadString(s: Blob): (Blob, Blob) {
    var (n, r) := ReadInt(s, 2);
    if |s| < 2 || |r| < n then ([], [])
    else if n == 0 then ([], r)
    else (r[..n - 1], r[n..])
  }

  function ReadBuffer(s: Blob): (Blob, Blob) {
    var (n, r) := ReadInt(s, 4);
    if |s| < 4 || |r| < n then ([], []) else (r[..n], r[n..])
  }

  /** A QBuffer is a u16 length and the bytes. */
  function ReadQBuffer(s: Blob): (Blob, Blob) {
    var (n, r) := ReadInt(s, 2);
    if |s| < 2 || |r| < n then ([], []) else (r[..n], r[n..])
  }

  predicate HasString(s: Blob) {
    |s| >= 2 && |s| - 2 >= UnLe(s[..2])
  }

  predicate HasBuffer(s: Blob) {
    |s| >= 4 && |s| - 4 >= UnLe(s[..4])
  }

  // ----- what a writer appends -----

  function PutString(v: Blob): Blob {
    Le(|v| + 1, 2) + v + [0]
  }

  function PutBuffer(v: Blob): Blob {
    Le(|v|, 4) + v
  }

  function PutQBuffer(v: Blob): Blob {
    Le(|v|, 2) + v
  }

  const MAX_STRING: nat := 0xFFFE

  lemma ReadIntBound(s: Blob, width: nat)
    ensures ReadInt(s, width).0 < Pow256(width)
  {
    if |s| >= width {
      UnLeBound(s[..width]);
    }
  }

  lemma IntRoundTrip(n: nat, width: nat, rest: Blob)
    requires n < Pow256(width)
    ensures ReadInt(Le(n, width) + rest, width) == (n, rest)
  {
    LeRoundTrip(n, width);
    var s := Le(n, width) + rest;
    assert s[..width] == Le(n, width) && s[width..] == rest;
  }

  /** A string comes back unchanged exactly when it and its NUL fit the u16 length. */
  lemma StringRoundTrip(v: Blob, rest: Blob)
    ensures ReadString(PutString(v) + rest) == (v, rest) <==> |v| <= MAX_STRING
    ensures |v| <= MAX_STRING ==> HasString(PutString(v) + rest)
  {
    Pow256Values();
    var s := PutString(v) + rest;
    assert s == Le(|v| + 1, 2) + (v + [0] + rest);
    if |v| <= MAX_STRING {
      IntRoundTrip(|v| + 1, 2, v + [0] + rest);
      assert s[..2] == Le(|v| + 1, 2);
      LeRoundTrip(|v| + 1, 2);
      assert (v + [0] + rest)[..|v|] == v && (v + [0] + rest)[|v| + 1..] == rest;
    } else {
      UnLeBound(s[..2]);
    }
  }

  /** The cursor stands right behind a printed string exactly when the string fits; otherwise it stops short. */
  lemma StringTail(v: Blob, rest: Blob)
    ensures ReadString(PutString(v) + rest).1 == rest <==> |v| <= MAX_STRING
  {
    StringRoundTrip(v, rest);
    if |v| > MAX_STRING {
      Pow256Values();
      var s, n := PutString(v) + rest, UnLe(Le(|v| + 1, 2));
      UnLeBound(Le(|v| + 1, 2));
      assert s == Le(|v| + 1, 2) + (v + [0] + rest);
      assert s[..2] == Le(|v| + 1, 2) && s[2..] == v + [0] + rest;
      assert |ReadString(s).1| == |v| + 1 + |rest| - n;
    }
  }

  /** A buffer comes back unchanged when its length fits the u32 header. */
  lemma BufferRoundTrip(v: Blob, rest: Blob)
    requires |v| < 0x1_0000_0000
    ensures ReadBuffer(PutBuffer(v) + rest) == (v, rest)
    ensures HasBuffer(PutBuffer(v) + rest)
  {
    Pow256Values();
    var s := PutBuffer(v) + rest;
    assert s == Le(|v|, 4) + (v + rest);
    IntRoundTrip(|v|, 4, v + rest);
    LeRoundTrip(|v|, 4);
    assert s[..4] == Le(|v|, 4);
    assert (v + rest)[..|v|] == v && (v + rest)[|v|..] == rest;
  }

  lemma QBufferRoundTrip(v: Blob, rest: Blob)
    requires |v| < 0x1_0000
    ensures ReadQBuffer(PutQBuffer(v) + rest) == (v, rest)
  {
    Pow256Values();
    assert PutQBuffer(v) + rest == Le(|v|, 2) + (v + rest);
    IntRoundTrip(|v|, 2, v + rest);
    assert (v + rest)[..|v|] == v && (v + rest)[|v|..] == rest;
  }

  /** A string is its length with the NUL, the bytes and the NUL; the two buffers are a length and the bytes. */
  lemma TextLayout(v: Blob)
    ensures PutString(v) == [(|v| + 1) % 256, (|v| + 1) / 256 % 256] + v + [0]
    ensures PutQBuffer(v) == [|v| % 256, |v| / 256 % 256] + v
    ensures PutBuffer(v) == [|v| % 256, |v| / 0x100 % 256, |v| / 0x1_0000 % 256, |v| / 0x100_0000 % 256] + v
  {
    WordLayout(|v|);
    WordLayout(|v| + 1);
  }

  /** The reading cursor of the library: `pos` moves over `data`. */
  class StreamIn {
    const data: Blob
    var pos: nat

    ghost predicate Valid()
      reads this
    {
      pos <= |data|
    }

    /** The bytes not read yet. */
    function Rest(): Blob
      requires Valid()
      reads this
    {
      data[pos..]
    }

    constructor (bytes: Blob)
      ensures Valid() && Rest() == bytes
    {
      data, pos := bytes, 0;
    }

    method ReadWord(width: nat) returns (n: nat)
      requires Valid()
      modifies this`pos
      ensures Valid()
      ensures (n, Rest()) == ReadInt(old(Rest()), width)
      ensures n < Pow256(width)
    {
      if |data| - pos < width {
        n, pos := 0, |data|;
        assert Rest() == [];
      } else {
        UnLeBound(data[pos..pos + width]);
        assert data[pos..][..width] == data[pos..pos + width];
        assert data[pos..][width..] == data[pos + width..];
        n, pos := UnLe(data[pos..pos + width]), pos + width;
      }
    }

    method ReadText() returns (v: Blob)
      requires Valid()
      modifies this`pos
      ensures Valid()
      ensures (v, Rest()) == ReadString(old(Rest()))
    {
      var short := |data| - pos < 2;
      var n := ReadWord(2);
      if short || |data| - pos < n {
        v, pos := [], |data|;
        assert Rest() == [];
      } else {
        ghost var r := Rest();
        v := if n == 0 then [] else data[pos..pos + n - 1];
        assert n > 0 ==> r[..n - 1] == data[pos..pos + n - 1];
        assert r[n..] == data[pos + n..];
        pos := pos + n;
      }
    }

    /** Reads a u32 length and that many bytes: the body of a nested structure. */
    method ReadSub() returns (v: Blob)
      requires Valid()
      modifies this`pos
      ensures Valid()
      ensures (v, Rest()) == ReadBuffer(old(Rest()))
    {
      var short := |data| - pos < 4;
      var n := ReadWord(4);
      if short || |data| - pos < n {
        v, pos := [], |data|;
        assert Rest() == [];
      } else {
        ghost var r := Rest();
        v := data[pos..pos + n];
        assert r[..n] == v && r[n..] == data[pos + n..];
        pos := pos + n;
      }
    }

    method ReadShortBlock() returns (v: Blob)
      requires Valid()
      modifies this`pos
      ensures Valid()
      ensures (v, Rest()) == ReadQBuffer(old(Rest()))
    {
      var short := |data| - pos < 2;
      var n := ReadWord(2);
      if short || |data| - pos < n {
        v, pos := [], |data|;
        assert Rest() == [];
      } else {
        ghost var r := Rest();
        v := data[pos..pos + n];
        assert r[..n] == v && r[n..] == data[pos + n..];
        pos := pos + n;
      }
    }

    method ReadAll() returns (v: Blob)
      requires Valid()
      modifies this`pos
      ensures Valid() && Rest() == [] && v == old(Rest())
    {
      v, pos := data[pos..], |data|;
    }
  }

  /** The output buffer of the library. */
  class StreamOut {
    var buf: Blob

    constructor ()
      ensures buf == []
    {
      buf := [];
    }

    method Word(n: nat, width: nat)
      modifies this`buf
      ensures buf == old(buf) + Le(n, width)
    {
      buf := buf + Le(n, width);
    }

    method String(v: Blob)
      modifies this`buf
      ensures buf == old(buf) + PutString(v)
    {
      buf := buf + PutString(v);
    }

    method Buffer(v: Blob)
      modifies this`buf
      ensures buf == old(buf) + PutBuffer(v)
    {
      buf := buf + PutBuffer(v);
    }

    method Write(v: Blob)
      modifies this`buf
      ensures buf == old(buf) + v
    {
      buf := buf + v;
    }
  }
}
