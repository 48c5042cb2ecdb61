/**
 The blob endpoint: bounded reading of an upload, PUT and GET of course blobs, and the file names uploads
 are stored under.
 */
module ObjectStore {
  import opened Bytes
  import opened Catalogue
  import opened Decimal

  const UPLOAD_CAP: nat := 0x400_0000 // 64 MiB

  /** One read of a request body: the bytes it delivered, and whether it reported an end or a failure. */
  datatype Read = Read(data: Blob, last: bool)

  /** Everything the body delivers up to its end. */
  function Stream(chunks: seq<Read>): Blob {
    if chunks == [] then [] else chunks[0].data + if chunks[0].last then [] else Stream(chunks[1..])
  }

  /** What is kept of `chunks` after `got`: reading stops before the first read that would exceed the cap. */
  function Kept(got: Blob, chunks: seq<Read>, cap: nat): Blob
    decreases |chunks|
  {
    if chunks == [] || |got| + |chunks[0].data| > cap then got
    else if chunks[0].last then got + chunks[0].data
    else Kept(got + chunks[0].data, chunks[1..], cap)
  }

  /** Some read would exceed the cap. */
  predicate Overflows(got: Blob, chunks: seq<Read>, cap: nat)
    decreases |chunks|
  {
    chunks != [] && (|got| + |chunks[0].data| > cap
                     || (!chunks[0].last && Overflows(got + chunks[0].data, chunks[1..], cap)))
  }

  /** At most the cap, a prefix of the stream, and the whole stream exactly when it fits. */
  lemma {:induction false} KeptIsPrefix(got: Blob, chunks: seq<Read>, cap: nat)
    requires |got| <= cap
    ensures |Kept(got, chunks, cap)| <= cap
    ensures Kept(got, chunks, cap) <= got + Stream(chunks)
    ensures Kept(got, chunks, cap) == got + Stream(chunks) <==> |got + Stream(chunks)| <= cap
    ensures Overflows(got, chunks, cap) <==> |got + Stream(chunks)| > cap
    decreases |chunks|
  {
    if chunks != [] {
      var data := chunks[0].data;
      if |got| + |data| <= cap && !chunks[0].last {
        KeptIsPrefix(got + data, chunks[1..], cap);
        assert got + Stream(chunks) == got + data + Stream(chunks[1..]);
      } else {
        assert got <= got + Stream(chunks);
      }
    }
  }

  /** What is kept are whole reads from the first on: all of them, or those before the first that would exceed the cap. */
  lemma {:induction false} KeptWholeReads(got: Blob, chunks: seq<Read>, cap: nat) returns (n: nat)
    requires |got| <= cap
    ensures n <= |chunks| && Kept(got, chunks, cap) == got + Flatten(seq(n, i requires 0 <= i < n => chunks[i].data))
    ensures Overflows(got, chunks, cap) ==> n < |chunks| && |Kept(got, chunks, cap)| + |chunks[n].data| > cap
    decreases |chunks|
  {
    n := 0;
    assert got + [] == got;
    if chunks != [] && |got| + |chunks[0].data| <= cap {
      var data, m := chunks[0].data, 0;
      if chunks[0].last {
        assert got + data == Kept(got, chunks, cap);
      } else {
        m := KeptWholeReads(got + data, chunks[1..], cap);
      }
      n := m + 1;
      var parts := seq(n, i requires 0 <= i < n => chunks[i].data);
      assert parts[1..] == seq(m, i requires 0 <= i < m => chunks[1..][i].data);
      assert Flatten(parts) == data + Flatten(parts[1..]);
      assert got + data + Flatten(parts[1..]) == got + Flatten(parts);
    }
  }

  /** The body is what its reads deliver, one behind the other, up to the first that reports the end. */
  lemma {:induction false} StreamOfReads(chunks: seq<Read>, ignored: seq<Read>)
    requires chunks != [] && chunks[|chunks| - 1].last && forall i :: 0 <= i < |chunks| - 1 ==> !chunks[i].last
    ensures Stream(chunks + ignored) == Flatten(seq(|chunks|, i requires 0 <= i < |chunks| => chunks[i].data))
    decreases |chunks|
  {
    var parts := seq(|chunks|, i requires 0 <= i < |chunks| => chunks[i].data);
    assert (chunks + ignored)[0] == chunks[0];
    if |chunks| == 1 {
      assert parts[1..] == [];
      assert Flatten(parts) == chunks[0].data + [];
    } else {
      var rest := chunks[1..];
      assert (chunks + ignored)[1..] == rest + ignored;
      assert parts[1..] == seq(|rest|, i requires 0 <= i < |rest| => rest[i].data);
      StreamOfReads(rest, ignored);
    }
  }

  method ReadAllLimited(chunks: seq<Read>, cap: nat) returns (buf: Blob, tooLarge: bool)
    ensures buf == Kept([], chunks, cap)
    ensures |buf| <= cap && buf <= Stream(chunks)
    ensures tooLarge <==> |Stream(chunks)| > cap
    ensures !tooLarge ==> buf == Stream(chunks)
  {
    KeptIsPrefix([], chunks, cap);
    assert [] + Stream(chunks) == Stream(chunks);
    buf, tooLarge := ReadLoop(chunks, cap);
  }

  /** The reading loop of the source. */
  method ReadLoop(chunks: seq<Read>, cap: nat) returns (buf: Blob, tooLarge: bool)
    ensures buf == Kept([], chunks, cap) && tooLarge == Overflows([], chunks, cap)
  {
    buf := [];
    var total := 0;
    for i := 0 to |chunks|
      invariant total == |buf| <= cap
      invariant Kept(buf, chunks[i..], cap) == Kept([], chunks, cap)
      invariant Overflows(buf, chunks[i..], cap) == Overflows([], chunks, cap)
    {
      var r := chunks[i];
      assert chunks[i..][0] == r && chunks[i..][1..] == chunks[i + 1..];
      assert |r.data| == 0 ==> buf + r.data == buf;
      if |r.data| > 0 {
        total := total + |r.data|;
        if total > cap {
          return buf, true;
        }
        buf := buf + r.data;
      }
      if r.last {
        return buf, false;
      }
    }
    tooLarge := false;
  }

  // ----- PUT and GET -----

  /** `blob` is the body delivered by `chunks`, or a beginning of one that is over 64 MiB. */
  predicate Holds(chunks: seq<Read>, blob: Blob) {
    && |blob| <= 67_108_864 && blob <= Stream(chunks)
    && (|Stream(chunks)| <= 67_108_864 ==> blob == Stream(chunks))
  }

  function Uploaded(chunks: seq<Read>): (body: Blob)
    ensures Holds(chunks, body)
  {
    KeptIsPrefix([], chunks, UPLOAD_CAP);
    assert [] + Stream(chunks) == Stream(chunks);
    Kept([], chunks, UPLOAD_CAP)
  }

  /** The length survives the cast to 32 bits, so the catalogue records the stored length exactly. */
  method Put(store: CourseStore, id: u64, chunks: seq<Read>)
    modifies store, store.disk
    ensures id in store.disk.blobs && Holds(chunks, store.disk.blobs[id])
    ensures store.Memory() == Resized(old(store.Memory()), id, |store.disk.blobs[id]|)
    ensures store.disk.blobs == old(store.disk.blobs)[id := Uploaded(chunks)]
    ensures store.Memory() == Resized(old(store.Memory()), id, |Uploaded(chunks)|)
    ensures id in old(store.byID) ==>
      store.disk.temp == None && store.disk.catalogue.Some? && IsSaved(store.Memory(), store.disk.catalogue.value)
  {
    var body, _ := ReadAllLimited(chunks, UPLOAD_CAP);
    store.disk.blobs := store.disk.blobs[id := body];
    store.SetSize(id, |body| % 0x1_0000_0000);
  }

  // ----- file names -----

  const BACKSLASH: byte := '\\' as int
  const QUESTION: byte := '?' as int

  predicate Separator(b: byte) {
    b == SLASH || b == COLON || b == BACKSLASH || b == QUESTION
  }

  /** The replacer of the source: separators and double dots become underscores, scanning from the left. */
  function Replaced(key: Blob): Blob {
    if key == [] then []
    else if Separator(key[0]) then [UNDERSCORE] + Replaced(key[1..])
    else if |key| >= 2 && key[0] == DOT && key[1] == DOT then [UNDERSCORE] + Replaced(key[2..])
    else [key[0]] + Replaced(key[1..])
  }

  function SanitizeKey(key: Blob): Blob {
    if key == [] then [] else Text("obj_") + Replaced(key)
  }

  function BlobName(id: u64): Blob {
    PrintUint(id) + Text(".bin")
  }

  predicate NoDoubleDot(s: Blob) {
    forall i :: 0 <= i < |s| - 1 ==> s[i] != DOT || s[i + 1] != DOT
  }

  predicate NoSeparator(s: Blob) {
    forall i :: 0 <= i < |s| ==> !Separator(s[i])
  }

  lemma FlatCons(c: byte, s: Blob)
    requires NoSeparator(s) && NoDoubleDot(s) && !Separator(c)
    requires c == DOT && s != [] ==> s[0] != DOT
    ensures NoSeparator([c] + s) && NoDoubleDot([c] + s)
  {
    var t := [c] + s;
    assert forall i :: 0 < i < |t| ==> t[i] == s[i - 1];
  }

  lemma FlatJoin(a: Blob, b: Blob)
    requires NoSeparator(a) && NoDoubleDot(a) && NoSeparator(b) && NoDoubleDot(b)
    requires a != [] && a[|a| - 1] != DOT
    ensures NoSeparator(a + b) && NoDoubleDot(a + b)
  {
    var t := a + b;
    forall i | 0 <= i < |t|
      ensures t[i] == if i < |a| then a[i] else b[i - |a|]
    {
    }
  }

  lemma {:induction false} ReplacedIsFlat(key: Blob)
    ensures NoSeparator(Replaced(key)) && NoDoubleDot(Replaced(key))
    ensures Replaced(key) != [] && Replaced(key)[0] == DOT ==> key[0] == DOT
    decreases |key|
  {
    if key != [] {
      var double := !Separator(key[0]) && |key| >= 2 && key[0] == DOT && key[1] == DOT;
      var rest := if double then key[2..] else key[1..];
      ReplacedIsFlat(rest);
      FlatCons(if double || Separator(key[0]) then UNDERSCORE else key[0], Replaced(rest));
    }
  }

  /** An upload key never leaves the directory, and its file is never a course blob or the catalogue. */
  lemma UploadFileIsContained(key: Blob, id: u64)
    ensures forall i :: 0 <= i < |SanitizeKey(key)| ==> SanitizeKey(key)[i] !in {SLASH, COLON, BACKSLASH, QUESTION}
    ensures NoDoubleDot(SanitizeKey(key))
    ensures key != [] ==>
      SanitizeKey(key) !in {BlobName(id), Text("catalog.json"), Text("catalog.json.tmp")}
  {
    if key != [] {
      ReplacedIsFlat(key);
      var prefix := "obj_";
      assert Text(prefix) == [111, 98, 106, 95];
      FlatJoin(Text(prefix), Replaced(key));
      var catalogue, temporary := "catalog.json", "catalog.json.tmp";
      assert SanitizeKey(key)[0] == 111 && BlobName(id)[0] == PrintUint(id)[0];
      assert Text(catalogue)[0] == 99 && Text(temporary)[0] == 99;
    }
  }

  // ----- which keys share a file -----

  /** How many characters the replacer takes in one step: two for a double dot. */
  function UnitLength(key: Blob): nat
    requires key != []
    ensures 1 <= UnitLength(key) <= |key|
  {
    if |key| >= 2 && key[0] == DOT && key[1] == DOT then 2 else 1
  }

  /** The key in the steps of the replacer. */
  function Units(key: Blob): seq<Blob>
    decreases |key|
  {
    if key == [] then [] else [key[..UnitLength(key)]] + Units(key[UnitLength(key)..])
  }

  /** An underscore in the file name. */
  predicate Blank(unit: Blob) {
    unit == [UNDERSCORE] || unit == [DOT, DOT] || (|unit| == 1 && Separator(unit[0]))
  }

  predicate Alike(a: seq<Blob>, b: seq<Blob>) {
    |a| == |b| && forall i :: 0 <= i < |a| ==> a[i] == b[i] || (Blank(a[i]) && Blank(b[i]))
  }

  lemma {:induction false} ReplacedByUnits(key: Blob, i: nat)
    ensures |Replaced(key)| == |Units(key)|
    ensures i < |Units(key)| ==> var unit := Units(key)[i];
      if Blank(unit) then Replaced(key)[i] == UNDERSCORE else unit == [Replaced(key)[i]] && Replaced(key)[i] != UNDERSCORE
    decreases |key|
  {
    if key != [] {
      ReplacedByUnits(key[UnitLength(key)..], if i == 0 then 0 else i - 1);
    }
  }

  /** Two keys share a file exactly when they differ only where both have an underscore, a separator or a double dot. */
  lemma ShareFileIff(a: Blob, b: Blob)
    requires a != [] && b != []
    ensures SanitizeKey(a) == SanitizeKey(b) <==> Alike(Units(a), Units(b))
  {
    var prefix, x, y := Text("obj_"), Replaced(a), Replaced(b);
    assert (prefix + x)[4..] == x && (prefix + y)[4..] == y;
    ReplacedByUnits(a, 0);
    ReplacedByUnits(b, 0);
    if x == y {
      forall i | 0 <= i < |Units(a)|
        ensures Units(a)[i] == Units(b)[i] || (Blank(Units(a)[i]) && Blank(Units(b)[i]))
      {
        ReplacedByUnits(a, i);
        ReplacedByUnits(b, i);
      }
    } else if Alike(Units(a), Units(b)) {
      forall i | 0 <= i < |x|
        ensures x[i] == y[i]
      {
        ReplacedByUnits(a, i);
        ReplacedByUnits(b, i);
      }
    }
  }

  /** A single character becomes an underscore when it is one of four, and is kept otherwise; so does a double dot; no key has no name. */
  lemma CharacterName(c: byte)
    ensures SanitizeKey([c]) == Text("obj_")
      + [if c == '/' as int || c == ':' as int || c == '\\' as int || c == '?' as int then '_' as int else c]
    ensures SanitizeKey(['.' as int, '.' as int]) == Text("obj_") + ['_' as int] && SanitizeKey([]) == []
  {
    assert [DOT, DOT][2..] == [];
    assert Replaced([DOT, DOT]) == [UNDERSCORE] + Replaced([]);
    assert [c][1..] == [];
    assert Replaced([c]) == (if Separator(c) then [UNDERSCORE] else [c]) + Replaced([]);
  }

  function UnitName(unit: Blob): Blob {
    if Blank(unit) then [UNDERSCORE] else unit
  }

  lemma ReplacedStep(key: Blob)
    requires key != []
    ensures Replaced(key) == UnitName(key[..UnitLength(key)]) + Replaced(key[UnitLength(key)..])
  {
    assert key[..1] == [key[0]];
  }

  /** No double dot reaches from one part into the other. */
  predicate PartsStay(a: Blob, b: Blob) {
    a == [] || b == [] || a[|a| - 1] != DOT || b[0] != DOT
  }

  lemma FirstUnitStays(a: Blob, b: Blob)
    requires a != [] && PartsStay(a, b)
    ensures var k := UnitLength(a);
      UnitLength(a + b) == k && (a + b)[..k] == a[..k] && (a + b)[k..] == a[k..] + b && PartsStay(a[k..], b)
  {
  }

  lemma NameStep(a: Blob, b: Blob, key: Blob, k: nat)
    requires a != [] && key != [] && k == UnitLength(a) == UnitLength(key)
    requires key[..k] == a[..k] && Replaced(key[k..]) == Replaced(a[k..]) + Replaced(b)
    ensures Replaced(key) == Replaced(a) + Replaced(b)
  {
    ReplacedStep(a);
    ReplacedStep(key);
    Regrouped(Replaced(key), Replaced(a), UnitName(a[..k]), Replaced(a[k..]), Replaced(b));
  }

  lemma Regrouped(whole: Blob, front: Blob, head: Blob, middle: Blob, end: Blob)
    requires whole == head + (middle + end) && front == head + middle
    ensures whole == front + end
  {
  }

  /** A key made of two parts is named by the names of the parts. */
  lemma {:induction false} NameOfParts(a: Blob, b: Blob)
    requires PartsStay(a, b)
    ensures Replaced(a + b) == Replaced(a) + Replaced(b)
    decreases |a|
  {
    if a == [] {
      assert a + b == b;
    } else {
      var k := UnitLength(a);
      FirstUnitStays(a, b);
      NameOfParts(a[k..], b);
      NameStep(a, b, a + b, k);
    }
  }

  /** Blobs of different courses are different files. */
  lemma BlobFilesDiffer(a: u64, b: u64)
    ensures BlobName(a) == BlobName(b) <==> a == b
  {
    UintRoundTrip(a);
    UintRoundTrip(b);
    assert BlobName(a)[..|BlobName(a)| - 4] == PrintUint(a) && BlobName(b)[..|BlobName(b)| - 4] == PrintUint(b);
  }

  lemma {:induction false} FlatIsKept(key: Blob)
    requires NoSeparator(key) && NoDoubleDot(key)
    ensures Replaced(key) == key
    decreases |key|
  {
    if key != [] {
      assert forall i :: 0 <= i < |key[1..]| ==> key[1..][i] == key[i + 1];
      FlatIsKept(key[1..]);
    }
  }

  /** Keys without separators and double dots have files of their own; every other key shares the file of one of those. */
  lemma FlatKeysDiffer(a: Blob, b: Blob)
    requires NoSeparator(a) && NoDoubleDot(a)
    ensures NoSeparator(b) && NoDoubleDot(b) ==> (SanitizeKey(a) == SanitizeKey(b) <==> a == b)
    ensures SanitizeKey(b) == SanitizeKey(Replaced(b)) && NoSeparator(Replaced(b)) && NoDoubleDot(Replaced(b))
  {
    var prefix := Text("obj_");
    FlatIsKept(a);
    assert (prefix + Replaced(a))[4..] == Replaced(a) && (prefix + Replaced(b))[4..] == Replaced(b);
    ReplacedIsFlat(b);
    FlatIsKept(Replaced(b));
    if NoSeparator(b) && NoDoubleDot(b) {
      FlatIsKept(b);
    }
  }

  // ----- request paths -----

  function UpToSeparator(s: Blob): Blob {
    if s == [] || s[0] == SLASH || s[0] == QUESTION then [] else [s[0]] + UpToSeparator(s[1..])
  }

  /** The data id in a request path, after the "/object/" prefix has been cut off. */
  function PathID(tail: Blob): Option<u64> {
    ParseUint(UpToSeparator(tail))
  }

  lemma {:induction false} DigitsPass(s: Blob, rest: Blob)
    requires AllDigits(s) && (rest == [] || rest[0] == SLASH || rest[0] == QUESTION)
    ensures UpToSeparator(s + rest) == s
  {
    if s == [] {
      assert s + rest == rest;
    } else {
      assert (s + rest)[1..] == s[1..] + rest;
      DigitsPass(s[1..], rest);
    }
  }

  /** The URL handed out for a course leads back to the same course, with or without a query behind it. */
  lemma UrlLeadsBack(id: u64, rest: Blob)
    requires rest == [] || rest[0] == SLASH || rest[0] == QUESTION
    ensures PathID(PrintUint(id) + rest) == Some(id)
  {
    DigitsPass(PrintUint(id), rest);
    UintRoundTrip(id);
  }

  // ----- the blob endpoint as a whole -----

  datatype Verb = PutVerb | PostVerb | GetVerb | HeadVerb | OtherVerb

  /** `length` is the announced content length. */
  datatype Reply = BadID | Stored | NotFound | Sent(length: nat, body: Blob) | BadVerb

  /** What a request for the path `tail` makes of blobs and catalogue, and its reply. */
  function Handled(blobs: map<u64, Blob>, m: Mem, verb: Verb, tail: Blob, chunks: seq<Read>): (Reply, map<u64, Blob>, Mem) {
    match PathID(tail)
    case None => (BadID, blobs, m)
    case Some(id) =>
      match verb
      case OtherVerb => (BadVerb, blobs, m)
      case GetVerb => (if id in blobs then Sent(|blobs[id]|, blobs[id]) else NotFound, blobs, m)
      case HeadVerb => (if id in blobs then Sent(|blobs[id]|, []) else NotFound, blobs, m)
      case _ => (Stored, blobs[id := Uploaded(chunks)], Resized(m, id, |Uploaded(chunks)|))
  }

  method ObjectHandler(store: CourseStore, verb: Verb, tail: Blob, chunks: seq<Read>) returns (reply: Reply)
    modifies store, store.disk
    ensures (reply, store.disk.blobs, store.Memory())
         == Handled(old(store.disk.blobs), old(store.Memory()), verb, tail, chunks)
    ensures PathID(tail).Some? && (verb == PutVerb || verb == PostVerb) ==>
      && PathID(tail).value in store.disk.blobs && Holds(chunks, store.disk.blobs[PathID(tail).value])
      && store.Memory() == Resized(old(store.Memory()), PathID(tail).value, |store.disk.blobs[PathID(tail).value]|)
    ensures store.Memory() == old(store.Memory()) ||
      (store.disk.temp == None && store.disk.catalogue.Some? && IsSaved(store.Memory(), store.disk.catalogue.value))
  {
    var dataID := PathID(tail);
    if dataID == None {
      return BadID;
    }
    var id := dataID.value;
    if verb == PutVerb || verb == PostVerb {
      Put(store, id, chunks);
      return Stored;
    } else if verb == GetVerb || verb == HeadVerb {
      if id !in store.disk.blobs {
        return NotFound;
      }
      var b := store.disk.blobs[id];
      return Sent(|b|, if verb == GetVerb then b else []);
    }
    return BadVerb;
  }

  predicate EndsId(tail: Blob) {
    tail == [] || tail[0] == '/' as int || tail[0] == '?' as int
  }

  /**
   What was put or posted under a printed id is the request's body, up to 64 MiB of it; it is sent to every later reader
   of that id, with a content length equal to the size the catalogue records; other ids are answered as before.
   */
  lemma PutThenGet(blobs: map<u64, Blob>, m: Mem, post: bool, id: u64, chunks: seq<Read>, tail: Blob, other: u64, any: seq<Read>)
    requires EndsId(tail)
    ensures var (reply, blobs', m') := Handled(blobs, m, if post then PostVerb else PutVerb, PrintUint(id) + tail, chunks);
      && reply == Stored && id in blobs' && Holds(chunks, blobs'[id])
      && Handled(blobs', m', GetVerb, PrintUint(id) + tail, any) == (Sent(|blobs'[id]|, blobs'[id]), blobs', m')
      && Handled(blobs', m', HeadVerb, PrintUint(id) + tail, any) == (Sent(|blobs'[id]|, []), blobs', m')
      && (id in m.byID ==> id in m'.byID && m'.byID[id].size == |blobs'[id]|)
      && (other != id ==>
            Handled(blobs', m', GetVerb, PrintUint(other) + tail, any).0
              == Handled(blobs, m, GetVerb, PrintUint(other) + tail, any).0)
  {
    UrlLeadsBack(id, tail);
    UrlLeadsBack(other, tail);
  }

  /** Everything else is turned down and changes nothing: a path that is no number, another verb, a blob that is not there. */
  lemma TurnedDown(blobs: map<u64, Blob>, m: Mem, verb: Verb, id: u64, tail: Blob, word: Blob, chunks: seq<Read>)
    requires EndsId(tail)
    requires SLASH !in word && QUESTION !in word && (word == [] || exists i :: 0 <= i < |word| && !(48 <= word[i] <= 57))
    ensures Handled(blobs, m, verb, word + tail, chunks) == (BadID, blobs, m)
    ensures Handled(blobs, m, OtherVerb, PrintUint(id) + tail, chunks) == (BadVerb, blobs, m)
    ensures id !in blobs ==> Handled(blobs, m, GetVerb, PrintUint(id) + tail, chunks) == (NotFound, blobs, m)
    ensures id !in blobs ==> Handled(blobs, m, HeadVerb, PrintUint(id) + tail, chunks) == (NotFound, blobs, m)
  {
    UrlLeadsBack(id, tail);
    WordPasses(word, tail);
    UintParsesIff(word);
  }

  lemma {:induction false} WordPasses(word: Blob, tail: Blob)
    requires SLASH !in word && QUESTION !in word && EndsId(tail)
    ensures UpToSeparator(word + tail) == word
    decreases |word|
  {
    if word == [] {
      assert word + tail == tail;
    } else {
      assert (word + tail)[1..] == word[1..] + tail;
      WordPasses(word[1..], tail);
    }
  }
}
