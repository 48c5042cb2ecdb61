/** The three requests around a course blob: prepare an upload, complete it, prepare a download. */
module Handlers {
  import opened Bytes
  import opened Wire
  import opened Catalogue
  import opened Nested
  import Decimal
  import ObjectStore
  import Profile
  import Relation

  // ----- requests -----

  /** size, name, data type and course header of a prepare_post request; what follows them is not read. */
  function PostParams(request: Blob): (u32, Blob, u16, Blob) {
    var body := ReadBuffer(ReadInt(request, 1).1).0;
    var (size, r1) := ReadInt(body, 4);
    var (name, r2) := ReadString(r1);
    var (dataType, r3) := ReadInt(r2, 2);
    Pow256Values();
    ReadIntBound(body, 4);
    ReadIntBound(r2, 2);
    (size, name, dataType, ReadQBuffer(r3).0)
  }

  /** The data id of a prepare_get request. */
  function GetParam(request: Blob): u64 {
    var body := ReadBuffer(ReadInt(request, 1).1).0;
    Pow256Values();
    ReadIntBound(body, 8);
    ReadInt(body, 8).0
  }

  /** The data id of a complete_post request and whether the upload succeeded. */
  function CompleteParams(request: Blob): (u64, bool) {
    var r := ReadInt(ReadBuffer(ReadInt(request, 1).1).0, 8).1;
    (GetParam(request), ReadInt(r, 1).0 != 0)
  }

  function HexBytes(b: Blob): Blob {
    if b == [] then [] else [Relation.HexDigit(b[0] / 16), Relation.HexDigit(b[0] % 16)] + HexBytes(b[1..])
  }

  function DraftOf(owner: u64, request: Blob, now: int): Draft {
    var (size, name, dataType, meta) := PostParams(request);
    Draft(owner, name, dataType, HexBytes(meta), [], size, now)
  }

  /** A printed prepare_post request is read back, whatever further parameters follow. */
  lemma PostRequestRoundTrip(version: byte, size: u32, name: Blob, dataType: u16, meta: Blob, more: Blob)
    requires |name| <= MAX_STRING && |meta| < 0x1_0000
    requires |PostBody(size, name, dataType, meta, more)| < 0x1_0000_0000
    ensures PostParams([version] + PutBuffer(PostBody(size, name, dataType, meta, more))) == (size, name, dataType, meta)
  {
    Pow256Values();
    var body := PostBody(size, name, dataType, meta, more);
    assert ([version] + PutBuffer(body))[1..] == PutBuffer(body) + [];
    BufferRoundTrip(body, []);
    var r2 := Le(dataType, 2) + (PutQBuffer(meta) + more);
    Wire.IntRoundTrip(size, 4, PutString(name) + r2);
    StringRoundTrip(name, r2);
    Wire.IntRoundTrip(dataType, 2, PutQBuffer(meta) + more);
    QBufferRoundTrip(meta, more);
  }

  function PostBody(size: u32, name: Blob, dataType: u16, meta: Blob, more: Blob): Blob {
    Le(size, 4) + (PutString(name) + (Le(dataType, 2) + (PutQBuffer(meta) + more)))
  }

  lemma {:induction false} HeaderIsHex(b: Blob, i: nat)
    ensures |HexBytes(b)| == 2 * |b|
    ensures i < |b| ==> HexBytes(b)[2 * i] == ByteOf("0123456789abcdef"[b[i] / 16])
    ensures i < |b| ==> HexBytes(b)[2 * i + 1] == ByteOf("0123456789abcdef"[b[i] % 16])
    decreases |b|
  {
    if b != [] {
      var rest := HexBytes(b[1..]);
      Relation.HexDigitsSpell(b[0] / 16);
      Relation.HexDigitsSpell(b[0] % 16);
      HeaderIsHex(b[1..], if i == 0 then 0 else i - 1);
      if 0 < i < |b| {
        assert b[1..][i - 1] == b[i];
        SliceBehind([Relation.HexDigit(b[0] / 16), Relation.HexDigit(b[0] % 16)], rest, 2 * i - 2, 2);
        assert HexBytes(b)[2 * i..2 * i + 2] == rest[2 * i - 2..2 * i];
        assert HexBytes(b)[2 * i..2 * i + 2][0] == rest[2 * i - 2..2 * i][0];
        assert HexBytes(b)[2 * i..2 * i + 2][1] == rest[2 * i - 2..2 * i][1];
      }
    }
  }

  /** The draft of a printed request: its own fields, the header in hex, no tags, and the caller and the time. */
  lemma DraftOfRequest(owner: u64, now: int, version: byte, size: u32, name: Blob, dataType: u16, meta: Blob, more: Blob)
    requires |name| <= MAX_STRING && |meta| < 0x1_0000
    requires |PostBody(size, name, dataType, meta, more)| < 0x1_0000_0000
    ensures var d := DraftOf(owner, [version] + PutBuffer(PostBody(size, name, dataType, meta, more)), now);
      && d.owner == owner && d.createdAt == now && d.tags == []
      && d.size == size && d.name == name && d.dataType == dataType && d.metaHex == HexBytes(meta)
  {
    PostRequestRoundTrip(version, size, name, dataType, meta, more);
  }

  /** A data id and what follows it, framed. */
  function IdRequest(version: byte, id: u64, more: Blob): Blob {
    [version] + PutBuffer(Le(id, 8) + more)
  }

  lemma IdRequestReads(version: byte, id: u64, more: Blob)
    requires |more| < 0xFFFF_FFF8
    ensures var param := ReadBuffer(ReadInt(IdRequest(version, id, more), 1).1).0;
      param == Le(id, 8) + more && ReadInt(param, 8) == (id, more)
  {
    Pow256Values();
    var body := Le(id, 8) + more;
    assert IdRequest(version, id, more)[1..] == PutBuffer(body) + [];
    BufferRoundTrip(body, []);
    Wire.IntRoundTrip(id, 8, more);
  }

  /** A printed prepare_get request names its id, whatever follows. */
  lemma GetRequestReads(version: byte, id: u64, more: Blob)
    requires |more| < 0xFFFF_FFF8
    ensures GetParam(IdRequest(version, id, more)) == id
  {
    IdRequestReads(version, id, more);
  }

  /**
   A printed complete_post request names its id, and success unless the flag behind it is zero: then and only then is
   the course dropped; otherwise it stands ready, with the rest of its record as it was.
   */
  lemma CompleteRequestReads(version: byte, id: u64, flag: byte, more: Blob, m: Mem)
    requires |more| < 0xFFFF_FFF7
    ensures CompleteParams(IdRequest(version, id, [flag] + more)) == (id, flag != 0)
    ensures var (read, ok) := CompleteParams(IdRequest(version, id, [flag] + more));
      var m' := Completed(m, read, ok);
      && (flag == 0 ==> id !in m'.byID)
      && (flag != 0 && id in m.byID ==> id in m'.byID && m'.byID[id] == m.byID[id].(ready := true))
  {
    IdRequestReads(version, id, [flag] + more);
    GetRequestReads(version, id, [flag] + more);
    assert ([flag] + more)[..1] == [flag];
    assert UnLe([flag]) == flag;
  }

  // ----- responses -----

  function Url(base: Blob, id: u64): Blob {
    base + Text("/object/") + Decimal.PrintUint(id)
  }

  const NO_LIST := List([])

  /** data id, url, no headers, no form, certificate. */
  function PostInfo(id: u64, url: Blob, ca: Blob): Node {
    Struct(0, [Word(8, id), Str(url), NO_LIST, NO_LIST, Buf(ca)])
  }

  /** url, no headers, size, certificate, data id. */
  function GetInfo(url: Blob, size: u32, ca: Blob, id: u64): Node {
    Struct(0, [Str(url), NO_LIST, Word(4, size), Buf(ca), Word(8, id)])
  }

  const POST_SHAPE := StructShape([WordShape(8), StrShape, ListShape(StrShape), ListShape(StrShape), BufShape])
  const GET_SHAPE := StructShape([StrShape, ListShape(StrShape), WordShape(4), BufShape, WordShape(8)])

  lemma {:induction false} PrintSnoc(nodes: seq<Node>, last: Node)
    ensures PrintAll(nodes + [last]) == PrintAll(nodes) + Print(last)
    decreases |nodes|
  {
    if nodes == [] {
      assert ([] + [last])[1..] == [];
    } else {
      assert (nodes + [last])[1..] == nodes[1..] + [last];
      PrintSnoc(nodes[1..], last);
    }
  }

  lemma PrintThree(a: Node, b: Node, c: Node)
    ensures PrintAll([a, b, c]) == [] + Print(a) + Print(b) + Print(c)
  {
    PrintSnoc([], a);
    PrintSnoc([] + [a], b);
    PrintSnoc([] + [a] + [b], c);
    assert [a, b, c] == [] + [a] + [b] + [c];
  }

  /** Five fields print one after the other. */
  lemma PrintFive(a: Node, b: Node, c: Node, d: Node, e: Node)
    ensures PrintAll([a, b, c, d, e]) == [] + Print(a) + Print(b) + Print(c) + Print(d) + Print(e)
  {
    PrintThree(a, b, c);
    PrintSnoc([a, b, c], d);
    PrintSnoc([a, b, c] + [d], e);
    assert [a, b, c, d, e] == [a, b, c] + [d] + [e];
  }

  lemma NoListPrint()
    ensures Print(NO_LIST) == Le(0, 4)
  {
    assert Le(0, 4) + [] == Le(0, 4);
  }

  method ReadPost(request: Blob) returns (size: u32, name: Blob, dataType: u16, meta: Blob)
    ensures (size, name, dataType, meta) == PostParams(request)
  {
    var src := new StreamIn(request);
    var _ := src.ReadWord(1);
    var param := src.ReadSub();
    var p := new StreamIn(param);
    Pow256Values();
    size := p.ReadWord(4);
    name := p.ReadText();
    dataType := p.ReadWord(2);
    meta := p.ReadShortBlock();
  }

  method PreparePost(store: CourseStore, pid: u64, request: Blob, base: Blob, ca: Blob, now: int) returns (response: Blob)
    modifies store, store.disk
    ensures store.Memory() == Allocated(old(store.Memory()), DraftOf(pid, request, now))
    ensures response == Print(PostInfo(old(store.nextID), Url(base, old(store.nextID)), ca))
    ensures store.disk.temp == None && store.disk.catalogue.Some? && IsSaved(store.Memory(), store.disk.catalogue.value)
    ensures store.disk.blobs == old(store.disk.blobs)
  {
    var size, name, dataType, meta := ReadPost(request);
    var id := store.Alloc(Draft(pid, name, dataType, HexBytes(meta), [], size, now));
    response := PrintPost(id, Url(base, id), ca);
  }

  method PrintPost(id: u64, url: Blob, ca: Blob) returns (response: Blob)
    ensures response == Print(PostInfo(id, url, ca))
  {
    var body := new StreamOut();
    body.Word(id, 8);
    body.String(url);
    body.Word(0, 4);
    body.Word(0, 4);
    body.Buffer(ca);
    NoListPrint();
    PrintFive(Word(8, id), Str(url), NO_LIST, NO_LIST, Buf(ca));
    response := Profile.FrameStruct(0, body.buf);
  }

  method ReadComplete(request: Blob) returns (id: u64, success: bool)
    ensures (id, success) == CompleteParams(request)
  {
    var src := new StreamIn(request);
    var _ := src.ReadWord(1);
    var param := src.ReadSub();
    var p := new StreamIn(param);
    Pow256Values();
    id := p.ReadWord(8);
    var flag := p.ReadWord(1);
    success := flag != 0;
  }

  method CompletePost(store: CourseStore, request: Blob)
    modifies store, store.disk
    ensures store.Memory() == Completed(old(store.Memory()), CompleteParams(request).0, CompleteParams(request).1)
    ensures CompleteParams(request).0 in old(store.byID) ==>
      store.disk.temp == None && store.disk.catalogue.Some? && IsSaved(store.Memory(), store.disk.catalogue.value)
    ensures CompleteParams(request).0 !in old(store.byID) ==>
      store.disk.temp == old(store.disk.temp) && store.disk.catalogue == old(store.disk.catalogue)
    ensures store.disk.blobs == old(store.disk.blobs)
  {
    var id, success := ReadComplete(request);
    store.Complete(id, success);
  }

  /** None stands for the measured or NotFound answer to an id that is not in the catalogue. */
  method PrepareGet(store: CourseStore, request: Blob, base: Blob, ca: Blob) returns (response: Option<Blob>)
    ensures var id := GetParam(request);
      response == if id in store.byID then Some(Print(GetInfo(Url(base, id), store.byID[id].size, ca, id))) else None
  {
    var src := new StreamIn(request);
    var _ := src.ReadWord(1);
    var param := src.ReadSub();
    var p := new StreamIn(param);
    var id := p.ReadWord(8);
    Pow256Values();
    var m := store.Get(id);
    if m == None {
      return None;
    }
    var bytes := PrintGet(Url(base, id), m.value.size, ca, id);
    response := Some(bytes);
  }

  method PrintGet(url: Blob, size: u32, ca: Blob, id: u64) returns (response: Blob)
    ensures response == Print(GetInfo(url, size, ca, id))
  {
    var body := new StreamOut();
    body.String(url);
    body.Word(0, 4);
    body.Word(size, 4);
    body.Buffer(ca);
    body.Word(id, 8);
    NoListPrint();
    PrintFive(Str(url), NO_LIST, Word(4, size), Buf(ca), Word(8, id));
    response := Profile.FrameStruct(0, body.buf);
  }

  // ----- what the console makes of them -----

  /** The part of a handed-out URL behind "/object/" leads back to the id. */
  lemma UrlLeadsBack(base: Blob, id: u64)
    ensures ObjectStore.PathID(Url(base, id)[|base| + 8..]) == Some(id)
  {
    assert Url(base, id)[|base| + 8..] == Decimal.PrintUint(id) + [];
    ObjectStore.UrlLeadsBack(id, []);
  }

  /** The download answer parses to the URL, the size and the id it was built from, and the URL leads to that id. */
  lemma {:induction false} GetAnswerParses(base: Blob, size: u32, ca: Blob, id: u64)
    requires |Url(base, id)| <= MAX_STRING && |ca| < 0x8000_0000
    ensures Parse(GET_SHAPE, Print(GetInfo(Url(base, id), size, ca, id)) + []) == Some((GetInfo(Url(base, id), size, ca, id), []))
    ensures ObjectStore.PathID(Url(base, id)[|base| + 8..]) == Some(id)
  {
    var url := Url(base, id);
    Pow256Values();
    NoListPrint();
    PrintFive(Str(url), NO_LIST, Word(4, size), Buf(ca), Word(8, id));
    FiveConform(GetInfo(url, size, ca, id), GET_SHAPE);
    ParsePrinted(GetInfo(url, size, ca, id), GET_SHAPE, []);
    UrlLeadsBack(base, id);
  }

  /** The upload answer likewise names the id and a URL that leads to it. */
  lemma PostAnswerParses(base: Blob, ca: Blob, id: u64)
    requires |Url(base, id)| <= MAX_STRING && |ca| < 0x8000_0000
    ensures Parse(POST_SHAPE, Print(PostInfo(id, Url(base, id), ca)) + []) == Some((PostInfo(id, Url(base, id), ca), []))
    ensures ObjectStore.PathID(Url(base, id)[|base| + 8..]) == Some(id)
  {
    var url := Url(base, id);
    Pow256Values();
    NoListPrint();
    PrintFive(Word(8, id), Str(url), NO_LIST, NO_LIST, Buf(ca));
    FiveConform(PostInfo(id, url, ca), POST_SHAPE);
    ParsePrinted(PostInfo(id, url, ca), POST_SHAPE, []);
    UrlLeadsBack(base, id);
  }

  /** The upload answer, byte for byte: id, URL, two empty lists and the certificate, framed. */
  lemma PostAnswerOnWire(base: Blob, id: u64, ca: Blob)
    ensures var url := base + Text("/object/") + Decimal.PrintUint(id);
      var body := Le(id, 8) + (Le(|url| + 1, 2) + url + [0]) + [0, 0, 0, 0] + [0, 0, 0, 0] + (Le(|ca|, 4) + ca);
      Print(PostInfo(id, Url(base, id), ca)) == [0] + (Le(|body|, 4) + body)
  {
    NoListOnWire();
    PrintFive(Word(8, id), Str(Url(base, id)), NO_LIST, NO_LIST, Buf(ca));
    assert [] + Le(id, 8) == Le(id, 8);
  }

  /** The download answer, byte for byte: URL, an empty list, size, certificate and id, framed. */
  lemma GetAnswerOnWire(base: Blob, size: u32, ca: Blob, id: u64)
    ensures var url := base + Text("/object/") + Decimal.PrintUint(id);
      var body := (Le(|url| + 1, 2) + url + [0]) + [0, 0, 0, 0] + Le(size, 4) + (Le(|ca|, 4) + ca) + Le(id, 8);
      Print(GetInfo(Url(base, id), size, ca, id)) == [0] + (Le(|body|, 4) + body)
  {
    NoListOnWire();
    PrintFive(Str(Url(base, id)), NO_LIST, Word(4, size), Buf(ca), Word(8, id));
    assert [] + PutString(Url(base, id)) == PutString(Url(base, id));
  }

  lemma NoListOnWire()
    ensures Print(NO_LIST) == [0, 0, 0, 0]
  {
    NoListPrint();
    FourByteLayout(0);
  }

  /** Five fields that fit and conform one by one make a structure that does. */
  lemma FiveConform(node: Node, shape: Shape)
    requires node.Struct? && shape.StructShape? && |node.fields| == |shape.fields| == 5
    requires |PrintAll(node.fields)| < 0x1_0000_0000
    requires forall i :: 0 <= i < 5 ==> Conforms(node.fields[i], shape.fields[i]) && Fits(node.fields[i])
    ensures Conforms(node, shape) && Fits(node)
  {
    FieldwiseConform(node.fields, shape.fields);
  }

  lemma {:induction false} FieldwiseConform(nodes: seq<Node>, shapes: seq<Shape>)
    requires |nodes| == |shapes|
    requires forall i :: 0 <= i < |nodes| ==> Conforms(nodes[i], shapes[i]) && Fits(nodes[i])
    ensures FieldsConform(nodes, shapes) && AllFit(nodes)
    decreases |nodes|
  {
    if nodes != [] {
      assert forall i :: 0 <= i < |nodes[1..]| ==> nodes[1..][i] == nodes[i + 1] && shapes[1..][i] == shapes[i + 1];
      FieldwiseConform(nodes[1..], shapes[1..]);
    }
  }
}
