/**
 Nested NEX values and their bytes. A same-length replacement on the bytes is the same replacement on the
 text fields, so no length header inside the value has to be corrected.
 */
module Nested {
  import opened Bytes
  import opened Wire
  import opened Replace

  datatype Node =
    | Word(width: nat, n: nat)
    | Str(text: Blob)
    | Buf(bytes: Blob)
    | Struct(version: byte, fields: seq<Node>)
    | List(items: seq<Node>)

  function Print(node: Node): Blob
    decreases node, 1
  {
    match node
    case Word(width, n) => Le(n, width)
    case Str(text) => PutString(text)
    case Buf(bytes) => PutBuffer(bytes)
    case Struct(version, fields) => [version] + PutBuffer(PrintAll(fields))
    case List(items) => Le(|items|, 4) + PrintAll(items)
  }

  function PrintAll(nodes: seq<Node>): Blob
    decreases nodes, 0
  {
    if nodes == [] then [] else Print(nodes[0]) + PrintAll(nodes[1..])
  }

  /** Every number fits its field and every length its header. */
  predicate Fits(node: Node)
    decreases node, 1
  {
    match node
    case Word(width, n) => n < Pow256(width)
    case Str(text) => |text| <= MAX_STRING
    case Buf(bytes) => |bytes| < 0x1_0000_0000
    case Struct(_, fields) => |PrintAll(fields)| < 0x1_0000_0000 && AllFit(fields)
    case List(items) => |items| < 0x1_0000_0000 && AllFit(items)
  }

  predicate AllFit(nodes: seq<Node>)
    decreases nodes, 0
  {
    nodes == [] || (Fits(nodes[0]) && AllFit(nodes[1..]))
  }

  // ----- where the text is -----

  /** Bytes i .. i+n of the printed value lie inside the characters of one text field. */
  predicate InText(node: Node, i: int, n: nat)
    decreases node, 1
  {
    match node
    case Word(_, _) => false
    case Str(text) => 2 <= i && i + n <= 2 + |text|
    case Buf(_) => false
    case Struct(_, fields) => InTextOfAny(fields, i - 5, n)
    case List(items) => InTextOfAny(items, i - 4, n)
  }

  predicate InTextOfAny(nodes: seq<Node>, i: int, n: nat)
    decreases nodes, 0
  {
    nodes != [] && (InText(nodes[0], i, n) || InTextOfAny(nodes[1..], i - |Print(nodes[0])|, n))
  }

  lemma {:induction false} InTextIsInside(node: Node, i: int, n: nat)
    requires InText(node, i, n)
    ensures 0 <= i && i + n <= |Print(node)|
    decreases node, 1
  {
    match node
    case Word(_, _) =>
    case Str(_) =>
    case Buf(_) =>
    case Struct(_, fields) => InTextOfAnyIsInside(fields, i - 5, n);
    case List(items) => InTextOfAnyIsInside(items, i - 4, n);
  }

  lemma {:induction false} InTextOfAnyIsInside(nodes: seq<Node>, i: int, n: nat)
    requires InTextOfAny(nodes, i, n)
    ensures 0 <= i && i + n <= |PrintAll(nodes)|
    decreases nodes, 0
  {
    if InText(nodes[0], i, n) {
      InTextIsInside(nodes[0], i, n);
    } else {
      InTextOfAnyIsInside(nodes[1..], i - |Print(nodes[0])|, n);
    }
  }

  /** Each occurrence in the printed value lies inside one text field. */
  ghost predicate OnlyInText(node: Node, p: Blob) {
    forall i :: OccursAt(Print(node), p, i) ==> InText(node, i, |p|)
  }

  ghost predicate OnlyInTextOfAny(nodes: seq<Node>, p: Blob) {
    forall i :: OccursAt(PrintAll(nodes), p, i) ==> InTextOfAny(nodes, i, |p|)
  }

  // ----- rewriting the fields -----

  function Rewrite(node: Node, p: Blob, r: Blob): Node
    requires p != []
    decreases node, 1
  {
    match node
    case Str(text) => Str(ReplaceAll(text, p, r))
    case Struct(version, fields) => Struct(version, RewriteEach(fields, p, r))
    case List(items) => List(RewriteEach(items, p, r))
    case _ => node
  }

  function RewriteEach(nodes: seq<Node>, p: Blob, r: Blob): (rs: seq<Node>)
    requires p != []
    ensures |rs| == |nodes|
    decreases nodes, 0
  {
    if nodes == [] then [] else [Rewrite(nodes[0], p, r)] + RewriteEach(nodes[1..], p, r)
  }

  /** Leading bytes that no occurrence touches stay as they are. */
  lemma HeaderKept(head: Blob, body: Blob, p: Blob, r: Blob)
    requires p != []
    requires forall i :: OccursAt(head + body, p, i) ==> |head| <= i
    ensures ReplaceAll(head + body, p, r) == head + ReplaceAll(body, p, r)
  {
    forall i | OccursAt(head, p, i)
      ensures false
    {
      assert (head + body)[i..i + |p|] == head[i..i + |p|];
      assert OccursAt(head + body, p, i);
    }
    NothingToReplace(head, p, r);
    ReplaceAcrossSeam(head, body, p, r);
  }

  /** Trailing bytes that no occurrence touches stay as they are. */
  lemma TrailerKept(body: Blob, tail: Blob, p: Blob, r: Blob)
    requires p != []
    requires forall i :: OccursAt(body + tail, p, i) ==> i + |p| <= |body|
    ensures ReplaceAll(body + tail, p, r) == ReplaceAll(body, p, r) + tail
  {
    assert (body + tail)[|body|..] == tail;
    forall i | OccursAt(tail, p, i)
      ensures false
    {
      OccursShift(body + tail, p, |body|, i);
    }
    NothingToReplace(tail, p, r);
    ReplaceAcrossSeam(body, tail, p, r);
  }

  lemma {:induction false} TextCommutes(text: Blob, p: Blob, r: Blob)
    requires p != [] && |r| == |p| && OnlyInText(Str(text), p)
    ensures ReplaceAll(PutString(text), p, r) == PutString(ReplaceAll(text, p, r))
  {
    var head, rest := Le(|text| + 1, 2), text + [0];
    var s := head + rest;
    assert Print(Str(text)) == s && s[2..] == rest;
    forall i | OccursAt(s, p, i)
      ensures 2 <= i
    {
      assert InText(Str(text), i, |p|);
    }
    HeaderKept(head, rest, p, r);
    forall i | OccursAt(rest, p, i)
      ensures i + |p| <= |text|
    {
      OccursShift(s, p, 2, i);
      assert InText(Str(text), i + 2, |p|);
    }
    TrailerKept(text, [0], p, r);
    SameLength(text, p, r);
  }

  /** Printing and rewriting commute. */
  lemma {:induction false} PrintCommutes(node: Node, p: Blob, r: Blob)
    requires p != [] && |r| == |p| && OnlyInText(node, p)
    ensures ReplaceAll(Print(node), p, r) == Print(Rewrite(node, p, r))
    decreases node, 1
  {
    match node
    case Word(_, _) => NothingToReplace(Print(node), p, r);
    case Buf(_) => NothingToReplace(Print(node), p, r);
    case Str(text) => TextCommutes(text, p, r);
    case Struct(version, fields) =>
      var body := PrintAll(fields);
      FramedCommutes(node, [version] + Le(|body|, 4), fields, p, r);
      assert Print(node) == [version] + Le(|body|, 4) + body;
      PrintAllCommutes(fields, p, r);
      SameLength(body, p, r);
    case List(items) =>
      FramedCommutes(node, Le(|items|, 4), items, p, r);
      PrintAllCommutes(items, p, r);
  }

  lemma {:induction false} FramedCommutes(node: Node, head: Blob, nodes: seq<Node>, p: Blob, r: Blob)
    requires p != [] && OnlyInText(node, p)
    requires Print(node) == head + PrintAll(nodes)
    requires forall i :: InText(node, i, |p|) ==> InTextOfAny(nodes, i - |head|, |p|)
    ensures OnlyInTextOfAny(nodes, p)
    ensures ReplaceAll(Print(node), p, r) == head + ReplaceAll(PrintAll(nodes), p, r)
  {
    var body := PrintAll(nodes);
    forall i | OccursAt(head + body, p, i)
      ensures |head| <= i && InTextOfAny(nodes, i - |head|, |p|)
    {
      assert InText(node, i, |p|);
      InTextOfAnyIsInside(nodes, i - |head|, |p|);
    }
    HeaderKept(head, body, p, r);
    assert (head + body)[|head|..] == body;
    forall i | OccursAt(body, p, i)
      ensures InTextOfAny(nodes, i, |p|)
    {
      OccursShift(head + body, p, |head|, i);
    }
  }

  lemma {:induction false} PrintAllCommutes(nodes: seq<Node>, p: Blob, r: Blob)
    requires p != [] && |r| == |p| && OnlyInTextOfAny(nodes, p)
    ensures ReplaceAll(PrintAll(nodes), p, r) == PrintAll(RewriteEach(nodes, p, r))
    decreases nodes, 0
  {
    if nodes != [] {
      SplitOccurrences(nodes, p);
      PrintCommutes(nodes[0], p, r);
      PrintAllCommutes(nodes[1..], p, r);
      ReplaceAcrossSeam(Print(nodes[0]), PrintAll(nodes[1..]), p, r);
      assert RewriteEach(nodes, p, r)[1..] == RewriteEach(nodes[1..], p, r);
    }
  }

  /** Occurrences in a list of values split into those of the first and those of the others. */
  lemma SplitOccurrences(nodes: seq<Node>, p: Blob)
    requires p != [] && nodes != [] && OnlyInTextOfAny(nodes, p)
    ensures OnlyInText(nodes[0], p) && OnlyInTextOfAny(nodes[1..], p)
    ensures CleanSeam(Print(nodes[0]), PrintAll(nodes[1..]), p)
  {
    var a, b := Print(nodes[0]), PrintAll(nodes[1..]);
    var s := a + b;
    forall i | OccursAt(s, p, i)
      ensures (InText(nodes[0], i, |p|) && i + |p| <= |a|) || (InTextOfAny(nodes[1..], i - |a|, |p|) && |a| <= i)
    {
      assert InTextOfAny(nodes, i, |p|);
      if InText(nodes[0], i, |p|) {
        InTextIsInside(nodes[0], i, |p|);
      } else {
        InTextOfAnyIsInside(nodes[1..], i - |a|, |p|);
      }
    }
    forall i | OccursAt(a, p, i)
      ensures InText(nodes[0], i, |p|)
    {
      assert s[i..i + |p|] == a[i..i + |p|];
      assert OccursAt(s, p, i);
    }
    assert s[|a|..] == b;
    forall i | OccursAt(b, p, i)
      ensures InTextOfAny(nodes[1..], i, |p|)
    {
      OccursShift(s, p, |a|, i);
    }
  }

  // ----- re-parsing -----

  datatype Shape =
    | WordShape(width: nat)
    | StrShape
    | BufShape
    | StructShape(fields: seq<Shape>)
    | ListShape(item: Shape)

  function Parse(shape: Shape, s: Blob): Option<(Node, Blob)>
    decreases shape, 2, 0
  {
    match shape
    case WordShape(width) =>
      if |s| < width then None else Some((Word(width, UnLe(s[..width])), s[width..]))
    case StrShape =>
      if !HasString(s) then None else Some((Str(ReadString(s).0), ReadString(s).1))
    case BufShape =>
      if !HasBuffer(s) then None else Some((Buf(ReadBuffer(s).0), ReadBuffer(s).1))
    case StructShape(shapes) =>
      if |s| == 0 || !HasBuffer(s[1..]) then None
      else
        (match ParseFields(shapes, ReadBuffer(s[1..]).0)
         case None => None
         case Some((fields, left)) =>
           if left == [] then Some((Struct(s[0], fields), ReadBuffer(s[1..]).1)) else None)
    case ListShape(item) =>
      if |s| < 4 then None
      else
        match ParseItems(item, UnLe(s[..4]), s[4..])
        case None => None
        case Some((items, rest)) => Some((List(items), rest))
  }

  function ParseFields(shapes: seq<Shape>, s: Blob): Option<(seq<Node>, Blob)>
    decreases shapes, 1, 0
  {
    if shapes == [] then Some(([], s))
    else
      match Parse(shapes[0], s)
      case None => None
      case Some((node, r)) =>
        match ParseFields(shapes[1..], r)
        case None => None
        case Some((nodes, rest)) => Some(([node] + nodes, rest))
  }

  function ParseItems(shape: Shape, count: nat, s: Blob): Option<(seq<Node>, Blob)>
    decreases shape, 3, count
  {
    if count == 0 then Some(([], s))
    else
      match Parse(shape, s)
      case None => None
      case Some((node, r)) =>
        match ParseItems(shape, count - 1, r)
        case None => None
        case Some((nodes, rest)) => Some(([node] + nodes, rest))
  }

  predicate Conforms(node: Node, shape: Shape)
    decreases node, 1
  {
    match shape
    case WordShape(width) => node.Word? && node.width == width
    case StrShape => node.Str?
    case BufShape => node.Buf?
    case StructShape(shapes) => node.Struct? && FieldsConform(node.fields, shapes)
    case ListShape(item) => node.List? && ItemsConform(node.items, item)
  }

  predicate FieldsConform(nodes: seq<Node>, shapes: seq<Shape>)
    decreases nodes, 0
  {
    |nodes| == |shapes| && (nodes == [] || (Conforms(nodes[0], shapes[0]) && FieldsConform(nodes[1..], shapes[1..])))
  }

  predicate ItemsConform(nodes: seq<Node>, shape: Shape)
    decreases nodes, 0
  {
    nodes == [] || (Conforms(nodes[0], shape) && ItemsConform(nodes[1..], shape))
  }

  /** A printed value is parsed back, and the parser stops where it ends. */
  lemma {:induction false} ParsePrinted(node: Node, shape: Shape, rest: Blob)
    requires Conforms(node, shape) && Fits(node)
    ensures Parse(shape, Print(node) + rest) == Some((node, rest))
    decreases node, 1
  {
    var s := Print(node) + rest;
    match node
    case Word(width, n) =>
      Wire.IntRoundTrip(n, width, rest);
    case Str(text) =>
      StringRoundTrip(text, rest);
    case Buf(bytes) =>
      BufferRoundTrip(bytes, rest);
    case Struct(version, fields) =>
      var body := PrintAll(fields);
      assert s[1..] == PutBuffer(body) + rest;
      BufferRoundTrip(body, rest);
      ParsePrintedFields(fields, shape.fields, []);
      assert body + [] == body;
    case List(items) =>
      Pow256Values();
      LeRoundTrip(|items|, 4);
      assert s[..4] == Le(|items|, 4) && s[4..] == PrintAll(items) + rest;
      ParsePrintedItems(items, shape.item, rest);
  }

  lemma {:induction false} ParsePrintedFields(nodes: seq<Node>, shapes: seq<Shape>, rest: Blob)
    requires FieldsConform(nodes, shapes) && AllFit(nodes)
    ensures ParseFields(shapes, PrintAll(nodes) + rest) == Some((nodes, rest))
    decreases nodes, 0
  {
    if nodes == [] {
      assert PrintAll(nodes) + rest == rest;
    } else {
      assert PrintAll(nodes) + rest == Print(nodes[0]) + (PrintAll(nodes[1..]) + rest);
      ParsePrinted(nodes[0], shapes[0], PrintAll(nodes[1..]) + rest);
      ParsePrintedFields(nodes[1..], shapes[1..], rest);
      assert nodes == [nodes[0]] + nodes[1..];
    }
  }

  lemma {:induction false} ParsePrintedItems(nodes: seq<Node>, shape: Shape, rest: Blob)
    requires ItemsConform(nodes, shape) && AllFit(nodes)
    ensures ParseItems(shape, |nodes|, PrintAll(nodes) + rest) == Some((nodes, rest))
    decreases nodes, 0
  {
    if nodes == [] {
      assert PrintAll(nodes) + rest == rest;
    } else {
      assert PrintAll(nodes) + rest == Print(nodes[0]) + (PrintAll(nodes[1..]) + rest);
      ParsePrinted(nodes[0], shape, PrintAll(nodes[1..]) + rest);
      ParsePrintedItems(nodes[1..], shape, rest);
      assert nodes == [nodes[0]] + nodes[1..];
    }
  }

  /** Rewriting the text of a value keeps its shape, every printed length and every fit. */
  lemma {:induction false} RewriteKeepsShape(node: Node, shape: Shape, p: Blob, r: Blob)
    requires p != [] && |r| == |p| && Conforms(node, shape) && Fits(node)
    ensures Conforms(Rewrite(node, p, r), shape) && Fits(Rewrite(node, p, r))
    ensures |Print(Rewrite(node, p, r))| == |Print(node)|
    decreases node, 1
  {
    match node
    case Word(_, _) =>
    case Buf(_) =>
    case Str(text) => SameLength(text, p, r);
    case Struct(_, fields) => RewriteKeepsFields(fields, shape.fields, p, r);
    case List(items) => RewriteKeepsItems(items, shape.item, p, r);
  }

  lemma {:induction false} RewriteKeepsFields(nodes: seq<Node>, shapes: seq<Shape>, p: Blob, r: Blob)
    requires p != [] && |r| == |p| && FieldsConform(nodes, shapes) && AllFit(nodes)
    ensures FieldsConform(RewriteEach(nodes, p, r), shapes) && AllFit(RewriteEach(nodes, p, r))
    ensures |PrintAll(RewriteEach(nodes, p, r))| == |PrintAll(nodes)|
    decreases nodes, 0
  {
    if nodes != [] {
      RewriteKeepsShape(nodes[0], shapes[0], p, r);
      RewriteKeepsFields(nodes[1..], shapes[1..], p, r);
      assert RewriteEach(nodes, p, r)[1..] == RewriteEach(nodes[1..], p, r);
    }
  }

  lemma {:induction false} RewriteKeepsItems(nodes: seq<Node>, shape: Shape, p: Blob, r: Blob)
    requires p != [] && |r| == |p| && ItemsConform(nodes, shape) && AllFit(nodes)
    ensures ItemsConform(RewriteEach(nodes, p, r), shape) && AllFit(RewriteEach(nodes, p, r))
    ensures |PrintAll(RewriteEach(nodes, p, r))| == |PrintAll(nodes)|
    decreases nodes, 0
  {
    if nodes != [] {
      RewriteKeepsShape(nodes[0], shape, p, r);
      RewriteKeepsItems(nodes[1..], shape, p, r);
      assert RewriteEach(nodes, p, r)[1..] == RewriteEach(nodes[1..], p, r);
    }
  }

  /** The rewritten bytes still parse to the same shape, with only the text fields rewritten. */
  lemma RewrittenBytesParse(node: Node, shape: Shape, p: Blob, r: Blob, rest: Blob)
    requires p != [] && |r| == |p| && Conforms(node, shape) && Fits(node) && OnlyInText(node, p)
    ensures Parse(shape, ReplaceAll(Print(node), p, r) + rest) == Some((Rewrite(node, p, r), rest))
  {
    PrintCommutes(node, p, r);
    RewriteKeepsShape(node, shape, p, r);
    ParsePrinted(Rewrite(node, p, r), shape, rest);
  }

  // ----- where occurrences can be after another text rewrite -----

  /** No text field can be entered or left by an occurrence of `p`: neither its high length byte nor its NUL is in `p`. */
  predicate Sealed(node: Node, p: Blob)
    decreases node, 1
  {
    match node
    case Str(text) => Le(|text| + 1, 2)[1] !in p && 0 !in p
    case Struct(_, fields) => AllSealed(fields, p)
    case List(items) => AllSealed(items, p)
    case _ => true
  }

  predicate AllSealed(nodes: seq<Node>, p: Blob)
    decreases nodes, 0
  {
    nodes == [] || (Sealed(nodes[0], p) && AllSealed(nodes[1..], p))
  }

  lemma StructPrints(version: byte, fields: seq<Node>)
    ensures Print(Struct(version, fields)) == [version] + Le(|PrintAll(fields)|, 4) + PrintAll(fields)
  {
  }

  /** Text fields stay where they are and the bytes around them stay what they are. */
  lemma {:induction false} RewriteKeepsFrame(node: Node, q: Blob, r: Blob, p: Blob, i: int, n: nat)
    requires q != [] && |r| == |q|
    ensures var node' := Rewrite(node, q, r);
      && |Print(node')| == |Print(node)|
      && (InText(node', i, n) <==> InText(node, i, n))
      && (Sealed(node', p) <==> Sealed(node, p))
      && (0 <= i < |Print(node)| && !InText(node, i, 1) ==> Print(node')[i] == Print(node)[i])
    decreases node, 1
  {
    match node
    case Word(_, _) =>
    case Buf(_) =>
    case Str(text) => SameLength(text, q, r);
    case Struct(version, fields) =>
      RewriteKeepsFrames(fields, q, r, p, i - 5, n);
      StructPrints(version, fields);
      StructPrints(version, RewriteEach(fields, q, r));
    case List(items) => RewriteKeepsFrames(items, q, r, p, i - 4, n);
  }

  lemma {:induction false} RewriteKeepsFrames(nodes: seq<Node>, q: Blob, r: Blob, p: Blob, i: int, n: nat)
    requires q != [] && |r| == |q|
    ensures var nodes' := RewriteEach(nodes, q, r);
      && |PrintAll(nodes')| == |PrintAll(nodes)|
      && (InTextOfAny(nodes', i, n) <==> InTextOfAny(nodes, i, n))
      && (AllSealed(nodes', p) <==> AllSealed(nodes, p))
      && (0 <= i < |PrintAll(nodes)| && !InTextOfAny(nodes, i, 1) ==> PrintAll(nodes')[i] == PrintAll(nodes)[i])
    decreases nodes, 0
  {
    if nodes != [] {
      var first, first', rest := nodes[0], Rewrite(nodes[0], q, r), nodes[1..];
      var nodes', rest' := RewriteEach(nodes, q, r), RewriteEach(rest, q, r);
      assert nodes'[0] == first' && nodes'[1..] == rest';
      RewriteKeepsFrame(first, q, r, p, i, n);
      RewriteKeepsFrames(rest, q, r, p, i - |Print(first)|, n);
      SameByte(Print(first), PrintAll(rest), Print(first'), PrintAll(rest'), i);
    }
  }

  lemma SameByte(a: Blob, b: Blob, a': Blob, b': Blob, i: int)
    requires |a'| == |a| && |b'| == |b|
    ensures 0 <= i < |a| ==> ((a' + b')[i] == (a + b)[i] <==> a'[i] == a[i])
    ensures |a| <= i < |a + b| ==> ((a' + b')[i] == (a + b)[i] <==> b'[i - |a|] == b[i - |a|])
  {
  }

  lemma StrGrows(text: Blob, p: Blob, i: int, n: nat)
    requires Le(|text| + 1, 2)[1] !in p && 0 !in p && 2 <= i && i + n <= 2 + |text|
    ensures i + n < |PutString(text)|
    ensures i + n < 2 + |text| || PutString(text)[i + n] !in p
    ensures 3 <= i || PutString(text)[i - 1] !in p
  {
    assert PutString(text)[2 + |text|] == 0;
  }

  /** What is next to a stretch of text is either more of that text or a byte that seals it. */
  lemma {:induction false} TextGrows(node: Node, p: Blob, i: int, n: nat)
    requires Sealed(node, p) && InText(node, i, n)
    ensures 1 <= i && i + n < |Print(node)|
    ensures InText(node, i, n + 1) || Print(node)[i + n] !in p
    ensures InText(node, i - 1, n + 1) || Print(node)[i - 1] !in p
    decreases node, 1
  {
    match node
    case Str(text) => StrGrows(text, p, i, n);
    case Struct(version, fields) =>
      TextOfAnyGrows(fields, p, i - 5, n);
      StructGrows(version, fields, p, i, n);
    case List(items) =>
      TextOfAnyGrows(items, p, i - 4, n);
      ListGrows(items, p, i, n);
  }

  /** Next to bytes `i` to `i + n` of `body` is more text or a byte that seals it. */
  predicate GrowsIn(nodes: seq<Node>, body: Blob, p: Blob, i: int, n: nat) {
    && 1 <= i && i + n < |body|
    && (InTextOfAny(nodes, i, n + 1) || body[i + n] !in p)
    && (InTextOfAny(nodes, i - 1, n + 1) || body[i - 1] !in p)
  }

  lemma StructGrows(version: byte, fields: seq<Node>, p: Blob, i: int, n: nat)
    requires GrowsIn(fields, PrintAll(fields), p, i - 5, n)
    ensures var node := Struct(version, fields);
      && 1 <= i && i + n < |Print(node)|
      && (InText(node, i, n + 1) || Print(node)[i + n] !in p)
      && (InText(node, i - 1, n + 1) || Print(node)[i - 1] !in p)
  {
    StructPrints(version, fields);
    FrameGrows(Print(Struct(version, fields)), [version] + Le(|PrintAll(fields)|, 4), PrintAll(fields), p, i, n,
               InTextOfAny(fields, i - 5, n + 1), InTextOfAny(fields, i - 6, n + 1));
  }

  lemma ListGrows(items: seq<Node>, p: Blob, i: int, n: nat)
    requires GrowsIn(items, PrintAll(items), p, i - 4, n)
    ensures var node := List(items);
      && 1 <= i && i + n < |Print(node)|
      && (InText(node, i, n + 1) || Print(node)[i + n] !in p)
      && (InText(node, i - 1, n + 1) || Print(node)[i - 1] !in p)
  {
    FrameGrows(Print(List(items)), Le(|items|, 4), PrintAll(items), p, i, n,
               InTextOfAny(items, i - 4, n + 1), InTextOfAny(items, i - 5, n + 1));
  }

  /** What holds next to a stretch of the body holds behind the header. */
  lemma FrameGrows(s: Blob, head: Blob, body: Blob, p: Blob, i: int, n: nat, right: bool, left: bool)
    requires s == head + body && 1 <= i - |head| && i - |head| + n < |body|
    requires right || body[i - |head| + n] !in p
    requires left || body[i - |head| - 1] !in p
    ensures 1 <= i && i + n < |s| && (right || s[i + n] !in p) && (left || s[i - 1] !in p)
  {
    assert s[i + n] == body[i - |head| + n] && s[i - 1] == body[i - |head| - 1];
  }

  lemma {:induction false} TextOfAnyGrows(nodes: seq<Node>, p: Blob, i: int, n: nat)
    requires AllSealed(nodes, p) && InTextOfAny(nodes, i, n)
    ensures GrowsIn(nodes, PrintAll(nodes), p, i, n)
    decreases nodes, 0
  {
    if InText(nodes[0], i, n) {
      TextGrows(nodes[0], p, i, n);
    } else {
      TextOfAnyGrows(nodes[1..], p, i - |Print(nodes[0])|, n);
    }
  }

  /** An occurrence that touches a sealed text lies inside it. */
  lemma {:induction false} TouchesSoInside(node: Node, p: Blob, i: nat, j: nat, n: nat)
    requires Sealed(node, p) && OccursAt(Print(node), p, i)
    requires i <= j && j + n <= i + |p| && InText(node, j, n)
    ensures InText(node, i, |p|)
    decreases |p| - n
  {
    var s := Print(node);
    assert forall k :: i <= k < i + |p| ==> s[k] == s[i..i + |p|][k - i];
    if n < |p| {
      TextGrows(node, p, j, n);
      if j + n < i + |p| {
        TouchesSoInside(node, p, i, j, n + 1);
      } else {
        TouchesSoInside(node, p, i, j - 1, n + 1);
      }
    }
  }

  /** Rewriting texts makes no occurrence of a sealed pattern outside of them. */
  lemma OnlyInTextStays(node: Node, q: Blob, r: Blob, p: Blob)
    requires q != [] && |r| == |q| && p != []
    requires OnlyInText(node, p) && Sealed(node, p)
    ensures OnlyInText(Rewrite(node, q, r), p) && Sealed(Rewrite(node, q, r), p)
  {
    var node' := Rewrite(node, q, r);
    RewriteKeepsFrame(node, q, r, p, 0, 0);
    forall i | OccursAt(Print(node'), p, i)
      ensures InText(node', i, |p|)
    {
      if j :| i <= j < i + |p| && InText(node', j, 1) {
        TouchesSoInside(node', p, i, j, 1);
      } else {
        forall j | i <= j < i + |p|
          ensures Print(node')[j] == Print(node)[j]
        {
          RewriteKeepsFrame(node, q, r, p, j, 1);
        }
        assert Print(node)[i..i + |p|] == Print(node')[i..i + |p|];
        assert OccursAt(Print(node), p, i);
        RewriteKeepsFrame(node, q, r, p, i, |p|);
      }
    }
  }

  /** Every text is shorter than 8191 bytes. */
  predicate ShortTexts(node: Node)
    decreases node, 1
  {
    match node
    case Str(text) => |text| < 8191
    case Struct(_, fields) => AllShortTexts(fields)
    case List(items) => AllShortTexts(items)
    case _ => true
  }

  predicate AllShortTexts(nodes: seq<Node>)
    decreases nodes, 0
  {
    nodes == [] || (ShortTexts(nodes[0]) && AllShortTexts(nodes[1..]))
  }

  predicate Printable(p: Blob) {
    forall i :: 0 <= i < |p| ==> p[i] >= 32
  }

  /** For a printable pattern short texts are sealed: their high length bytes are control characters. */
  lemma {:induction false} ShortTextsAreSealed(node: Node, p: Blob)
    requires ShortTexts(node) && Printable(p)
    ensures Sealed(node, p)
    decreases node, 1
  {
    match node
    case Word(_, _) =>
    case Buf(_) =>
    case Str(text) => assert Le(|text| + 1, 2)[1] == (|text| + 1) / 256 < 32;
    case Struct(_, fields) => AllShortTextsAreSealed(fields, p);
    case List(items) => AllShortTextsAreSealed(items, p);
  }

  lemma {:induction false} AllShortTextsAreSealed(nodes: seq<Node>, p: Blob)
    requires AllShortTexts(nodes) && Printable(p)
    ensures AllSealed(nodes, p)
    decreases nodes, 0
  {
    if nodes != [] {
      ShortTextsAreSealed(nodes[0], p);
      AllShortTextsAreSealed(nodes[1..], p);
    }
  }

  lemma PrintCons(first: Node, rest: seq<Node>)
    ensures PrintAll([first] + rest) == Print(first) + PrintAll(rest)
  {
    assert ([first] + rest)[1..] == rest;
  }

  lemma ListLayout(text: Blob)
    ensures Print(List([Str(text)])) == [1, 0, 0, 0] + PutString(text)
  {
    WordLayout(1);
    PrintCons(Str(text), []);
    assert [Str(text)] + [] == [Str(text)];
    assert PutString(text) + PrintAll([]) == PutString(text);
  }

  /** Fields print one after the other, in a structure behind its version and the length of them all. */
  lemma StructLayout(version: byte, a: Node, b: Node, c: Node)
    ensures var body := Print(a) + (Print(b) + Print(c));
      Print(Struct(version, [a, b, c])) == [version] + (Le(|body|, 4) + body)
  {
    PrintCons(c, []);
    PrintCons(b, [c]);
    PrintCons(a, [b, c]);
    assert [a] + [b, c] == [a, b, c] && [b] + [c] == [b, c] && [c] + [] == [c];
    assert Print(c) + PrintAll([]) == Print(c);
  }

  /** A list of a text, a word and a buffer in a structure, byte for byte. */
  lemma NestedLayout(version: byte, text: Blob, n: nat, bytes: Blob)
    ensures var body := [1, 0, 0, 0] + (Le(|text| + 1, 2) + text + [0]) + ([n % 256, n / 256 % 256] + (Le(|bytes|, 4) + bytes));
      Print(Struct(version, [List([Str(text)]), Word(2, n), Buf(bytes)])) == [version] + (Le(|body|, 4) + body)
  {
    ListLayout(text);
    WordLayout(n);
    StructLayout(version, List([Str(text)]), Word(2, n), Buf(bytes));
  }
}
