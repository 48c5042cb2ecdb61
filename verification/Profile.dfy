/**
 The profile templates: one measured structure is kept as a byte-exact shell and only its identity
 fields are rewritten. A structure on the wire is [version u8][length u32][body].
 */
module Profile {
  import opened Bytes
  import opened Wire
  import MakerCode

  // ----- structures and their printed form -----

  function Frame(version: byte, body: Blob): (b: Blob) {
    [version] + PutBuffer(body)
  }

  /** The header length of `b` is the length of its body. */
  predicate IsFrame(b: Blob) {
    |b| >= 5 && UnLe(b[1..5]) == |b| - 5
  }

  /** sync_user_profile: the connected account's own profile. */
  datatype SyncProfile = SyncProfile(version: byte, pid: u64, name: Blob, tail: Blob) {
    function Body(): Blob {
      Le(pid, 8) + (PutString(name) + tail)
    }

    /** The identity fields: all of the body but the tail. */
    function Head(): Blob {
      Le(pid, 8) + PutString(name)
    }

    predicate Fits() {
      |name| <= MAX_STRING && |Body()| < 0x1_0000_0000
    }
  }

  /** One entry of get_users. */
  datatype UserInfo = UserInfo(version: byte, pid: u64, code: Blob, name: Blob, tail: Blob) {
    function Body(): Blob {
      Le(pid, 8) + (PutString(code) + (PutString(name) + tail))
    }

    /** The identity fields: all of the body but the tail. */
    function Head(): Blob {
      Le(pid, 8) + (PutString(code) + PutString(name))
    }

    predicate Fits() {
      |code| <= MAX_STRING && |name| <= MAX_STRING && |Body()| < 0x1_0000_0000
    }
  }

  // ----- strict parsers: the reader's own view of a printed structure -----

  function ParseSync(b: Blob): Option<SyncProfile> {
    if !IsFrame(b) || |b| < 13 || !HasString(b[13..]) then None
    else
      UnLeBound(b[5..13]);
      Pow256Values();
      var (name, tail) := ReadString(b[13..]);
      Some(SyncProfile(b[0], UnLe(b[5..13]), name, tail))
  }

  function ParseUser(b: Blob): Option<UserInfo> {
    if !IsFrame(b) || |b| < 13 || !HasString(b[13..]) then None
    else
      UnLeBound(b[5..13]);
      Pow256Values();
      var (code, r) := ReadString(b[13..]);
      if !HasString(r) then None
      else
        var (name, tail) := ReadString(r);
        Some(UserInfo(b[0], UnLe(b[5..13]), code, name, tail))
  }

  /** The header of a framed body is right exactly when the body fits it. */
  lemma {:induction false} FrameHeader(version: byte, body: Blob)
    ensures var b := Frame(version, body);
      |b| == 5 + |body| && b[0] == version && b[5..] == body && (IsFrame(b) <==> |body| < 0x1_0000_0000)
  {
    Pow256Values();
    var b := Frame(version, body);
    LeRoundTrip(|body|, 4);
    assert b[1..5] == Le(|body|, 4);
  }

  lemma {:induction false} LeadingPid(head: Blob, pid: u64, rest: Blob)
    ensures var b := head + (Le(pid, 8) + rest); var n := |head|;
      b[n..n + 8] == Le(pid, 8) && b[n + 8..] == rest && UnLe(Le(pid, 8)) == pid
  {
    Pow256Values();
    LeRoundTrip(pid, 8);
    var b, n := head + (Le(pid, 8) + rest), |head|;
    assert b[n..n + 8] == Le(pid, 8);
    assert b[n + 8..] == rest;
  }

  /** The framed bytes of a body that starts with a PID, cut up the way every parser cuts them. */
  lemma {:induction false} FrameParts(version: byte, pid: u64, rest: Blob)
    ensures var b := Frame(version, Le(pid, 8) + rest);
      && |b| == 13 + |rest| && b[0] == version
      && b[5..] == Le(pid, 8) + rest
      && b[5..13] == Le(pid, 8) && UnLe(b[5..13]) == pid && b[13..] == rest
      && (IsFrame(b) <==> 8 + |rest| < 0x1_0000_0000)
  {
    var body := Le(pid, 8) + rest;
    var b := Frame(version, body);
    FrameHeader(version, body);
    LeadingPid([version] + Le(|body|, 4), pid, rest);
    assert b == [version] + Le(|body|, 4) + body;
  }

  /** Printing and parsing gives a profile back exactly when it fits its length fields. */
  lemma SyncRoundTrip(p: SyncProfile)
    ensures ParseSync(Frame(p.version, p.Body())) == Some(p) <==> p.Fits()
  {
    FrameParts(p.version, p.pid, PutString(p.name) + p.tail);
    StringRoundTrip(p.name, p.tail);
  }

  lemma UserRoundTrip(u: UserInfo)
    ensures ParseUser(Frame(u.version, u.Body())) == Some(u) <==> u.Fits()
  {
    var rest := PutString(u.name) + u.tail;
    FrameParts(u.version, u.pid, PutString(u.code) + rest);
    StringRoundTrip(u.code, rest);
    StringRoundTrip(u.name, u.tail);
    StringTail(u.code, rest);
    if |u.code| > MAX_STRING {
      ShortRead(PutString(u.code) + rest, u.code);
    }
  }

  /** A string read back is never longer than its length field allows. */
  lemma ShortRead(s: Blob, v: Blob)
    requires |v| > MAX_STRING
    ensures ReadString(s).0 != v
  {
    Pow256Values();
    if |s| >= 2 {
      UnLeBound(s[..2]);
    }
  }

  // ----- what patching computes -----

  /** The bytes behind the identity fields, kept verbatim by the patch. */
  function SyncTail(tmpl: Blob): Blob
    requires |tmpl| >= 5
  {
    ReadString(ReadInt(tmpl[5..], 8).1).1
  }

  function UserTail(tmpl: Blob): Blob
    requires |tmpl| >= 5
  {
    ReadString(ReadString(ReadInt(tmpl[5..], 8).1).1).1
  }

  /** The profile a patched template stands for. */
  function Resynced(tmpl: Blob, pid: u64, name: Blob): SyncProfile
    requires |tmpl| >= 5
  {
    SyncProfile(tmpl[0], pid, name, SyncTail(tmpl))
  }

  function Reidentified(tmpl: Blob, pid: u64, name: Blob): UserInfo
    requires |tmpl| >= 5
  {
    UserInfo(tmpl[0], pid, MakerCode.Code(pid), name, UserTail(tmpl))
  }

  function PatchedSync(tmpl: Blob, pid: u64, name: Blob): Blob {
    if |tmpl| < 6 then tmpl else Frame(tmpl[0], Resynced(tmpl, pid, name).Body())
  }

  function PatchedUser(tmpl: Blob, pid: u64, name: Blob): Blob {
    if |tmpl| < 6 then tmpl else Frame(tmpl[0], Reidentified(tmpl, pid, name).Body())
  }

  method FrameStruct(version: byte, body: Blob) returns (b: Blob)
    ensures b == Frame(version, body)
  {
    var out := new StreamOut();
    out.Word(version, 1);
    out.Buffer(body);
    b := out.buf;
    assert Le(version, 1) == [version];
  }

  lemma SyncBodyInOrder(p: SyncProfile)
    ensures [] + Le(p.pid, 8) + PutString(p.name) + p.tail == p.Body()
  {
  }

  lemma UserBodyInOrder(u: UserInfo)
    ensures [] + Le(u.pid, 8) + PutString(u.code) + PutString(u.name) + u.tail == u.Body()
  {
  }

  method PatchSyncProfile(tmpl: Blob, pid: u64, pseudo: Blob) returns (b: Blob)
    ensures b == PatchedSync(tmpl, pid, pseudo)
  {
    if |tmpl| < 6 {
      return tmpl;
    }
    var src := new StreamIn(tmpl[5..]);
    var _ := src.ReadWord(8);
    var _ := src.ReadText();
    var rest := src.ReadAll();

    var out := new StreamOut();
    out.Word(pid, 8);
    out.String(pseudo);
    out.Write(rest);
    SyncBodyInOrder(SyncProfile(tmpl[0], pid, pseudo, rest));
    b := FrameStruct(tmpl[0], out.buf);
  }

  method PatchUserInfo(tmpl: Blob, pid: u64, name: Blob) returns (b: Blob)
    ensures b == PatchedUser(tmpl, pid, name)
  {
    if |tmpl| < 6 {
      return tmpl;
    }
    var src := new StreamIn(tmpl[5..]);
    var _ := src.ReadWord(8);
    var _ := src.ReadText();
    var _ := src.ReadText();
    var rest := src.ReadAll();

    var out := new StreamOut();
    out.Word(pid, 8);
    var code := MakerCode.MakeCode(pid);
    out.String(code);
    out.String(name);
    out.Write(rest);
    UserBodyInOrder(UserInfo(tmpl[0], pid, code, name, rest));
    b := FrameStruct(tmpl[0], out.buf);
  }

  // ----- the lens laws -----

  /** A parsed template keeps its version and tail under the patch. */
  lemma TailOfParsed(tmpl: Blob)
    requires |tmpl| >= 6
    ensures ParseSync(tmpl).Some? ==> ParseSync(tmpl).value.tail == SyncTail(tmpl) && ParseSync(tmpl).value.version == tmpl[0]
    ensures ParseUser(tmpl).Some? ==> ParseUser(tmpl).value.tail == UserTail(tmpl) && ParseUser(tmpl).value.version == tmpl[0]
  {
    if |tmpl| >= 13 {
      assert tmpl[5..][8..] == tmpl[13..];
    }
  }

  /** What was put is read back exactly when it fits, and then nothing else of the profile changed. */
  lemma SyncPutGet(tmpl: Blob, pid: u64, name: Blob)
    requires |tmpl| >= 6
    ensures ParseSync(PatchedSync(tmpl, pid, name)) == Some(Resynced(tmpl, pid, name)) <==> Resynced(tmpl, pid, name).Fits()
    ensures ParseSync(tmpl).Some? ==> Resynced(tmpl, pid, name) == ParseSync(tmpl).value.(pid := pid, name := name)
  {
    SyncRoundTrip(Resynced(tmpl, pid, name));
    TailOfParsed(tmpl);
  }

  lemma {:induction false} UserPutGet(tmpl: Blob, pid: u64, name: Blob)
    requires |tmpl| >= 6
    ensures ParseUser(PatchedUser(tmpl, pid, name)) == Some(Reidentified(tmpl, pid, name)) <==> Reidentified(tmpl, pid, name).Fits()
    ensures ParseUser(tmpl).Some? ==>
      Reidentified(tmpl, pid, name) == ParseUser(tmpl).value.(pid := pid, code := MakerCode.Code(pid), name := name)
  {
    UserRoundTrip(Reidentified(tmpl, pid, name));
    TailOfParsed(tmpl);
  }

  lemma PatchedTails(tmpl: Blob, pid: u64, name: Blob)
    requires |tmpl| >= 6
    ensures var b := PatchedSync(tmpl, pid, name);
      |b| >= 13 && b[0] == tmpl[0] && (SyncTail(b) == SyncTail(tmpl) <==> |name| <= MAX_STRING)
    ensures var b := PatchedUser(tmpl, pid, name);
      |b| >= 13 && b[0] == tmpl[0] && (UserTail(b) == UserTail(tmpl) <==> |name| <= MAX_STRING)
  {
    var p, u := Resynced(tmpl, pid, name), Reidentified(tmpl, pid, name);
    FrameParts(p.version, pid, PutString(name) + p.tail);
    StringTail(name, p.tail);
    FrameParts(u.version, pid, PutString(u.code) + (PutString(name) + u.tail));
    StringTail(u.code, PutString(name) + u.tail);
    StringTail(name, u.tail);
    assert PatchedSync(tmpl, pid, name)[5..][8..] == PutString(name) + p.tail;
    assert PatchedUser(tmpl, pid, name)[5..][8..] == PutString(u.code) + (PutString(name) + u.tail);
  }

  lemma SameHeadSameTail(version: byte, head: Blob, tail: Blob, tail': Blob)
    ensures Frame(version, head + tail) == Frame(version, head + tail') <==> tail == tail'
  {
    var a, b := Frame(version, head + tail), Frame(version, head + tail');
    assert a[5..] == head + tail && b[5..] == head + tail';
    assert (head + tail)[|head|..] == tail && (head + tail')[|head|..] == tail';
  }

  /** Two profiles with the same identity print alike exactly when their tails are alike. */
  lemma SyncSameTail(p: SyncProfile, tail: Blob)
    ensures Frame(p.version, p.Body()) == Frame(p.version, p.(tail := tail).Body()) <==> p.tail == tail
  {
    var q := p.(tail := tail);
    assert p.Body() == p.Head() + p.tail;
    assert q.Body() == q.Head() + tail;
    SameHeadSameTail(p.version, p.Head(), p.tail, tail);
  }

  lemma UserSameTail(u: UserInfo, tail: Blob)
    ensures Frame(u.version, u.Body()) == Frame(u.version, u.(tail := tail).Body()) <==> u.tail == tail
  {
    var v := u.(tail := tail);
    assert u.Body() == u.Head() + u.tail;
    assert v.Body() == v.Head() + tail;
    SameHeadSameTail(u.version, u.Head(), u.tail, tail);
  }

  /** Patching twice is the last patch alone exactly when the first name fits its string field; the template may hold anything. */
  lemma {:induction false} SyncPutPut(tmpl: Blob, pid: u64, name: Blob, pid': u64, name': Blob)
    ensures PatchedSync(PatchedSync(tmpl, pid, name), pid', name') == PatchedSync(tmpl, pid', name')
       <==> |tmpl| < 6 || |name| <= MAX_STRING
  {
    if |tmpl| >= 6 {
      PatchedTails(tmpl, pid, name);
      var b := PatchedSync(tmpl, pid, name);
      SyncSameTail(Resynced(b, pid', name'), SyncTail(tmpl));
    }
  }

  lemma {:induction false} UserPutPut(tmpl: Blob, pid: u64, name: Blob, pid': u64, name': Blob)
    ensures PatchedUser(PatchedUser(tmpl, pid, name), pid', name') == PatchedUser(tmpl, pid', name')
       <==> |tmpl| < 6 || |name| <= MAX_STRING
  {
    if |tmpl| >= 6 {
      PatchedTails(tmpl, pid, name);
      var b := PatchedUser(tmpl, pid, name);
      UserSameTail(Reidentified(b, pid', name'), UserTail(tmpl));
    }
  }

  /** Putting back what a printed profile already says changes no byte, exactly when its name fits. */
  lemma SyncGetPut(p: SyncProfile)
    ensures PatchedSync(Frame(p.version, p.Body()), p.pid, p.name) == Frame(p.version, p.Body()) <==> |p.name| <= MAX_STRING
  {
    var b := Frame(p.version, p.Body());
    FrameParts(p.version, p.pid, PutString(p.name) + p.tail);
    assert b[5..][8..] == PutString(p.name) + p.tail;
    StringTail(p.name, p.tail);
    SyncSameTail(p, SyncTail(b));
  }

  /** For a user entry whose strings fit, exactly when it already carried the derived maker code. */
  lemma {:induction false} UserGetPut(u: UserInfo)
    requires |u.code| <= MAX_STRING && |u.name| <= MAX_STRING
    ensures PatchedUser(Frame(u.version, u.Body()), u.pid, u.name) == Frame(u.version, u.Body())
       <==> u.code == MakerCode.Code(u.pid)
  {
    var b, rest := Frame(u.version, u.Body()), PutString(u.name) + u.tail;
    FrameParts(u.version, u.pid, PutString(u.code) + rest);
    assert b[5..][8..] == PutString(u.code) + rest;
    StringTail(u.code, rest);
    StringTail(u.name, u.tail);
    SameCodeSameBody(u, MakerCode.Code(u.pid));
  }

  lemma SameCodeSameBody(u: UserInfo, code: Blob)
    requires |u.code| <= MAX_STRING && |code| <= MAX_STRING
    ensures Frame(u.version, u.(code := code).Body()) == Frame(u.version, u.Body()) <==> u.code == code
  {
    var a, b := PutString(u.code) + (PutString(u.name) + u.tail), PutString(code) + (PutString(u.name) + u.tail);
    FrameParts(u.version, u.pid, a);
    FrameParts(u.version, u.pid, b);
    StringRoundTrip(u.code, PutString(u.name) + u.tail);
    StringRoundTrip(code, PutString(u.name) + u.tail);
  }

  // ----- byte for byte -----

  lemma UserTailOnWire(tmpl: Blob, oldPid: u64, oldCode: Blob, oldName: Blob, tail: Blob)
    requires |oldCode| <= MAX_STRING && |oldName| <= MAX_STRING
    requires |tmpl| >= 5 && tmpl[5..] == Le(oldPid, 8) + (PutString(oldCode) + (PutString(oldName) + tail))
    ensures |tmpl| >= 6 && UserTail(tmpl) == tail
  {
    var rest := PutString(oldName) + tail;
    assert tmpl[5..][8..] == PutString(oldCode) + rest;
    StringTail(oldCode, rest);
    StringTail(oldName, tail);
  }

  /** Version, length, PID, code, name and tail, one behind the other. */
  function UserOnWire(version: byte, pid: u64, code: Blob, name: Blob, tail: Blob): Blob {
    [version] + (Le(14 + |code| + |name| + |tail|, 4)
      + (Le(pid, 8) + ((Le(|code| + 1, 2) + code + [0]) + ((Le(|name| + 1, 2) + name + [0]) + tail))))
  }

  function SyncOnWire(version: byte, pid: u64, name: Blob, tail: Blob): Blob {
    [version] + (Le(11 + |name| + |tail|, 4) + (Le(pid, 8) + ((Le(|name| + 1, 2) + name + [0]) + tail)))
  }

  lemma OnWire(u: UserInfo, p: SyncProfile)
    ensures Frame(u.version, u.Body()) == UserOnWire(u.version, u.pid, u.code, u.name, u.tail)
    ensures Frame(p.version, p.Body()) == SyncOnWire(p.version, p.pid, p.name, p.tail)
  {
    assert |u.Body()| == 14 + |u.code| + |u.name| + |u.tail|;
    assert |p.Body()| == 11 + |p.name| + |p.tail|;
  }

  /** A measured entry, byte for byte, and what patching makes of it: length, PID, code and name are new, version and tail stay. */
  lemma {:induction false} UserPatchOnWire(tmpl: Blob, oldPid: u64, oldCode: Blob, oldName: Blob, tail: Blob,
                                           pid: u64, code: Blob, name: Blob)
    requires |oldCode| <= MAX_STRING && |oldName| <= MAX_STRING && code == MakerCode.Code(pid)
    requires |tmpl| >= 5 && tmpl[5..] == Le(oldPid, 8) + (PutString(oldCode) + (PutString(oldName) + tail))
    ensures PatchedUser(tmpl, pid, name) == UserOnWire(tmpl[0], pid, code, name, tail)
  {
    UserTailOnWire(tmpl, oldPid, oldCode, oldName, tail);
    OnWire(UserInfo(tmpl[0], pid, code, name, tail), SyncProfile(0, 0, [], []));
  }

  lemma SyncTailOnWire(tmpl: Blob, oldPid: u64, oldName: Blob, tail: Blob)
    requires |oldName| <= MAX_STRING
    requires |tmpl| >= 5 && tmpl[5..] == Le(oldPid, 8) + (PutString(oldName) + tail)
    ensures |tmpl| >= 6 && SyncTail(tmpl) == tail
  {
    assert tmpl[5..][8..] == PutString(oldName) + tail;
    StringTail(oldName, tail);
  }

  lemma {:induction false} SyncPatchOnWire(tmpl: Blob, oldPid: u64, oldName: Blob, tail: Blob, pid: u64, name: Blob)
    requires |oldName| <= MAX_STRING
    requires |tmpl| >= 5 && tmpl[5..] == Le(oldPid, 8) + (PutString(oldName) + tail)
    ensures PatchedSync(tmpl, pid, name) == SyncOnWire(tmpl[0], pid, name, tail)
  {
    SyncTailOnWire(tmpl, oldPid, oldName, tail);
    OnWire(UserInfo(0, 0, [], [], []), SyncProfile(tmpl[0], pid, name, tail));
  }

  /** A template of five bytes or fewer is sent as it is. */
  lemma ShortTemplatesStay(tmpl: Blob, pid: u64, name: Blob)
    ensures |tmpl| <= 5 ==> PatchedUser(tmpl, pid, name) == tmpl == PatchedSync(tmpl, pid, name)
    ensures |tmpl| == 6 ==> |PatchedUser(tmpl, pid, name)| > 6 && |PatchedSync(tmpl, pid, name)| > 6
  {
    if |tmpl| == 6 {
      PatchedTails(tmpl, pid, name);
    }
  }
}
