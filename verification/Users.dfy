/**
 get_users: the shells are carved once out of a measured list<UserInfo> + list<result>, and every
 request is answered with one freshly identified copy of the shell per requested PID.
 */
module Users {
  import opened Bytes
  import opened Wire
  import opened Profile
  import Decimal

  // ----- the measured blob and its parser -----

  predicate AllFrames(users: seq<Blob>) {
    forall i :: 0 <= i < |users| ==> IsFrame(users[i])
  }

  predicate AllWords(results: seq<Blob>) {
    forall i :: 0 <= i < |results| ==> |results[i]| == 4
  }

  /** list<UserInfo> followed by list<result>. */
  function PrintUsers(users: seq<Blob>, results: seq<Blob>): Blob {
    Le(|users|, 4) + Flatten(users) + (Le(|results|, 4) + Flatten(results))
  }

  function TakeFrames(s: Blob, n: nat): Option<(seq<Blob>, Blob)> {
    if n == 0 then Some(([], s))
    else if |s| < 5 || |s| - 5 < UnLe(s[1..5]) then None
    else
      var size := 5 + UnLe(s[1..5]);
      match TakeFrames(s[size..], n - 1)
      case None => None
      case Some((users, rest)) => Some(([s[..size]] + users, rest))
  }

  function TakeWords(s: Blob, n: nat): Option<(seq<Blob>, Blob)> {
    if n == 0 then Some(([], s))
    else if |s| < 4 then None
    else
      match TakeWords(s[4..], n - 1)
      case None => None
      case Some((words, rest)) => Some(([s[..4]] + words, rest))
  }

  /** The client's view: both lists, and nothing left over. */
  function ParseUsers(s: Blob): Option<(seq<Blob>, seq<Blob>)> {
    if |s| < 4 then None
    else
      match TakeFrames(s[4..], UnLe(s[..4]))
      case None => None
      case Some((users, r)) =>
        if |r| < 4 then None
        else
          match TakeWords(r[4..], UnLe(r[..4]))
          case None => None
          case Some((results, rest)) => if rest == [] then Some((users, results)) else None
  }

  lemma FrameInFront(u: Blob, rest: Blob)
    requires IsFrame(u)
    ensures var s := u + rest; s[1..5] == u[1..5] && s[..|u|] == u && s[|u|..] == rest
  {
  }

  lemma {:induction false} TakePrintedFrames(users: seq<Blob>, rest: Blob)
    requires AllFrames(users)
    ensures TakeFrames(Flatten(users) + rest, |users|) == Some((users, rest))
  {
    if users == [] {
      assert Flatten(users) + rest == rest;
    } else {
      var s := Flatten(users) + rest;
      var u := users[0];
      assert s == u + (Flatten(users[1..]) + rest);
      FrameInFront(u, Flatten(users[1..]) + rest);
      TakePrintedFrames(users[1..], rest);
      assert users == [u] + users[1..];
    }
  }

  lemma {:induction false} TakePrintedWords(results: seq<Blob>, rest: Blob)
    requires AllWords(results)
    ensures TakeWords(Flatten(results) + rest, |results|) == Some((results, rest))
  {
    if results == [] {
      assert Flatten(results) + rest == rest;
    } else {
      var s := Flatten(results) + rest;
      var w := results[0];
      assert s == w + (Flatten(results[1..]) + rest);
      assert s[..4] == w && s[4..] == Flatten(results[1..]) + rest;
      TakePrintedWords(results[1..], rest);
      assert results == [w] + results[1..];
    }
  }

  lemma ListHead(n: nat, items: Blob)
    requires n < 0x1_0000_0000
    ensures (Le(n, 4) + items)[..4] == Le(n, 4) && (Le(n, 4) + items)[4..] == items && UnLe(Le(n, 4)) == n
  {
    Pow256Values();
    LeRoundTrip(n, 4);
  }

  lemma UsersRoundTrip(users: seq<Blob>, results: seq<Blob>)
    requires AllFrames(users) && AllWords(results)
    requires |users| < 0x1_0000_0000 && |results| < 0x1_0000_0000
    ensures ParseUsers(PrintUsers(users, results)) == Some((users, results))
  {
    var tail := Le(|results|, 4) + Flatten(results);
    assert PrintUsers(users, results) == Le(|users|, 4) + (Flatten(users) + tail);
    ListHead(|users|, Flatten(users) + tail);
    TakePrintedFrames(users, tail);
    ListHead(|results|, Flatten(results));
    assert Flatten(results) + [] == Flatten(results);
    TakePrintedWords(results, []);
  }

  // ----- carving -----

  /** Where the cursor stands after at most `k` self-framed entries; None when one runs past the end. */
  function Walk(m: Blob, p: nat, k: nat): (end: Option<nat>)
    requires p <= |m|
    ensures end.Some? ==> p <= end.value <= |m|
    decreases k
  {
    if k == 0 || p + 5 > |m| then Some(p)
    else
      var end := p + 5 + UnLe(m[p + 1..p + 5]);
      if end > |m| then None else Walk(m, end, k - 1)
  }

  /** The user shell after carving `m` when it was `was` before. */
  function CarvedUser(m: Blob, was: Blob): Blob {
    if |m| < 9 || UnLe(m[..4]) == 0 || 9 + UnLe(m[5..9]) > |m| then was
    else m[4..9 + UnLe(m[5..9])]
  }

  /** The result shell after carving `m` when it was `was` before. */
  function CarvedResult(m: Blob, was: Blob): Blob {
    if |m| < 4 then was
    else
      match Walk(m, 4, UnLe(m[..4]))
      case None => was
      case Some(p) => if p + 8 <= |m| then m[p + 4..p + 8] else was
  }

  class Templates {
    var userInfo: Blob
    var result: Blob

    constructor ()
      ensures userInfo == [] && result == []
    {
      userInfo, result := [], [];
    }

    /** Every byte string is accepted; a blob that is cut short leaves behind what was found before the cut. */
    method Carve(m: Blob)
      modifies this
      ensures userInfo == CarvedUser(m, old(userInfo))
      ensures result == CarvedResult(m, old(result))
    {
      if |m| < 4 {
        return;
      }
      var count := UnLe(m[..4]);
      var p := 4;
      var i := 0;
      while i < count && p + 5 <= |m|
        invariant i <= count && 4 <= p <= |m|
        invariant Walk(m, p, count - i) == Walk(m, 4, count)
        invariant i == 0 ==> p == 4 && userInfo == old(userInfo)
        invariant i > 0 ==> userInfo == CarvedUser(m, old(userInfo))
        invariant result == old(result)
      {
        var bodyLen := UnLe(m[p + 1..p + 5]);
        var end := p + 5 + bodyLen;
        if end > |m| {
          return;
        }
        if i == 0 {
          userInfo := m[p..end];
        }
        p := p + 5 + bodyLen;
        i := i + 1;
      }
      if p + 8 <= |m| {
        result := m[p + 4..p + 8];
      }
    }

    /** get_users: `resolved(i)` is what the account service answers to the i-th name lookup, empty when it has none. */
    method GetUsers(connPid: u64, request: Blob, resolved: nat -> Blob) returns (answer: Blob)
      ensures answer == Answer(userInfo, result, RequestPids(request, connPid), resolved)
    {
      var pids := ParseRequest(request, connPid);
      var out := new StreamOut();
      out.Word(|pids|, 4);
      WriteUsers(out, userInfo, pids, resolved);
      out.Word(|pids|, 4);
      WriteCopies(out, result, |pids|);
      answer := out.buf;
      PrintUsersInOrder(Patched(userInfo, pids, resolved), Copies(result, |pids|));
    }
  }

  lemma PrintUsersInOrder(users: seq<Blob>, results: seq<Blob>)
    ensures [] + Le(|users|, 4) + Flatten(users) + Le(|results|, 4) + Flatten(results) == PrintUsers(users, results)
  {
  }

  method WriteUsers(out: StreamOut, userTpl: Blob, pids: seq<u64>, resolved: nat -> Blob)
    modifies out
    ensures out.buf == old(out.buf) + Flatten(Patched(userTpl, pids, resolved))
  {
    ghost var users := Patched(userTpl, pids, resolved);
    for i := 0 to |pids|
      invariant out.buf + Flatten(users[i..]) == old(out.buf) + Flatten(users)
    {
      var user := PatchUserInfo(userTpl, pids[i], PseudoOr(resolved(i), pids[i]));
      FlattenFrom(users, i, out.buf);
      assert user == users[i];
      out.Write(user);
    }
  }

  method WriteCopies(out: StreamOut, part: Blob, n: nat)
    modifies out
    ensures out.buf == old(out.buf) + Flatten(Copies(part, n))
  {
    ghost var copies := Copies(part, n);
    for i := 0 to n
      invariant out.buf + Flatten(copies[i..]) == old(out.buf) + Flatten(copies)
    {
      FlattenFrom(copies, i, out.buf);
      out.Write(part);
    }
  }

  /** Moving the next part from what is left to what is written. */
  lemma FlattenFrom(parts: seq<Blob>, i: nat, written: Blob)
    requires i < |parts|
    ensures written + Flatten(parts[i..]) == (written + parts[i]) + Flatten(parts[i + 1..])
  {
    assert parts[i..][1..] == parts[i + 1..];
  }

  lemma {:induction false} WalkPrinted(head: Blob, users: seq<Blob>, tail: Blob)
    requires AllFrames(users)
    decreases users
    ensures Walk(head + Flatten(users) + tail, |head|, |users|) == Some(|head| + |Flatten(users)|)
  {
    if users != [] {
      var u := users[0];
      var m := head + Flatten(users) + tail;
      assert m == (head + u) + Flatten(users[1..]) + tail;
      assert m[|head| + 1..|head| + 5] == u[1..5];
      WalkPrinted(head + u, users[1..], tail);
    }
  }

  /** Carving a printed list with at least one user and one result yields exactly their bytes. */
  lemma CarveInvertsPrinting(users: seq<Blob>, results: seq<Blob>, wasUser: Blob, wasResult: Blob)
    requires AllFrames(users) && AllWords(results)
    requires 0 < |users| < 0x1_0000_0000 && 0 < |results|
    ensures CarvedUser(PrintUsers(users, results), wasUser) == users[0]
    ensures CarvedResult(PrintUsers(users, results), wasResult) == results[0]
  {
    Pow256Values();
    var m := PrintUsers(users, results);
    var head, tail := Le(|users|, 4), Le(|results|, 4) + Flatten(results);
    LeRoundTrip(|users|, 4);
    assert m == head + users[0] + (Flatten(users[1..]) + tail);
    assert m[..4] == head && m[5..9] == users[0][1..5] && m[4..4 + |users[0]|] == users[0];
    WalkPrinted(head, users, tail);
    var p := 4 + |Flatten(users)|;
    assert m[p..] == tail;
    assert m[p + 4..p + 8] == tail[4..8] == results[0];
  }

  /** The cursor and the client's parser stop at the same place, or neither leaves room for a result list. */
  lemma {:induction false} WalkIsTake(m: Blob, p: nat, k: nat)
    requires p <= |m|
    ensures match TakeFrames(m[p..], k)
      case None => Walk(m, p, k) == None || |m| - Walk(m, p, k).value < 5
      case Some((_, rest)) => |rest| <= |m| - p && rest == m[|m| - |rest|..] && Walk(m, p, k) == Some(|m| - |rest|)
    decreases k
  {
    if k > 0 && p + 5 <= |m| {
      assert m[p..][1..5] == m[p + 1..p + 5];
      var end := p + 5 + UnLe(m[p + 1..p + 5]);
      if end <= |m| {
        assert m[p..][end - p..] == m[end..];
        WalkIsTake(m, end, k - 1);
      }
    }
  }

  /** The users a client finds at the head of a blob, and the bytes behind them. */
  function Listed(m: Blob, n: nat): Option<(seq<Blob>, Blob)> {
    if |m| < 4 then None else TakeFrames(m[4..], n)
  }

  function Announced(m: Blob): nat {
    if |m| < 4 then 0 else UnLe(m[..4])
  }

  /**
   What carving any byte string leaves, in terms of the client's own parser: the user shell becomes the first user
   exactly when one is announced and there; the result shell becomes the four bytes behind the count of the results
   exactly when all announced users are there with eight bytes behind them. Otherwise a shell stays what it was.
   */
  lemma {:induction false} CarveFindsWhatParses(m: Blob, wasUser: Blob, wasResult: Blob)
    ensures var users := Listed(m, 1);
      CarvedUser(m, wasUser) == if Announced(m) > 0 && users.Some? then users.value.0[0] else wasUser
    ensures var all := Listed(m, Announced(m));
      CarvedResult(m, wasResult) == if all.Some? && |all.value.1| >= 8 then all.value.1[4..8] else wasResult
  {
    if |m| >= 4 {
      WalkIsTake(m, 4, Announced(m));
      if |m| >= 9 {
        assert m[4..][1..5] == m[5..9];
        var size := 5 + UnLe(m[5..9]);
        if size <= |m| - 4 {
          assert TakeFrames(m[4..][size..], 0) == Some(([], m[4..][size..]));
          assert TakeFrames(m[4..], 1) == Some(([m[4..][..size]] + [], m[4..][size..]));
          assert m[4..][..size] == m[4..4 + size];
        }
      }
    }
  }

  /** A list cut inside its second entry still yields the user shell, but no result shell. */
  lemma CarveOfCutList(user: Blob, cut: Blob, count: nat, wasUser: Blob, wasResult: Blob)
    requires IsFrame(user) && 2 <= count < 0x1_0000_0000
    requires 5 <= |cut| < 5 + UnLe(cut[1..5])
    ensures CarvedUser(Le(count, 4) + user + cut, wasUser) == user
    ensures CarvedResult(Le(count, 4) + user + cut, wasResult) == wasResult
  {
    Pow256Values();
    var m := Le(count, 4) + user + cut;
    LeRoundTrip(count, 4);
    assert m[..4] == Le(count, 4) && m[5..9] == user[1..5] && m[4..4 + |user|] == user;
    var p := 4 + |user|;
    SliceBehind(Le(count, 4) + user, cut, 1, 4);
    assert Walk(m, p, count - 1) == None;
    assert m[4 + 1..4 + 5] == user[1..5] && 4 + 5 + UnLe(user[1..5]) == p;
    assert Walk(m, 4, count) == Walk(m, p, count - 1);
  }

  // ----- the request -----

  function TakePids(s: Blob, n: nat): (pids: seq<u64>)
    ensures |pids| == n
    decreases n
  {
    if n == 0 then []
    else
      Pow256Values();
      ReadIntBound(s, 8);
      var (pid, rest) := ReadInt(s, 8);
      [pid] + TakePids(rest, n - 1)
  }

  /** The requested PIDs; the caller's own when the list is empty or implausibly long. */
  function RequestPids(request: Blob, connPid: u64): (pids: seq<u64>)
    ensures 1 <= |pids| <= 256
  {
    var sub := ReadBuffer(ReadInt(request, 1).1).0;
    var (n, list) := ReadInt(sub, 4);
    if n == 0 || n > 256 then [connPid] else TakePids(list, n)
  }

  method ParseRequest(request: Blob, connPid: u64) returns (pids: seq<u64>)
    ensures pids == RequestPids(request, connPid)
  {
    var src := new StreamIn(request);
    var _ := src.ReadWord(1);
    var body := src.ReadSub();
    var sub := new StreamIn(body);
    var n := sub.ReadWord(4);
    if n == 0 || n > 256 {
      return [connPid];
    }
    pids := ReadPids(sub, n);
  }

  method ReadPids(src: StreamIn, n: nat) returns (pids: seq<u64>)
    requires src.Valid()
    modifies src
    ensures src.Valid() && pids == TakePids(old(src.Rest()), n)
  {
    pids := [];
    for i := 0 to n
      invariant src.Valid()
      invariant pids + TakePids(src.Rest(), n - i) == TakePids(old(src.Rest()), n)
    {
      Pow256Values();
      var pid := src.ReadWord(8);
      pids := pids + [pid];
    }
  }

  function PrintPids(pids: seq<u64>): Blob {
    if pids == [] then [] else Le(pids[0], 8) + PrintPids(pids[1..])
  }

  lemma {:induction false} PrintPidsLength(pids: seq<u64>)
    ensures |PrintPids(pids)| == 8 * |pids|
  {
    if pids != [] {
      PrintPidsLength(pids[1..]);
    }
  }

  lemma {:induction false} TakePrintedPids(pids: seq<u64>, rest: Blob)
    ensures TakePids(PrintPids(pids) + rest, |pids|) == pids
  {
    if pids != [] {
      Pow256Values();
      assert PrintPids(pids) + rest == Le(pids[0], 8) + (PrintPids(pids[1..]) + rest);
      Wire.IntRoundTrip(pids[0], 8, PrintPids(pids[1..]) + rest);
      TakePrintedPids(pids[1..], rest);
    }
  }

  /** A well-formed request for 1 to 256 PIDs is read as exactly those PIDs. */
  lemma {:induction false} RequestRoundTrip(version: byte, pids: seq<u64>, option: u32, connPid: u64)
    requires 1 <= |pids| <= 256
    ensures RequestPids([version] + PutBuffer(Le(|pids|, 4) + (PrintPids(pids) + Le(option, 4))), connPid) == pids
  {
    Pow256Values();
    var body := Le(|pids|, 4) + (PrintPids(pids) + Le(option, 4));
    var request := [version] + PutBuffer(body);
    assert request[1..] == PutBuffer(body) + [];
    PrintPidsLength(pids);
    BufferRoundTrip(body, []);
    Wire.IntRoundTrip(|pids|, 4, PrintPids(pids) + Le(option, 4));
    TakePrintedPids(pids, Le(option, 4));
  }

  /** A request whose count is zero or above 256 is read as a request for the caller itself, whatever follows. */
  lemma ImplausibleRequest(version: byte, count: u32, list: Blob, connPid: u64)
    requires count == 0 || count > 256
    requires 4 + |list| < 0x1_0000_0000
    ensures RequestPids([version] + PutBuffer(Le(count, 4) + list), connPid) == [connPid]
  {
    Pow256Values();
    var body := Le(count, 4) + list;
    assert ([version] + PutBuffer(body))[1..] == PutBuffer(body) + [];
    BufferRoundTrip(body, []);
    Wire.IntRoundTrip(count, 4, list);
  }

  // ----- the answer -----

  /** The resolved name, or a fallback made from the PID; never empty. */
  function PseudoOr(resolved: Blob, pid: u64): (name: Blob)
    ensures name != [] && (resolved != [] ==> name == resolved)
  {
    if resolved != [] then resolved else Text("Nextendo") + Decimal.PrintUint(pid % 1000000)
  }

  /** The fallback is "Nextendo" and the last six digits of the PID as a number. */
  lemma FallbackName(pid: u64)
    ensures PseudoOr([], pid)[..8] == Text("Nextendo")
    ensures Decimal.ParseUint(PseudoOr([], pid)[8..]) == Some(pid % 1_000_000)
    ensures |PseudoOr([], pid)| <= 14
  {
    var digits := Decimal.PrintUint(pid % 1000000);
    assert PseudoOr([], pid)[8..] == digits;
    Decimal.UintRoundTrip(pid % 1000000);
    Decimal.DigitCount(pid % 1000000, 6);
  }

  function Patched(userTpl: Blob, pids: seq<u64>, resolved: nat -> Blob): (users: seq<Blob>)
    ensures |users| == |pids|
  {
    seq(|pids|, i requires 0 <= i < |pids| => PatchedUser(userTpl, pids[i], PseudoOr(resolved(i), pids[i])))
  }

  function Copies(part: Blob, n: nat): (copies: seq<Blob>)
    ensures |copies| == n && forall i :: 0 <= i < n ==> copies[i] == part
  {
    seq(n, _ => part)
  }

  function Answer(userTpl: Blob, resultTpl: Blob, pids: seq<u64>, resolved: nat -> Blob): Blob {
    PrintUsers(Patched(userTpl, pids, resolved), Copies(resultTpl, |pids|))
  }

  /** The answer's entry for `pid` is a frame: a shell of five bytes is sent as it is, a longer one with a body put together. */
  predicate Framed(userTpl: Blob, pid: u64, name: Blob) {
    if |userTpl| < 6 then IsFrame(userTpl) else |Reidentified(userTpl, pid, name).Body()| < 0x1_0000_0000
  }

  ghost predicate AllFramed(userTpl: Blob, pids: seq<u64>, resolved: nat -> Blob) {
    forall i :: 0 <= i < |pids| ==> Framed(userTpl, pids[i], PseudoOr(resolved(i), pids[i]))
  }

  lemma {:induction false} PatchedAreFramesIff(userTpl: Blob, pids: seq<u64>, resolved: nat -> Blob)
    ensures AllFrames(Patched(userTpl, pids, resolved)) <==> AllFramed(userTpl, pids, resolved)
  {
    var users := Patched(userTpl, pids, resolved);
    forall i | 0 <= i < |pids|
      ensures IsFrame(users[i]) <==> Framed(userTpl, pids[i], PseudoOr(resolved(i), pids[i]))
    {
      if |userTpl| >= 6 {
        FrameHeader(userTpl[0], Reidentified(userTpl, pids[i], PseudoOr(resolved(i), pids[i])).Body());
      }
    }
  }

  lemma {:induction false} TakenAreFrames(s: Blob, n: nat)
    ensures TakeFrames(s, n).Some? ==> AllFrames(TakeFrames(s, n).value.0)
  {
    if n > 0 && |s| >= 5 && |s| - 5 >= UnLe(s[1..5]) {
      var size := 5 + UnLe(s[1..5]);
      var user := s[..size];
      assert |user| == size >= 5 && user[1..5] == s[1..5];
      assert IsFrame(user);
      TakenAreFrames(s[size..], n - 1);
    }
  }

  lemma {:induction false} TakenAreWords(s: Blob, n: nat)
    ensures TakeWords(s, n).Some? ==> AllWords(TakeWords(s, n).value.0)
  {
    if n > 0 && |s| >= 4 {
      TakenAreWords(s[4..], n - 1);
    }
  }

  /** A client only ever gets frames and four-byte results out of an answer. */
  lemma ParsedIsWellFormed(s: Blob)
    ensures ParseUsers(s).Some? ==> AllFrames(ParseUsers(s).value.0) && AllWords(ParseUsers(s).value.1)
  {
    if ParseUsers(s).Some? {
      TakenAreFrames(s[4..], UnLe(s[..4]));
      var r := TakeFrames(s[4..], UnLe(s[..4])).value.1;
      TakenAreWords(r[4..], UnLe(r[..4]));
    }
  }

  lemma {:induction false} CopiesLength(part: Blob, n: nat)
    ensures |Flatten(Copies(part, n))| == n * |part|
  {
    if n > 0 {
      var copies := Copies(part, n);
      assert copies[1..] == Copies(part, n - 1);
      CopiesLength(part, n - 1);
    }
  }

  lemma {:induction false} TakeWordsConsumes(s: Blob, n: nat)
    ensures TakeWords(s, n).Some? ==> |s| == 4 * n + |TakeWords(s, n).value.1|
  {
    if n > 0 && |s| >= 4 {
      TakeWordsConsumes(s[4..], n - 1);
    }
  }

  /** Copies of a shell that is not four bytes long are not a list of results. */
  lemma BadResultsDoNotParse(users: seq<Blob>, part: Blob, n: nat)
    requires AllFrames(users) && |users| == n && 1 <= n < 0x1_0000_0000 && |part| != 4
    ensures ParseUsers(PrintUsers(users, Copies(part, n))) == None
  {
    var results := Copies(part, n);
    var tail := Le(n, 4) + Flatten(results);
    assert PrintUsers(users, results) == Le(n, 4) + (Flatten(users) + tail);
    ListHead(n, Flatten(users) + tail);
    TakePrintedFrames(users, tail);
    ListHead(n, Flatten(results));
    CopiesLength(part, n);
    TakeWordsConsumes(Flatten(results), n);
    NotFour(n, |part|);
  }

  /**
   The answer parses to the users and results it was built from exactly when each entry is a frame and the result
   shell has the four bytes of a result; with framed entries and another result shell it does not parse at all.
   */
  lemma {:induction false} AnswerParses(userTpl: Blob, resultTpl: Blob, pids: seq<u64>, resolved: nat -> Blob)
    requires 1 <= |pids| <= 256
    ensures ParseUsers(Answer(userTpl, resultTpl, pids, resolved))
         == Some((Patched(userTpl, pids, resolved), Copies(resultTpl, |pids|)))
       <==> AllFramed(userTpl, pids, resolved) && |resultTpl| == 4
    ensures AllFramed(userTpl, pids, resolved) && |resultTpl| != 4 ==>
      ParseUsers(Answer(userTpl, resultTpl, pids, resolved)) == None
  {
    var users, results := Patched(userTpl, pids, resolved), Copies(resultTpl, |pids|);
    PatchedAreFramesIff(userTpl, pids, resolved);
    ParsedIsWellFormed(Answer(userTpl, resultTpl, pids, resolved));
    if |resultTpl| != 4 {
      assert |results[0]| != 4;
      if AllFrames(users) {
        BadResultsDoNotParse(users, resultTpl, |pids|);
      }
    } else if AllFrames(users) {
      UsersRoundTrip(users, results);
    }
  }

  lemma NotFour(n: nat, k: nat)
    requires n > 0 && k != 4
    ensures n * k != 4 * n
  {
    if k < 4 {
      assert n * k <= n * 3;
    } else {
      assert n * k >= n * 5;
    }
  }

  /** What a user of the answer says: the requested identity over the tail of the shell, exactly when the name fits. */
  predicate Answers(user: Blob, userTpl: Blob, pid: u64, name: Blob) {
    if |userTpl| < 6 then user == userTpl
    else ParseUser(user) == Some(Reidentified(userTpl, pid, name)) <==> |name| <= MAX_STRING
  }

  lemma FramedAnswers(userTpl: Blob, pid: u64, name: Blob)
    requires Framed(userTpl, pid, name)
    ensures Answers(PatchedUser(userTpl, pid, name), userTpl, pid, name)
  {
    if |userTpl| >= 6 {
      UserPutGet(userTpl, pid, name);
    }
  }

  /**
   From measured blob to answer: with the shells carved from a well-formed blob, every request is answered by n users
   and n results, 1 <= n <= 256; the i-th user carries the i-th requested PID, its maker code and its name over the
   tail of the shell, exactly when that name fits; and carving the answer gives its own first user.
   */
  lemma {:induction false} GetUsersEndToEnd(users: seq<Blob>, results: seq<Blob>, request: Blob, connPid: u64, resolved: nat -> Blob)
    requires AllFrames(users) && AllWords(results)
    requires 0 < |users| < 0x1_0000_0000 && 0 < |results|
    requires AllFramed(users[0], RequestPids(request, connPid), resolved)
    ensures
      var m := PrintUsers(users, results);
      var pids := RequestPids(request, connPid);
      var answer := Answer(CarvedUser(m, []), CarvedResult(m, []), pids, resolved);
      && ParseUsers(answer).Some?
      && (var (us, rs) := ParseUsers(answer).value;
          && 1 <= |us| == |rs| == |pids| <= 256
          && (forall i :: 0 <= i < |us| ==> Answers(us[i], users[0], pids[i], PseudoOr(resolved(i), pids[i])) && rs[i] == results[0])
          && CarvedUser(answer, []) == us[0]
          && CarvedResult(answer, []) == results[0])
  {
    CarveInvertsPrinting(users, results, [], []);
    var pids := RequestPids(request, connPid);
    AnswerParses(users[0], results[0], pids, resolved);
    PatchedAreFramesIff(users[0], pids, resolved);
    forall i | 0 <= i < |pids|
      ensures Answers(Patched(users[0], pids, resolved)[i], users[0], pids[i], PseudoOr(resolved(i), pids[i]))
    {
      FramedAnswers(users[0], pids[i], PseudoOr(resolved(i), pids[i]));
    }
    CarveInvertsPrinting(Patched(users[0], pids, resolved), Copies(results[0], |pids|), [], []);
  }
}
