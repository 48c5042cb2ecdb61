/** The relation-data descriptor: size token, embedded PID and bucket host are rewritten one after the other. */
module Relation {
  import opened Bytes
  import opened Replace
  import UploadHost
  import Nested

  // ----- lower-case hexadecimal, as %x and %016x print it -----

  function HexDigit(d: nat): byte
    requires d < 16
  {
    if d < 10 then 48 + d else 87 + d
  }

  function HexValue(c: byte): nat {
    if c < 58 then (if c < 48 then 0 else c - 48) else if c < 87 then 0 else c - 87
  }

  function PrintHex(n: nat): (s: Blob)
    ensures s != []
  {
    if n < 16 then [HexDigit(n)] else PrintHex(n / 16) + [HexDigit(n % 16)]
  }

  function UnHex(s: Blob): nat {
    if s == [] then 0 else 16 * UnHex(s[..|s| - 1]) + HexValue(s[|s| - 1])
  }

  function Zeros(n: nat): (z: Blob)
    ensures |z| == n
  {
    if n == 0 then [] else Zeros(n - 1) + [48]
  }

  /** At least sixteen digits, padded with zeros in front. */
  function Hex16(n: nat): Blob {
    var digits := PrintHex(n);
    if |digits| >= 16 then digits else Zeros(16 - |digits|) + digits
  }

  function Pow16(k: nat): (p: nat)
    ensures p >= 1
  {
    if k == 0 then 1 else 16 * Pow16(k - 1)
  }

  /** The digits are the lower-case ones. */
  lemma HexDigitsSpell(d: nat)
    requires d < 16
    ensures HexDigit(d) == ByteOf("0123456789abcdef"[d]) && HexValue(HexDigit(d)) == d
  {
  }

  predicate LowerHex(h: Blob) {
    forall i :: 0 <= i < |h| ==> 48 <= h[i] <= 57 || 97 <= h[i] <= 102
  }

  /** What %x prints is the one lower-case numeral of the number without a zero in front. */
  lemma {:induction false} NumeralIsPrinted(h: Blob)
    requires LowerHex(h) && h != [] && (|h| > 1 ==> h[0] != 48)
    ensures PrintHex(UnHex(h)) == h
    decreases |h|
  {
    var n, last := |h| - 1, h[|h| - 1];
    assert HexDigit(HexValue(last)) == last && HexValue(last) < 16;
    if n == 0 {
      assert h[..0] == [];
    } else {
      NumeralIsPrinted(h[..n]);
      NotZero(h[..n]);
      assert UnHex(h) / 16 == UnHex(h[..n]) && UnHex(h) % 16 == HexValue(last);
      assert h == h[..n] + [last];
    }
  }

  lemma {:induction false} NotZero(h: Blob)
    requires LowerHex(h) && h != [] && h[0] != 48
    ensures UnHex(h) > 0
    decreases |h|
  {
    if |h| > 1 {
      NotZero(h[..|h| - 1]);
    }
  }

  lemma Pow16Of16()
    ensures Pow16(16) == TWO_TO_64
  {
    assert Pow16(4) == 0x1_0000;
    assert Pow16(8) == 0x1_0000_0000;
    assert Pow16(12) == 0x1_0000_0000_0000;
  }

  lemma {:induction false} HexLength(n: nat, k: nat)
    requires k > 0
    ensures |PrintHex(n)| <= k <==> n < Pow16(k)
  {
    if k == 1 {
      assert Pow16(1) == 16;
    } else if n >= 16 {
      HexLength(n / 16, k - 1);
    } else {
      assert Pow16(k) == 16 * Pow16(k - 1);
    }
  }

  lemma {:induction false} UnHexPrint(n: nat, zeros: nat)
    ensures UnHex(Zeros(zeros) + PrintHex(n)) == n
    decreases n + zeros
  {
    var s := Zeros(zeros) + PrintHex(n);
    assert HexValue(s[|s| - 1]) == n % 16;
    if n >= 16 {
      assert s[..|s| - 1] == Zeros(zeros) + PrintHex(n / 16);
      UnHexPrint(n / 16, zeros);
    } else {
      assert s[..|s| - 1] == Zeros(zeros);
      ZerosAreZero(zeros);
    }
  }

  lemma {:induction false} ZerosAreZero(n: nat)
    ensures UnHex(Zeros(n)) == 0
  {
    if n > 0 {
      ZerosAreZero(n - 1);
      assert Zeros(n)[..n - 1] == Zeros(n - 1);
    }
  }

  lemma PadIsHarmless(n: nat)
    requires |PrintHex(n)| <= 16
    ensures Hex16(n) == Zeros(16 - |PrintHex(n)|) + PrintHex(n) && UnHex(Hex16(n)) == n
  {
    UnHexPrint(n, 16 - |PrintHex(n)|);
    assert Zeros(0) + PrintHex(n) == PrintHex(n);
  }

  /** Every PID prints as exactly sixteen digits, and the digits determine it. */
  lemma PidIsSixteenDigits(pid: u64)
    ensures |Hex16(pid)| == 16 && UnHex(Hex16(pid)) == pid
  {
    Pow16Of16();
    HexLength(pid, 16);
    PadIsHarmless(pid);
  }

  // ----- bytes.ReplaceAll with the empty pattern -----

  predicate Continues(s: Blob, i: nat, low: byte, high: byte) {
    i < |s| && low <= s[i] <= high
  }

  /** Length of the UTF-8 sequence `s` starts with; 1 when it starts with none. */
  function RuneWidth(s: Blob): (w: nat)
    requires s != []
    ensures 1 <= w <= |s|
  {
    var b := s[0];
    if 0xC2 <= b <= 0xDF && Continues(s, 1, 0x80, 0xBF) then 2
    else if 0xE0 <= b <= 0xEF
         && Continues(s, 1, if b == 0xE0 then 0xA0 else 0x80, if b == 0xED then 0x9F else 0xBF)
         && Continues(s, 2, 0x80, 0xBF) then 3
    else if 0xF0 <= b <= 0xF4
         && Continues(s, 1, if b == 0xF0 then 0x90 else 0x80, if b == 0xF4 then 0x8F else 0xBF)
         && Continues(s, 2, 0x80, 0xBF) && Continues(s, 3, 0x80, 0xBF) then 4
    else 1
  }

  /** The empty pattern is found at the start and after every UTF-8 sequence. */
  function Interleave(s: Blob, r: Blob): Blob
    decreases |s|
  {
    if s == [] then r else r + s[..RuneWidth(s)] + Interleave(s[RuneWidth(s)..], r)
  }

  function ReplaceAny(s: Blob, p: Blob, r: Blob): Blob {
    if p == [] then Interleave(s, r) else ReplaceAll(s, p, r)
  }

  lemma {:induction false} InterleaveGrows(s: Blob, r: Blob)
    ensures |Interleave(s, r)| >= |s| + |r|
    decreases |s|
  {
    if s != [] {
      InterleaveGrows(s[RuneWidth(s)..], r);
    }
  }

  // ----- the rewrite -----

  /** Asset sizes baked into the measured descriptors, by relation type. */
  const CAPTURED_SIZE: map<u32, u32> := map[1 := 0x1c000, 2 := 0x1ba5, 3 := 0x1697, 5 := 0xd1a]

  function SizeToken(size: u32): Blob {
    [UNDERSCORE] + PrintHex(size) + [UNDERSCORE]
  }

  /** The size is swapped when one was captured, another one is asked for, and both print to the same length. */
  predicate SwapsSize(relType: u32, reqSize: u32) {
    relType in CAPTURED_SIZE && reqSize != 0 && reqSize != CAPTURED_SIZE[relType]
    && |SizeToken(CAPTURED_SIZE[relType])| == |SizeToken(reqSize)|
  }

  function Sized(body: Blob, relType: u32, reqSize: u32): Blob {
    if SwapsSize(relType, reqSize)
    then ReplaceAll(body, SizeToken(CAPTURED_SIZE[relType]), SizeToken(reqSize))
    else body
  }

  function RewriteDescriptor(token: Blob, hostPort: Blob, body: Blob, relType: u32, reqSize: u32, pid: u64): Blob {
    UploadHost.Rewrite(ReplaceAny(Sized(body, relType, reqSize), token, Hex16(pid)), hostPort)
  }

  predicate KeepsLength(token: Blob, hostPort: Blob, body: Blob, relType: u32, reqSize: u32, pid: u64) {
    |RewriteDescriptor(token, hostPort, body, relType, reqSize, pid)| == |body|
  }

  lemma StageLengths(token: Blob, hostPort: Blob, body: Blob, relType: u32, reqSize: u32, pid: u64)
    ensures |Sized(body, relType, reqSize)| == |body|
    ensures |RewriteDescriptor(token, hostPort, body, relType, reqSize, pid)|
         == |ReplaceAny(Sized(body, relType, reqSize), token, Hex16(pid))|
  {
    if SwapsSize(relType, reqSize) {
      SameLength(body, SizeToken(CAPTURED_SIZE[relType]), SizeToken(reqSize));
    }
    UploadHost.RewriteInPlace(ReplaceAny(Sized(body, relType, reqSize), token, Hex16(pid)), hostPort, 0);
  }

  /** A sixteen-byte token makes every rewrite length-preserving, whatever the body, type, size and PID. */
  lemma TokenOfSixteenKeepsLength(token: Blob, hostPort: Blob, body: Blob, relType: u32, reqSize: u32, pid: u64)
    requires |token| == 16
    ensures KeepsLength(token, hostPort, body, relType, reqSize, pid)
  {
    StageLengths(token, hostPort, body, relType, reqSize, pid);
    PidIsSixteenDigits(pid);
    SameLength(Sized(body, relType, reqSize), token, Hex16(pid));
  }

  /**
   An unset token does not skip the step: the digits of the PID are put in front of the body and after every
   character, so the descriptor always grows.
   */
  lemma UnsetTokenInserts(hostPort: Blob, body: Blob, relType: u32, reqSize: u32, pid: u64)
    ensures |RewriteDescriptor([], hostPort, body, relType, reqSize, pid)| >= |body| + 16
  {
    StageLengths([], hostPort, body, relType, reqSize, pid);
    PidIsSixteenDigits(pid);
    InterleaveGrows(Sized(body, relType, reqSize), Hex16(pid));
  }

  /** Lengths are preserved for all inputs exactly when the configured token has sixteen bytes. */
  lemma KeepsLengthIff(token: Blob, hostPort: Blob)
    ensures (forall body, relType: u32, reqSize: u32, pid: u64 :: KeepsLength(token, hostPort, body, relType, reqSize, pid))
       <==> |token| == 16
  {
    if |token| == 16 {
      forall body, relType: u32, reqSize: u32, pid: u64
        ensures KeepsLength(token, hostPort, body, relType, reqSize, pid)
      {
        TokenOfSixteenKeepsLength(token, hostPort, body, relType, reqSize, pid);
      }
    } else {
      StageLengths(token, hostPort, token, 0, 0, 0);
      PidIsSixteenDigits(0);
      if token != [] {
        assert token[..|token|] == token && ReplaceAll(token[|token|..], token, Hex16(0)) == [];
      }
      assert !KeepsLength(token, hostPort, token, 0, 0, 0);
    }
  }

  /** An isolated size token becomes the requested size, and bytes outside every size token stay. */
  lemma SizeTokenSwapped(body: Blob, relType: u32, reqSize: u32, i: nat)
    requires SwapsSize(relType, reqSize)
    ensures var captured := SizeToken(CAPTURED_SIZE[relType]);
      && |Sized(body, relType, reqSize)| == |body|
      && (OccursAt(body, captured, i) && Isolated(body, captured, i) ==>
            OccursAt(Sized(body, relType, reqSize), SizeToken(reqSize), i))
      && (i < |body| && !Covered(body, captured, i) ==> Sized(body, relType, reqSize)[i] == body[i])
  {
    var captured := SizeToken(CAPTURED_SIZE[relType]);
    SameLength(body, captured, SizeToken(reqSize));
    if OccursAt(body, captured, i) && Isolated(body, captured, i) {
      OccurrenceReplaced(body, captured, SizeToken(reqSize), i);
    }
    if i < |body| && !Covered(body, captured, i) {
      UncoveredKept(body, captured, SizeToken(reqSize), i);
    }
  }

  /** An isolated captured token becomes sixteen digits that read as the caller's PID. */
  lemma PidTokenSwapped(sized: Blob, token: Blob, pid: u64, i: nat)
    requires |token| == 16 && OccursAt(sized, token, i) && Isolated(sized, token, i)
    ensures var owned := ReplaceAny(sized, token, Hex16(pid));
      |owned| == |sized| && UnHex(owned[i..i + 16]) == pid
  {
    PidIsSixteenDigits(pid);
    OccurrenceReplaced(sized, token, Hex16(pid), i);
  }

  /** With a safe store address no relation descriptor shows the bucket host, whatever token and PID were swapped in. */
  lemma NoBucketHostInDescriptor(token: Blob, hostPort: Blob, body: Blob, relType: u32, reqSize: u32, pid: u64)
    requires SLASH !in hostPort && COLON in hostPort && |hostPort| < |UploadHost.S3Host()|
    ensures !Contains(RewriteDescriptor(token, hostPort, body, relType, reqSize, pid), UploadHost.S3Host())
  {
    UploadHost.HostPortIsSafe(hostPort, ReplaceAny(Sized(body, relType, reqSize), token, Hex16(pid)));
  }

  // ----- when the size is rewritten -----

  lemma OneScreenSize()
    ensures 1 in CAPTURED_SIZE && PrintHex(CAPTURED_SIZE[1]) == Text("1c000")
  {
    assert PrintHex(0x1) == [49];
    assert PrintHex(0x1c) == PrintHex(0x1) + [99];
    assert PrintHex(0x1c0) == PrintHex(0x1c) + [48];
    assert PrintHex(0x1c00) == PrintHex(0x1c0) + [48];
    assert PrintHex(0x1c000) == PrintHex(0x1c00) + [48];
    var literal := "1c000";
    assert Text(literal) == [49, 99, 48, 48, 48];
  }

  lemma EntireSize()
    ensures 2 in CAPTURED_SIZE && PrintHex(CAPTURED_SIZE[2]) == Text("1ba5")
  {
    assert PrintHex(0x1) == [49];
    assert PrintHex(0x1b) == PrintHex(0x1) + [98];
    assert PrintHex(0x1ba) == PrintHex(0x1b) + [97];
    assert PrintHex(0x1ba5) == PrintHex(0x1ba) + [53];
    var literal := "1ba5";
    assert Text(literal) == [49, 98, 97, 53];
  }

  lemma ReportSize()
    ensures 3 in CAPTURED_SIZE && PrintHex(CAPTURED_SIZE[3]) == Text("1697")
  {
    assert PrintHex(0x1) == [49];
    assert PrintHex(0x16) == PrintHex(0x1) + [54];
    assert PrintHex(0x169) == PrintHex(0x16) + [57];
    assert PrintHex(0x1697) == PrintHex(0x169) + [55];
    var literal := "1697";
    assert Text(literal) == [49, 54, 57, 55];
  }

  lemma ClearCheckSize()
    ensures 5 in CAPTURED_SIZE && PrintHex(CAPTURED_SIZE[5]) == Text("d1a")
  {
    assert PrintHex(0xd) == [100];
    assert PrintHex(0xd1) == PrintHex(0xd) + [49];
    assert PrintHex(0xd1a) == PrintHex(0xd1) + [97];
    var literal := "d1a";
    assert Text(literal) == [100, 49, 97];
  }

  /** The size in the measured descriptor of a relation type, as it stands there. */
  predicate IsCaptured(relType: u32, captured: Blob) {
    || (relType == 1 && captured == Text("1c000"))
    || (relType == 2 && captured == Text("1ba5"))
    || (relType == 3 && captured == Text("1697"))
    || (relType == 5 && captured == Text("d1a"))
  }

  /** A number as %x prints it: lower-case digits without a zero in front. */
  predicate IsNumeral(h: Blob) {
    LowerHex(h) && h != [] && (|h| > 1 ==> h[0] != 48)
  }

  lemma CapturedIsPrinted(relType: u32, captured: Blob)
    requires IsCaptured(relType, captured)
    ensures relType in CAPTURED_SIZE && captured == PrintHex(CAPTURED_SIZE[relType])
  {
    OneScreenSize();
    EntireSize();
    ReportSize();
    ClearCheckSize();
  }

  /** Between underscores. */
  function Token(numeral: Blob): Blob {
    [95] + numeral + [95]
  }

  /**
   The first step in terms of what stands in descriptor and request: for the four types that were captured, when the
   size asked for has as many digits as the captured one, each _captured_ the scan finds becomes _asked_; for another
   length, which a zero always has, and for any other type the body stays.
   */
  lemma SizeStep(body: Blob, relType: u32, captured: Blob, asked: Blob)
    requires IsNumeral(asked) && UnHex(asked) < 0x1_0000_0000
    ensures IsCaptured(relType, captured) ==>
      Sized(body, relType, UnHex(asked)) == if |asked| == |captured| then ReplaceAll(body, Token(captured), Token(asked)) else body
    ensures relType !in {1, 2, 3, 5} ==> Sized(body, relType, UnHex(asked)) == body
  {
    NumeralIsPrinted(asked);
    if IsCaptured(relType, captured) {
      CapturedIsPrinted(relType, captured);
      assert UnHex(asked) == 0 ==> asked == [48];
      if asked == captured {
        ReplaceBySelf(body, Token(captured));
      }
    }
  }

  /** And it is the first step: the token is swapped in what the size step leaves, the bucket host in what that leaves. */
  lemma StepsInOrder(token: Blob, hostPort: Blob, body: Blob, relType: u32, captured: Blob, asked: Blob, pid: u64)
    requires IsNumeral(asked) && UnHex(asked) < 0x1_0000_0000 && token != []
    ensures UploadHost.S3Host() != []
    ensures IsCaptured(relType, captured) ==>
      RewriteDescriptor(token, hostPort, body, relType, UnHex(asked), pid)
        == ReplaceAll(ReplaceAll(if |asked| == |captured| then ReplaceAll(body, Token(captured), Token(asked)) else body,
                                 token, Hex16(pid)), UploadHost.S3Host(), UploadHost.OurHost(hostPort))
    ensures relType !in {1, 2, 3, 5} ==>
      RewriteDescriptor(token, hostPort, body, relType, UnHex(asked), pid)
        == ReplaceAll(ReplaceAll(body, token, Hex16(pid)), UploadHost.S3Host(), UploadHost.OurHost(hostPort))
  {
    UploadHost.S3HostShape();
    SizeStep(body, relType, captured, asked);
  }

  /** No occurrence covers any of the bytes from `i` to `end`. */
  ghost predicate Clear(s: Blob, p: Blob, i: nat, end: nat) {
    forall j :: i <= j < end ==> !Covered(s, p, j)
  }

  lemma ClearKept(s: Blob, p: Blob, r: Blob, i: nat, end: nat)
    requires p != [] && |r| == |p| && i <= end <= |s| && Clear(s, p, i, end)
    ensures |ReplaceAll(s, p, r)| == |s| && ReplaceAll(s, p, r)[i..end] == s[i..end]
  {
    SameLength(s, p, r);
    forall j | i <= j < end
      ensures ReplaceAll(s, p, r)[j] == s[j]
    {
      UncoveredKept(s, p, r, j);
    }
  }

  lemma FinishedDescriptor(token: Blob, hostPort: Blob, body: Blob, relType: u32, captured: Blob, asked: Blob, pid: u64,
                           sized: Blob, owned: Blob) returns (finished: Blob)
    requires IsCaptured(relType, captured) && IsNumeral(asked) && UnHex(asked) < 0x1_0000_0000
    requires |asked| == |captured| && |token| == 16
    requires sized == ReplaceAll(body, Token(captured), Token(asked)) && owned == ReplaceAll(sized, token, Hex16(pid))
    ensures finished == RewriteDescriptor(token, hostPort, body, relType, UnHex(asked), pid)
    ensures UploadHost.S3Host() != [] && finished == ReplaceAll(owned, UploadHost.S3Host(), UploadHost.OurHost(hostPort))
  {
    UploadHost.S3HostShape();
    StepsInOrder(token, hostPort, body, relType, captured, asked, pid);
    finished := ReplaceAll(owned, UploadHost.S3Host(), UploadHost.OurHost(hostPort));
  }

  /** The size as asked for stands at `i` after the first step, and the later two keep away from it. */
  ghost predicate SizeStands(body: Blob, captured: Blob, asked: Blob, token: Blob, i: nat, sized: Blob, owned: Blob)
    requires captured != []
  {
    && sized == ReplaceAll(body, captured, asked)
    && Clear(sized, token, i, i + |asked|) && Clear(owned, UploadHost.S3Host(), i, i + |asked|)
  }

  lemma StandsToTheEnd(body: Blob, captured: Blob, asked: Blob, token: Blob, r: Blob, w: Blob, i: nat, sized: Blob, owned: Blob, finished: Blob)
    requires captured != [] && |asked| == |captured| && token != [] && |r| == |token| && |w| == |UploadHost.S3Host()| > 0
    requires OccursAt(body, captured, i) && Isolated(body, captured, i)
    requires SizeStands(body, captured, asked, token, i, sized, owned)
    requires owned == ReplaceAll(sized, token, r) && finished == ReplaceAll(owned, UploadHost.S3Host(), w)
    ensures OccursAt(finished, asked, i)
  {
    OccurrenceReplaced(body, captured, asked, i);
    StaysThroughBoth(sized, token, r, UploadHost.S3Host(), w, i, i + |asked|);
  }

  /**
   In the finished descriptor: an isolated _captured_ has become _asked_ when both have as many digits, provided neither
   the token nor the bucket host reaches into the place.
   */
  lemma SizeInDescriptor(token: Blob, hostPort: Blob, body: Blob, relType: u32, captured: Blob, asked: Blob, pid: u64, i: nat,
                         sized: Blob, owned: Blob) returns (finished: Blob)
    requires IsCaptured(relType, captured) && IsNumeral(asked) && UnHex(asked) < 0x1_0000_0000
    requires |asked| == |captured| && |token| == 16
    requires OccursAt(body, Token(captured), i) && Isolated(body, Token(captured), i)
    requires SizeStands(body, Token(captured), Token(asked), token, i, sized, owned) && owned == ReplaceAll(sized, token, Hex16(pid))
    ensures finished == RewriteDescriptor(token, hostPort, body, relType, UnHex(asked), pid)
    ensures OccursAt(finished, Token(asked), i)
  {
    finished := FinishedDescriptor(token, hostPort, body, relType, captured, asked, pid, sized, owned);
    PidIsSixteenDigits(pid);
    StandsToTheEnd(body, Token(captured), Token(asked), token, Hex16(pid), UploadHost.OurHost(hostPort), i, sized, owned, finished);
  }

  lemma StaysThroughBoth(s: Blob, p: Blob, r: Blob, q: Blob, w: Blob, i: nat, end: nat)
    requires p != [] && |r| == |p| && q != [] && |w| == |q| && i <= end <= |s|
    requires Clear(s, p, i, end) && Clear(ReplaceAll(s, p, r), q, i, end)
    ensures end <= |ReplaceAll(ReplaceAll(s, p, r), q, w)|
    ensures ReplaceAll(ReplaceAll(s, p, r), q, w)[i..end] == s[i..end]
  {
    ClearKept(s, p, r, i, end);
    ClearKept(ReplaceAll(s, p, r), q, w, i, end);
  }

  // ----- the empty token, character by character -----

  /** Every byte with the replacement behind it. */
  function Followed(s: Blob, r: Blob): (parts: seq<Blob>)
    ensures |parts| == |s| && forall i :: 0 <= i < |s| ==> parts[i] == [s[i]] + r
  {
    seq(|s|, i requires 0 <= i < |s| => [s[i]] + r)
  }

  lemma FollowedCons(s: Blob, r: Blob)
    requires s != []
    ensures Flatten(Followed(s, r)) == ([s[0]] + r) + Flatten(Followed(s[1..], r))
  {
    assert Followed(s, r)[1..] == Followed(s[1..], r);
  }

  lemma AsciiStep(s: Blob, r: Blob)
    requires s != [] && s[0] < 0x80
    ensures Interleave(s, r) == r + [s[0]] + Interleave(s[1..], r)
  {
    assert s[..1] == [s[0]];
  }

  /** In an ASCII body the replacement is put in front and behind every byte. */
  lemma {:induction false} InterleavedAscii(s: Blob, r: Blob)
    requires forall k :: 0 <= k < |s| ==> s[k] < 0x80
    ensures Interleave(s, r) == r + Flatten(Followed(s, r))
    decreases |s|
  {
    if s == [] {
      assert r + [] == r;
    } else {
      InterleavedAscii(s[1..], r);
      AsciiStep(s, r);
      FollowedCons(s, r);
      Reassociated(r, [s[0]], Flatten(Followed(s[1..], r)));
    }
  }

  lemma Reassociated(r: Blob, c: Blob, rest: Blob)
    ensures r + c + (r + rest) == r + ((c + r) + rest)
  {
  }

  /** The code points that have a UTF-8 form, beyond ASCII. */
  predicate IsScalar(c: nat) {
    0x80 <= c < 0xD800 || 0xE000 <= c < 0x11_0000
  }

  /** UTF-8, section 3 of RFC 3629. */
  function Utf8(c: nat): (s: Blob)
    requires IsScalar(c)
    ensures 2 <= |s| <= 4
  {
    if c < 0x800 then [0xC0 + c / 64, 0x80 + c % 64]
    else if c < 0x1_0000 then [0xE0 + c / 0x1000, 0x80 + c / 64 % 64, 0x80 + c % 64]
    else [0xF0 + c / 0x4_0000, 0x80 + c / 0x1000 % 64, 0x80 + c / 64 % 64, 0x80 + c % 64]
  }

  /** The sextets of a code point, lowest first. */
  lemma Sextets(c: nat, h: nat, m: nat, t: nat, u: nat)
    requires c == ((h * 64 + m) * 64 + t) * 64 + u && m < 64 && t < 64 && u < 64
    ensures c % 64 == u && c / 64 % 64 == t && c / 0x1000 % 64 == m && c / 0x4_0000 == h
  {
    var c1, c2 := (h * 64 + m) * 64 + t, h * 64 + m;
    LowSextet(c, c1, u);
    LowSextet(c1, c2, t);
    LowSextet(c2, h, m);
    assert c / 64 / 64 == c / 0x1000 && c / 0x1000 / 64 == c / 0x4_0000;
  }

  lemma LowSextet(c: nat, high: nat, low: nat)
    requires c == high * 64 + low && low < 64
    ensures c / 64 == high && c % 64 == low
  {
  }

  lemma FourByteShape(c: nat)
    requires 0x1_0000 <= c < 0x11_0000
    ensures var s := Utf8(c); 0xF0 <= s[0] <= 0xF4 && (s[0] == 0xF0 ==> s[1] >= 0x90) && (s[0] == 0xF4 ==> s[1] <= 0x8F)
  {
    var h, m := c / 0x4_0000, c / 0x1000 % 64;
    assert c / 0x1000 / 64 == h;
    assert c / 0x1000 == h * 64 + m;
  }

  lemma ThreeByteShape(c: nat)
    requires IsScalar(c) && 0x800 <= c < 0x1_0000
    ensures var s := Utf8(c); 0xE0 <= s[0] <= 0xEF && (s[0] == 0xE0 ==> s[1] >= 0xA0) && (s[0] == 0xED ==> s[1] <= 0x9F)
  {
    var h, m := c / 0x1000, c / 64 % 64;
    assert c / 64 / 64 == h;
    assert c / 64 == h * 64 + m;
  }

  /** The width is decided by the first four bytes, and the leading byte by the length. */
  lemma WidthOf(s: Blob, x: byte, y: byte)
    requires |s| >= 2 && s[0] == x && s[1] == y && 0x80 <= y <= 0xBF
    ensures 0xC2 <= x <= 0xDF ==> RuneWidth(s) == 2
    ensures |s| >= 3 && 0x80 <= s[2] <= 0xBF && 0xE0 <= x <= 0xEF && (x == 0xE0 ==> y >= 0xA0) && (x == 0xED ==> y <= 0x9F)
        ==> RuneWidth(s) == 3
    ensures |s| >= 4 && 0x80 <= s[2] <= 0xBF && 0x80 <= s[3] <= 0xBF && 0xF0 <= x <= 0xF4
            && (x == 0xF0 ==> y >= 0x90) && (x == 0xF4 ==> y <= 0x8F)
        ==> RuneWidth(s) == 4
  {
  }

  /** A character is kept together. */
  lemma RuneStaysTogether(c: nat, rest: Blob)
    requires IsScalar(c)
    ensures RuneWidth(Utf8(c) + rest) == |Utf8(c)|
  {
    var u := Utf8(c);
    var s := u + rest;
    assert forall i :: 0 <= i < |u| ==> s[i] == u[i];
    WidthOf(s, u[0], u[1]);
    if c >= 0x1_0000 {
      FourByteShape(c);
    } else if c >= 0x800 {
      ThreeByteShape(c);
    }
  }

  /** What is kept together is a character. */
  lemma KeptIsRune(s: Blob) returns (c: nat)
    requires s != [] && RuneWidth(s) > 1
    ensures IsScalar(c) && s[..RuneWidth(s)] == Utf8(c)
  {
    var w := RuneWidth(s);
    if w == 2 {
      c := TwoByteRune(s[0], s[1]);
    } else if w == 3 {
      c := ThreeByteRune(s[0], s[1], s[2]);
    } else {
      c := FourByteRune(s[0], s[1], s[2], s[3]);
    }
  }

  lemma TwoByteRune(x: byte, y: byte) returns (c: nat)
    requires 0xC2 <= x <= 0xDF && 0x80 <= y <= 0xBF
    ensures IsScalar(c) && Utf8(c) == [x, y]
  {
    c := (x - 0xC0) * 64 + (y - 0x80);
  }

  lemma ThreeByteRune(x: byte, y: byte, z: byte) returns (c: nat)
    requires 0xE0 <= x <= 0xEF && 0x80 <= y <= 0xBF && 0x80 <= z <= 0xBF
    requires (x == 0xE0 ==> y >= 0xA0) && (x == 0xED ==> y <= 0x9F)
    ensures IsScalar(c) && Utf8(c) == [x, y, z]
  {
    c := ((x - 0xE0) * 64 + (y - 0x80)) * 64 + (z - 0x80);
    Sextets(c, 0, x - 0xE0, y - 0x80, z - 0x80);
    assert c / 0x1000 == x - 0xE0;
  }

  lemma FourByteRune(x: byte, y: byte, z: byte, u: byte) returns (c: nat)
    requires 0xF0 <= x <= 0xF4 && 0x80 <= y <= 0xBF && 0x80 <= z <= 0xBF && 0x80 <= u <= 0xBF
    requires (x == 0xF0 ==> y >= 0x90) && (x == 0xF4 ==> y <= 0x8F)
    ensures IsScalar(c) && Utf8(c) == [x, y, z, u]
  {
    c := (((x - 0xF0) * 64 + (y - 0x80)) * 64 + (z - 0x80)) * 64 + (u - 0x80);
    Sextets(c, x - 0xF0, y - 0x80, z - 0x80, u - 0x80);
  }

  /** And the replacement is put in front of the character as a whole. */
  lemma InterleavedRune(c: nat, rest: Blob, r: Blob)
    requires IsScalar(c)
    ensures Interleave(Utf8(c) + rest, r) == r + Utf8(c) + Interleave(rest, r)
  {
    var s := Utf8(c) + rest;
    RuneStaysTogether(c, rest);
    assert s[..|Utf8(c)|] == Utf8(c) && s[|Utf8(c)|..] == rest;
  }

  /** So a byte goes alone exactly when no character beyond ASCII starts with it, as one that is broken or overlong. */
  lemma GoesAloneIff(s: Blob)
    requires s != []
    ensures RuneWidth(s) == 1 <==> forall c :: IsScalar(c) ==> !(Utf8(c) <= s)
  {
    forall c | IsScalar(c) && Utf8(c) <= s
      ensures RuneWidth(s) > 1
    {
      assert s == Utf8(c) + s[|Utf8(c)|..];
      RuneStaysTogether(c, s[|Utf8(c)|..]);
    }
    if RuneWidth(s) > 1 {
      var c := KeptIsRune(s);
    }
  }

  // ----- the rewrite on the values the bytes stand for -----

  function SizedNode(node: Nested.Node, relType: u32, reqSize: u32): Nested.Node {
    if SwapsSize(relType, reqSize)
    then Nested.Rewrite(node, SizeToken(CAPTURED_SIZE[relType]), SizeToken(reqSize))
    else node
  }

  /** Each token occurs only inside text fields as its turn comes. */
  ghost predicate StaysInText(token: Blob, node: Nested.Node, relType: u32, reqSize: u32, pid: u64)
    requires token != []
  {
    var sized := SizedNode(node, relType, reqSize);
    && (SwapsSize(relType, reqSize) ==> Nested.OnlyInText(node, SizeToken(CAPTURED_SIZE[relType])))
    && Nested.OnlyInText(sized, token)
    && Nested.OnlyInText(Nested.Rewrite(sized, token, Hex16(pid)), UploadHost.S3Host())
  }

  /**
   What to look for in the measured descriptor, whoever asks: captured size, token and bucket host occur only inside
   text fields, and no text is long enough for its length header to look like part of the token or the host.
   */
  ghost predicate Rewritable(token: Blob, node: Nested.Node, relType: u32) {
    && (relType in CAPTURED_SIZE ==> Nested.OnlyInText(node, SizeToken(CAPTURED_SIZE[relType])))
    && (forall p :: p in {token, UploadHost.S3Host()} ==> Nested.OnlyInText(node, p) && Nested.Sealed(node, p))
  }

  /** That is enough for every requested size and PID. */
  lemma RewritableStaysInText(token: Blob, node: Nested.Node, relType: u32, reqSize: u32, pid: u64)
    requires |token| == 16 && Rewritable(token, node, relType)
    ensures StaysInText(token, node, relType, reqSize, pid)
  {
    UploadHost.S3HostShape();
    PidIsSixteenDigits(pid);
    var host, sized := UploadHost.S3Host(), SizedNode(node, relType, reqSize);
    if SwapsSize(relType, reqSize) {
      var captured, asked := SizeToken(CAPTURED_SIZE[relType]), SizeToken(reqSize);
      Nested.OnlyInTextStays(node, captured, asked, token);
      Nested.OnlyInTextStays(node, captured, asked, host);
    }
    Nested.OnlyInTextStays(sized, token, Hex16(pid), host);
  }

  lemma StagedRewriteParses(token: Blob, hostPort: Blob, node: Nested.Node, shape: Nested.Shape,
                            relType: u32, reqSize: u32, pid: u64)
    requires |token| == 16 && Nested.Conforms(node, shape) && Nested.Fits(node)
    requires StaysInText(token, node, relType, reqSize, pid)
    ensures UploadHost.S3Host() != []
    ensures var rewritten := RewriteDescriptor(token, hostPort, Nested.Print(node), relType, reqSize, pid);
      Nested.Parse(shape, rewritten) == Some((
        Nested.Rewrite(Nested.Rewrite(SizedNode(node, relType, reqSize), token, Hex16(pid)),
                       UploadHost.S3Host(), UploadHost.OurHost(hostPort)), []))
  {
    UploadHost.S3HostShape();
    PidIsSixteenDigits(pid);
    var sized := SizedNode(node, relType, reqSize);
    if SwapsSize(relType, reqSize) {
      Nested.PrintCommutes(node, SizeToken(CAPTURED_SIZE[relType]), SizeToken(reqSize));
      Nested.RewriteKeepsShape(node, shape, SizeToken(CAPTURED_SIZE[relType]), SizeToken(reqSize));
    }
    Nested.PrintCommutes(sized, token, Hex16(pid));
    Nested.RewriteKeepsShape(sized, shape, token, Hex16(pid));
    var owned := Nested.Rewrite(sized, token, Hex16(pid));
    Nested.RewrittenBytesParse(owned, shape, UploadHost.S3Host(), UploadHost.OurHost(hostPort), []);
    var rewritten := RewriteDescriptor(token, hostPort, Nested.Print(node), relType, reqSize, pid);
    assert rewritten == ReplaceAll(Nested.Print(owned), UploadHost.S3Host(), UploadHost.OurHost(hostPort));
    assert rewritten + [] == rewritten;
  }

  /**
   For a rewritable measured descriptor, every store address, requested size and PID: the rewritten descriptor
   parses to the measured value with just its text fields rewritten, so no length anywhere needs a fix-up.
   */
  lemma RewrittenDescriptorParses(token: Blob, hostPort: Blob, node: Nested.Node, shape: Nested.Shape,
                                  relType: u32, reqSize: u32, pid: u64)
    requires |token| == 16 && Nested.Conforms(node, shape) && Nested.Fits(node) && Rewritable(token, node, relType)
    ensures UploadHost.S3Host() != []
    ensures var rewritten := RewriteDescriptor(token, hostPort, Nested.Print(node), relType, reqSize, pid);
      Nested.Parse(shape, rewritten) == Some((
        Nested.Rewrite(Nested.Rewrite(SizedNode(node, relType, reqSize), token, Hex16(pid)),
                       UploadHost.S3Host(), UploadHost.OurHost(hostPort)), []))
  {
    RewritableStaysInText(token, node, relType, reqSize, pid);
    StagedRewriteParses(token, hostPort, node, shape, relType, reqSize, pid);
  }

  /** With a printable token and texts under 8191 bytes it is enough to see where the three tokens occur. */
  lemma ShortTextsAreRewritable(token: Blob, node: Nested.Node, relType: u32)
    requires Nested.Printable(token) && Nested.ShortTexts(node)
    requires relType in CAPTURED_SIZE ==> Nested.OnlyInText(node, SizeToken(CAPTURED_SIZE[relType]))
    requires Nested.OnlyInText(node, token) && Nested.OnlyInText(node, UploadHost.S3Host())
    ensures Rewritable(token, node, relType)
  {
    UploadHost.S3HostIsPrintable();
    Nested.ShortTextsAreSealed(node, token);
    Nested.ShortTextsAreSealed(node, UploadHost.S3Host());
  }
}
