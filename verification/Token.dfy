/** The signed login token: nx2.<b64(pid.username.expiry)>.<b64(mac)>. */
module Token {
  import opened Bytes
  import opened Decimal
  import Base64Url

  /** The validator's configuration; the keyed hash is left uninterpreted. */
  datatype Verifier = Verifier(secret: Blob, hmac: (Blob, Blob) -> Blob, revoked: set<Blob>) {
    function Mac(payload: Blob): Blob {
      Base64Url.Encode(hmac(secret, Text("nex:") + payload))
    }
  }

  // ----- splitting at dots -----

  function FirstDot(s: Blob): (i: nat)
    ensures i <= |s| && DOT !in s[..i] && (i < |s| ==> s[i] == DOT)
  {
    if s == [] || s[0] == DOT then 0
    else
      var i := 1 + FirstDot(s[1..]);
      assert s[..i] == [s[0]] + s[1..][..i - 1];
      i
  }

  function Split(s: Blob): (parts: seq<Blob>)
    ensures parts != []
    decreases |s|
  {
    var i := FirstDot(s);
    if i == |s| then [s] else [s[..i]] + Split(s[i + 1..])
  }

  /** At most `n` parts; the last one keeps whatever dots are left. */
  function SplitN(s: Blob, n: nat): (parts: seq<Blob>)
    ensures parts != []
    decreases n
  {
    var i := FirstDot(s);
    if n <= 1 || i == |s| then [s] else [s[..i]] + SplitN(s[i + 1..], n - 1)
  }

  lemma {:induction false} FirstDotOf(a: Blob, rest: Blob)
    requires DOT !in a
    ensures FirstDot(a + [DOT] + rest) == |a|
    ensures (a + [DOT] + rest)[..|a|] == a && (a + [DOT] + rest)[|a| + 1..] == rest
  {
    var s := a + [DOT] + rest;
    if a != [] {
      assert s[1..] == a[1..] + [DOT] + rest;
      FirstDotOf(a[1..], rest);
    }
  }

  lemma NoDotNoSplit(s: Blob)
    ensures FirstDot(s) == |s| <==> DOT !in s
  {
    assert s[..|s|] == s;
  }

  lemma SplitPair(a: Blob, b: Blob)
    requires DOT !in a && DOT !in b
    ensures Split(a + [DOT] + b) == [a, b]
  {
    FirstDotOf(a, b);
    NoDotNoSplit(b);
  }

  lemma PairOfSplit(s: Blob)
    requires |Split(s)| == 2
    ensures s == Split(s)[0] + [DOT] + Split(s)[1] && DOT !in Split(s)[0] && DOT !in Split(s)[1]
  {
    var i := FirstDot(s);
    var rest := s[i + 1..];
    var j := FirstDot(rest);
    assert Split(s) == [s[..i]] + Split(rest);
    if j < |rest| {
      assert false;
    }
    NoDotNoSplit(rest);
    assert s == s[..i] + [DOT] + rest;
  }

  // ----- validation -----

  const PREFIX := "nx2."

  /** pid, username and expiry of an authentic payload that is still good at `now`. */
  function FromPayload(raw: Blob, now: i64): Option<u64> {
    var f := SplitN(raw, 3);
    if |f| != 3 then None
    else
      match ParseUint(f[0])
      case None => None
      case Some(pid) =>
        match ParseInt(f[2])
        case None => None
        case Some(expiry) => if now > expiry then None else Some(pid)
  }

  function PidFromToken(v: Verifier, now: i64, s: Blob): Option<u64> {
    var prefix := Text(PREFIX);
    if v.secret == [] || !(prefix <= s) then None
    else
      var parts := Split(s[|prefix|..]);
      if |parts| != 2 then None
      else
        match Base64Url.Decode(parts[0])
        case None => None
        case Some(raw) =>
          if v.Mac(raw) != parts[1] then None
          else if raw in v.revoked then None
          else FromPayload(raw, now)
  }

  /** How the account service prints a token. */
  function PrintPayload(pid: u64, user: Blob, expiry: i64): Blob {
    PrintUint(pid) + [DOT] + (user + [DOT] + PrintInt(expiry))
  }

  function PrintToken(v: Verifier, raw: Blob): Blob {
    Text(PREFIX) + (Base64Url.Encode(raw) + [DOT] + v.Mac(raw))
  }

  lemma {:induction false} AlphabetHasNoDot(s: Blob)
    requires Base64Url.AllInAlphabet(s)
    ensures DOT !in s
  {
    assert forall i :: 0 <= i < |s| ==> s[i] != DOT;
  }

  /** A printed token is opened to exactly its payload. */
  lemma {:induction false} PrintedTokenOpens(v: Verifier, now: i64, raw: Blob)
    requires v.secret != []
    ensures PidFromToken(v, now, PrintToken(v, raw)) == if raw in v.revoked then None else FromPayload(raw, now)
  {
    var prefix, s := Text(PREFIX), PrintToken(v, raw);
    var a, b := Base64Url.Encode(raw), v.Mac(raw);
    Base64Url.RoundTrip(raw);
    Base64Url.RoundTrip(v.hmac(v.secret, Text("nex:") + raw));
    AlphabetHasNoDot(a);
    AlphabetHasNoDot(b);
    assert s[..|prefix|] == prefix && s[|prefix|..] == a + [DOT] + b;
    SplitPair(a, b);
  }

  lemma ThreeFields(a: Blob, b: Blob, c: Blob)
    requires DOT !in a && DOT !in b
    ensures SplitN(a + [DOT] + (b + [DOT] + c), 3) == [a, b, c]
  {
    var tail := b + [DOT] + c;
    FirstDotOf(a, tail);
    FirstDotOf(b, c);
    assert SplitN(c, 1) == [c];
    assert SplitN(tail, 2) == [b] + SplitN(c, 1);
    assert SplitN(a + [DOT] + tail, 3) == [a] + SplitN(tail, 2);
  }

  /** With a dot in the second field the part taken for the third still holds a dot. */
  lemma DottedField(a: Blob, b: Blob, c: Blob)
    requires DOT !in a && DOT in b
    ensures var f := SplitN(a + [DOT] + (b + [DOT] + c), 3); |f| == 3 && f[0] == a && DOT in f[2]
  {
    var i, tail := FirstDot(b), b + [DOT] + c;
    NoDotNoSplit(b);
    var last := b[i + 1..] + [DOT] + c;
    assert tail == b[..i] + [DOT] + last;
    FirstDotOf(a, tail);
    FirstDotOf(b[..i], last);
    assert last[|b[i + 1..]|] == DOT;
    assert SplitN(last, 1) == [last];
    assert SplitN(tail, 2) == [b[..i]] + SplitN(last, 1);
    assert SplitN(a + [DOT] + tail, 3) == [a] + SplitN(tail, 2);
  }

  /**
   Print and validate: for every 64-bit PID, user name and expiry, the token gives back the PID exactly when the
   user name has no dot, the payload is not revoked and the expiry has not passed; otherwise it is refused.
   */
  lemma {:induction false} TokenAcceptedIff(v: Verifier, now: i64, pid: u64, user: Blob, expiry: i64)
    requires v.secret != []
    ensures var raw := PrintPayload(pid, user, expiry);
      PidFromToken(v, now, PrintToken(v, raw))
        == if DOT !in user && raw !in v.revoked && now <= expiry then Some(pid) else None
  {
    var raw := PrintPayload(pid, user, expiry);
    PrintedTokenOpens(v, now, raw);
    NoDots(pid, []);
    if DOT in user {
      DottedField(PrintUint(pid), user, PrintInt(expiry));
    } else {
      ThreeFields(PrintUint(pid), user, PrintInt(expiry));
    }
    UintRoundTrip(pid);
    IntRoundTrip(expiry);
    NoDots(0, SplitN(raw, 3)[2]);
  }

  /** `s` is the text `a` of a payload `raw`, signed. */
  predicate IsSigned(v: Verifier, s: Blob, a: Blob, raw: Blob) {
    s == Text(PREFIX) + (a + [DOT] + v.Mac(raw)) && DOT !in a && Base64Url.Decode(a) == Some(raw)
  }

  /** A token is accepted for `pid` exactly when it carries a signed, unrevoked payload that names `pid` and is still good. */
  lemma {:induction false} AcceptedIffSigned(v: Verifier, now: i64, s: Blob, pid: u64)
    requires v.secret != []
    ensures PidFromToken(v, now, s) == Some(pid)
       <==> exists a, raw :: IsSigned(v, s, a, raw) && raw !in v.revoked && FromPayload(raw, now) == Some(pid)
  {
    var prefix := Text(PREFIX);
    if PidFromToken(v, now, s) == Some(pid) {
      var t := s[|prefix|..];
      PairOfSplit(t);
      var a, raw := Split(t)[0], Base64Url.Decode(Split(t)[0]).value;
      assert s == prefix + t;
      assert IsSigned(v, s, a, raw);
    }
    forall a, raw | IsSigned(v, s, a, raw) && raw !in v.revoked && FromPayload(raw, now) == Some(pid)
      ensures PidFromToken(v, now, s) == Some(pid)
    {
      Base64Url.RoundTrip(v.hmac(v.secret, Text("nex:") + raw));
      AlphabetHasNoDot(v.Mac(raw));
      assert s[..|prefix|] == prefix && s[|prefix|..] == a + [DOT] + v.Mac(raw);
      SplitPair(a, v.Mac(raw));
    }
  }

  /**
   A token as the account service issues it, with the message and the key of its signature written out: the hash, under
   the secret, of "nex:" and the payload.
   */
  lemma {:induction false} IssuedTokenOpens(v: Verifier, now: i64, raw: Blob)
    requires v.secret != []
    ensures PidFromToken(v, now, Text("nx2.") + (Base64Url.Encode(raw) + [DOT] + Base64Url.Encode(v.hmac(v.secret, Text("nex:") + raw))))
         == if raw in v.revoked then None else FromPayload(raw, now)
  {
    PrintedTokenOpens(v, now, raw);
  }

  /** And whatever is accepted has that form, up to another spelling of the payload's text. */
  lemma {:induction false} AcceptedTokenForm(v: Verifier, now: i64, s: Blob, pid: u64)
    requires PidFromToken(v, now, s) == Some(pid)
    ensures v.secret != []
    ensures exists text, raw ::
      && s == Text("nx2.") + (text + [DOT] + Base64Url.Encode(v.hmac(v.secret, Text("nex:") + raw)))
      && DOT !in text && Base64Url.Decode(text) == Some(raw)
      && raw !in v.revoked && FromPayload(raw, now) == Some(pid)
  {
    AcceptedIffSigned(v, now, s, pid);
    var text, raw :| IsSigned(v, s, text, raw) && raw !in v.revoked && FromPayload(raw, now) == Some(pid);
  }

  /** The payload, with its fields written out: the number up to the first dot, and the expiry behind the second. */
  lemma PayloadReadsAs(pid: Blob, user: Blob, expiry: Blob, now: i64)
    requires DOT !in pid && DOT !in user
    ensures FromPayload(pid + [DOT] + (user + [DOT] + expiry), now)
         == match (ParseUint(pid), ParseInt(expiry))
            case (Some(n), Some(last)) => if now <= last then Some(n) else None
            case _ => None
    ensures FromPayload(user, now) == None && FromPayload(pid + [DOT] + user, now) == None
  {
    ThreeFields(pid, user, expiry);
    NoDotNoSplit(user);
    FirstDotOf(pid, user);
    assert SplitN(user, 3) == [user] && SplitN(user, 2) == [user];
    assert SplitN(pid + [DOT] + user, 3) == [pid] + SplitN(user, 2);
  }
}
