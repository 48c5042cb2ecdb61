/** The login decision: which PID, if any, a user name and its extra data are admitted under. */
module Login {
  import opened Bytes
  import Decimal
  import Nsa
  import NsaRuns
  import Token

  /** The two strictness switches of the server. */
  datatype Config = Config(requireAccount: bool, requireSigned: bool) {
    predicate AtLeastAsStrictAs(other: Config) {
      (other.requireAccount ==> requireAccount) && (other.requireSigned ==> requireSigned)
    }
  }

  datatype Kind = Emulator | Console

  /** The online check either answered or could not be reached. */
  datatype Check = Answered(allow: bool) | Failed

  /** Everything outside the decision: token validation, the services and the hash of anonymous names. */
  datatype World = World(
    verifier: Token.Verifier,
    now: Decimal.i64,
    tokenIn: Blob -> Option<Blob>,       // the token carried in login extra data
    check: (u64, Kind) -> Check,
    resolve: u64 -> Nsa.Answer,
    hash: Blob -> u32)
  {
    function TokenPid(s: Blob): Option<u64> {
      Token.PidFromToken(verifier, now, s)
    }

    /** An unreachable online check lets the login through. */
    predicate Admits(pid: u64, kind: Kind) {
      check(pid, kind) == Failed || check(pid, kind) == Answered(true)
    }

    function ProvenPid(extra: Blob): Option<u64> {
      match tokenIn(extra)
      case None => None
      case Some(token) => TokenPid(token)
    }
  }

  const FIRST_ACCOUNT: u64 := 1800000000
  const FIRST_NSA: u64 := 1810000000

  function Admitted(w: World, pid: u64, kind: Kind): Option<u64> {
    if w.Admits(pid, kind) then Some(pid) else None
  }

  function AnonymousPid(hash: u32): u64 {
    FIRST_ACCOUNT + hash % 100000000
  }

  /** Anonymous PIDs spread over 100 million numbers, of which the first ten million are also account numbers. */
  lemma AnonymousRange(hash: u32, other: u32)
    ensures 1_800_000_000 <= AnonymousPid(hash) < 1_900_000_000 && AnonymousPid(hash) % 100_000_000 == hash % 100_000_000
    ensures AnonymousPid(hash) < 1_810_000_000 <==> hash % 100_000_000 < 10_000_000
    ensures AnonymousPid(hash) == AnonymousPid(other) <==> hash % 100000000 == other % 100000000
  {
  }

  function ResolveUser(cfg: Config, w: World, user: Blob, extra: Blob): Option<u64> {
    match w.TokenPid(user)
    case Some(pid) => Admitted(w, pid, Emulator)
    case None =>
      match Decimal.ParseUint(user)
      case Some(n) =>
        if n < FIRST_ACCOUNT then Unidentified(cfg, w, user)
        else if n < FIRST_NSA then
          if cfg.requireSigned && w.ProvenPid(extra) != Some(n) then None else Admitted(w, n, Emulator)
        else
          var a := w.resolve(n);
          if a.status == Nsa.Linked then Admitted(w, a.pid, Console) else None
      case None => Unidentified(cfg, w, user)
  }

  function Unidentified(cfg: Config, w: World, user: Blob): Option<u64> {
    if cfg.requireAccount then None else Some(AnonymousPid(w.hash(user)))
  }

  // ----- what stricter settings do -----

  /** A bare account number sent as user name. */
  predicate IsBareNumber(w: World, user: Blob) {
    w.TokenPid(user) == None && Decimal.ParseUint(user).Some? && FIRST_ACCOUNT <= Decimal.ParseUint(user).value < FIRST_NSA
  }

  predicate IsAnonymous(w: World, user: Blob) {
    w.TokenPid(user) == None && (Decimal.ParseUint(user) == None || Decimal.ParseUint(user).value < FIRST_ACCOUNT)
  }

  /**
   Turning switches on only takes logins away and never changes the PID of one that is still accepted; the logins
   taken away are exactly the anonymous ones and the bare numbers without a token naming them.
   */
  lemma StricterOnlyRefuses(lax: Config, strict: Config, w: World, user: Blob, extra: Blob)
    requires strict.AtLeastAsStrictAs(lax)
    ensures ResolveUser(strict, w, user, extra).Some? ==> ResolveUser(strict, w, user, extra) == ResolveUser(lax, w, user, extra)
    ensures ResolveUser(lax, w, user, extra).Some? && ResolveUser(strict, w, user, extra) == None
       <==> ResolveUser(lax, w, user, extra).Some?
            && ((strict.requireAccount && IsAnonymous(w, user))
                || (strict.requireSigned && IsBareNumber(w, user) && w.ProvenPid(extra) != Decimal.ParseUint(user)))
  {
  }

  // ----- who gets in -----

  /** A token issued for `pid`: dot-free name, not revoked, not expired. */
  predicate Issued(w: World, token: Blob, pid: u64, name: Blob, expiry: Decimal.i64) {
    && w.verifier.secret != []
    && token == Token.PrintToken(w.verifier, Token.PrintPayload(pid, name, expiry))
    && Decimal.DOT !in name && Token.PrintPayload(pid, name, expiry) !in w.verifier.revoked && w.now <= expiry
  }

  lemma {:induction false} IssuedIsAccepted(w: World, token: Blob, pid: u64, name: Blob, expiry: Decimal.i64)
    requires Issued(w, token, pid, name, expiry)
    ensures w.TokenPid(token) == Some(pid)
  {
    Token.TokenAcceptedIff(w.verifier, w.now, pid, name, expiry);
  }

  /** An issued token as user name logs its account in under every configuration, unless the online check says no. */
  lemma {:induction false} IssuedTokenLogsIn(cfg: Config, w: World, token: Blob, extra: Blob, pid: u64, name: Blob, expiry: Decimal.i64)
    requires Issued(w, token, pid, name, expiry)
    ensures ResolveUser(cfg, w, token, extra) == if w.check(pid, Emulator) == Answered(false) then None else Some(pid)
  {
    IssuedIsAccepted(w, token, pid, name, expiry);
  }

  /** An account number as user name, with the token issued for it in the extra data, likewise. */
  lemma ProvenNumberLogsIn(cfg: Config, w: World, extra: Blob, token: Blob, pid: u64, name: Blob, expiry: Decimal.i64)
    requires 1_800_000_000 <= pid < 1_810_000_000
    requires w.tokenIn(extra) == Some(token) && Issued(w, token, pid, name, expiry)
    ensures ResolveUser(cfg, w, Decimal.PrintUint(pid), extra)
         == if w.check(pid, Emulator) == Answered(false) then None else Some(pid)
  {
    IssuedIsAccepted(w, token, pid, name, expiry);
    Decimal.UintRoundTrip(pid);
    NumbersAreNotTokens(w, pid);
  }

  /** A console's NSA id logs in the account it is linked to, unless the online check says no, under every configuration. */
  lemma ConsoleLogsInIff(cfg: Config, w: World, extra: Blob, nsa: u64)
    requires nsa >= 1_810_000_000
    ensures ResolveUser(cfg, w, Decimal.PrintUint(nsa), extra)
         == var a := w.resolve(nsa);
            if a.status != Nsa.Linked || w.check(a.pid, Console) == Answered(false) then None else Some(a.pid)
  {
    Decimal.UintRoundTrip(nsa);
    NumbersAreNotTokens(w, nsa);
  }

  /** A number outside both ranges is nobody's identity: it is hashed like any other name. */
  lemma SmallNumbersAreAnonymous(cfg: Config, w: World, extra: Blob, n: u64)
    requires n < 1_800_000_000
    ensures ResolveUser(cfg, w, Decimal.PrintUint(n), extra)
         == if cfg.requireAccount then None else Some(AnonymousPid(w.hash(Decimal.PrintUint(n))))
  {
    Decimal.UintRoundTrip(n);
    NumbersAreNotTokens(w, n);
  }

  lemma NumbersAreNotTokens(w: World, n: u64)
    ensures w.TokenPid(Decimal.PrintUint(n)) == None
  {
    Decimal.UintRoundTrip(n);
    if w.TokenPid(Decimal.PrintUint(n)).Some? {
      TokensAreNotNumbers(w, Decimal.PrintUint(n));
    }
  }

  // ----- what full strictness guarantees -----

  /** A signed, unrevoked, unexpired token that names `pid` came with the login, as user name or in the extra data. */
  ghost predicate HasSignedProof(w: World, user: Blob, extra: Blob, pid: u64) {
    w.verifier.secret != [] && exists token, a, raw ::
      && (token == user || w.tokenIn(extra) == Some(token))
      && Token.IsSigned(w.verifier, token, a, raw) && raw !in w.verifier.revoked
      && Token.FromPayload(raw, w.now) == Some(pid)
  }

  /** The account service linked the console's NSA id to `pid`. */
  predicate HasConsoleProof(w: World, user: Blob, pid: u64) {
    Decimal.ParseUint(user).Some? && Decimal.ParseUint(user).value >= FIRST_NSA
    && w.resolve(Decimal.ParseUint(user).value) == Nsa.Answer(pid, Nsa.Linked)
  }

  lemma OpenedTokenIsProof(w: World, user: Blob, extra: Blob, token: Blob, pid: u64)
    requires token == user || w.tokenIn(extra) == Some(token)
    requires w.TokenPid(token) == Some(pid)
    ensures HasSignedProof(w, user, extra, pid)
  {
    Token.AcceptedIffSigned(w.verifier, w.now, token, pid);
  }

  /**
   With both switches on, every accepted PID is proven by a signed token that names it or by a positive NSA
   resolution, and the online check for that PID allowed it or could not be reached.
   */
  lemma {:induction false} StrictLoginsAreProven(w: World, user: Blob, extra: Blob, pid: u64)
    requires ResolveUser(Config(true, true), w, user, extra) == Some(pid)
    ensures (HasSignedProof(w, user, extra, pid) && w.Admits(pid, Emulator))
         || (HasConsoleProof(w, user, pid) && w.Admits(pid, Console))
  {
    if w.TokenPid(user) == Some(pid) {
      OpenedTokenIsProof(w, user, extra, user, pid);
    } else if w.ProvenPid(extra) == Some(pid) && !HasConsoleProof(w, user, pid) {
      OpenedTokenIsProof(w, user, extra, w.tokenIn(extra).value, pid);
    }
  }

  /** The login is accepted though neither a token nor the account service vouches for its PID, or the check said no. */
  ghost predicate LetsInUnproven(cfg: Config, w: World, user: Blob, extra: Blob, pid: u64) {
    && ResolveUser(cfg, w, user, extra) == Some(pid)
    && !(HasSignedProof(w, user, extra, pid) && w.Admits(pid, Emulator))
    && !(HasConsoleProof(w, user, pid) && w.Admits(pid, Console))
  }

  lemma DigitsAreNotSigned(v: Token.Verifier, user: Blob, a: Blob, raw: Blob)
    requires user == [] || Decimal.IsDigit(user[0])
    ensures !Token.IsSigned(v, user, a, raw)
  {
    assert Text(Token.PREFIX)[0] == 'n' as int;
  }

  /** For a user name that is no token, a signed proof is one in the extra data. */
  lemma ProofIsInExtra(w: World, user: Blob, extra: Blob, pid: u64)
    requires user == [] || Decimal.IsDigit(user[0])
    ensures HasSignedProof(w, user, extra, pid) <==> w.ProvenPid(extra) == Some(pid)
  {
    forall a, raw
      ensures !Token.IsSigned(w.verifier, user, a, raw)
    {
      DigitsAreNotSigned(w.verifier, user, a, raw);
    }
    if w.verifier.secret != [] && w.tokenIn(extra).Some? {
      Token.AcceptedIffSigned(w.verifier, w.now, w.tokenIn(extra).value, pid);
    }
  }

  /** Who gets into an account by sending its number, in every world and under every configuration. */
  lemma NumberLogsInIff(cfg: Config, w: World, extra: Blob, pid: u64)
    requires 1_800_000_000 <= pid < 1_810_000_000
    ensures ResolveUser(cfg, w, Decimal.PrintUint(pid), extra) == Some(pid)
       <==> w.Admits(pid, Emulator) && (cfg.requireSigned ==> w.ProvenPid(extra) == Some(pid))
    ensures LetsInUnproven(cfg, w, Decimal.PrintUint(pid), extra, pid)
       <==> w.Admits(pid, Emulator) && !cfg.requireSigned && w.ProvenPid(extra) != Some(pid)
  {
    Decimal.UintRoundTrip(pid);
    NumbersAreNotTokens(w, pid);
    ProofIsInExtra(w, Decimal.PrintUint(pid), extra, pid);
  }

  lemma NamelessIsAnonymous(w: World)
    ensures IsAnonymous(w, [])
  {
    assert |Text(Token.PREFIX)| == 4;
    assert Decimal.ParseUint([]) == None;
  }

  /** What anonymous names get into, in every world. */
  lemma AnonymousLogsInIff(cfg: Config, w: World, user: Blob, extra: Blob, pid: u64)
    requires IsAnonymous(w, user)
    ensures ResolveUser(cfg, w, user, extra) == Some(pid) <==> !cfg.requireAccount && pid == AnonymousPid(w.hash(user))
  {
  }

  /** Who gets into an account by sending the empty name, likewise: anybody, into the account it hashes to. */
  lemma NamelessLogsInIff(cfg: Config, w: World, extra: Blob, pid: u64)
    ensures ResolveUser(cfg, w, [], extra) == Some(pid) <==> !cfg.requireAccount && pid == AnonymousPid(w.hash([]))
    ensures w.ProvenPid(extra) == None ==>
      (LetsInUnproven(cfg, w, [], extra, pid) <==> !cfg.requireAccount && pid == AnonymousPid(w.hash([])))
  {
    NamelessIsAnonymous(w);
    AnonymousLogsInIff(cfg, w, [], extra, pid);
    ProofIsInExtra(w, [], extra, pid);
    assert Decimal.ParseUint([]) == None;
  }

  /** Somebody can enter the account without any proof. */
  ghost predicate Open(cfg: Config, w: World, pid: u64) {
    exists user, extra :: LetsInUnproven(cfg, w, user, extra, pid)
  }

  /**
   Without the signature switch every account the online check admits is open, in every world in which a login can
   come without a token.
   */
  lemma NumbersOpenAccounts(cfg: Config, w: World, extra: Blob, pid: u64)
    requires FIRST_ACCOUNT <= pid < FIRST_NSA && !cfg.requireSigned && w.Admits(pid, Emulator) && w.tokenIn(extra) == None
    ensures Open(cfg, w, pid)
  {
    NumberLogsInIff(cfg, w, extra, pid);
  }

  /** Without the account switch, in every such world, the account the empty name hashes to is open. */
  lemma NamesOpenAccounts(cfg: Config, w: World, extra: Blob)
    requires !cfg.requireAccount && w.tokenIn(extra) == None
    ensures Open(cfg, w, AnonymousPid(w.hash([])))
  {
    NamelessLogsInIff(cfg, w, extra, AnonymousPid(w.hash([])));
  }

  /** All that is asked of a world: a login can come without a token, and the online check admits account numbers. */
  predicate Usual(w: World) {
    w.tokenIn([]) == None && forall pid: u64 :: FIRST_ACCOUNT <= pid < FIRST_NSA ==> w.Admits(pid, Emulator)
  }

  /** In any usual world: no account is open exactly when both switches are on; without the signature switch all of them are. */
  lemma OpenIffLax(cfg: Config, w: World)
    requires Usual(w)
    ensures (forall pid: u64 :: !Open(cfg, w, pid)) <==> cfg == Config(true, true)
    ensures !cfg.requireSigned ==> forall pid: u64 :: FIRST_ACCOUNT <= pid < FIRST_NSA ==> Open(cfg, w, pid)
  {
    forall pid: u64 | FIRST_ACCOUNT <= pid < FIRST_NSA && !cfg.requireSigned
      ensures Open(cfg, w, pid)
    {
      NumbersOpenAccounts(cfg, w, [], pid);
    }
    assert !cfg.requireSigned ==> Open(cfg, w, FIRST_ACCOUNT);
    if !cfg.requireAccount {
      NamesOpenAccounts(cfg, w, []);
    }
    forall pid: u64 | cfg == Config(true, true)
      ensures !Open(cfg, w, pid)
    {
      NeverOpenWhenStrict(w, pid);
    }
  }

  lemma NeverOpenWhenStrict(w: World, pid: u64)
    ensures !Open(Config(true, true), w, pid)
  {
    forall user, extra
      ensures !LetsInUnproven(Config(true, true), w, user, extra, pid)
    {
      if ResolveUser(Config(true, true), w, user, extra) == Some(pid) {
        StrictLoginsAreProven(w, user, extra, pid);
      }
    }
  }

  ghost predicate OpenSomewhere(cfg: Config, pid: u64) {
    exists w :: Open(cfg, w, pid)
  }

  /** A server without a secret, with nobody linked, no online check, and one hash for every name. */
  function Bare(hash: u32): World {
    World(Token.Verifier([], (_, _) => [], {}), 0, _ => None, (_, _) => Failed, _ => Nsa.Answer(0, Nsa.Unreachable), _ => hash)
  }

  /** Over all worlds: no account whatsoever is open anywhere exactly when both switches are on, and otherwise every one is somewhere. */
  lemma ProvenIffStrict(cfg: Config)
    ensures (forall pid: u64 :: !OpenSomewhere(cfg, pid)) <==> cfg == Config(true, true)
    ensures cfg != Config(true, true) <==> forall pid: u64 :: FIRST_ACCOUNT <= pid < FIRST_NSA ==> OpenSomewhere(cfg, pid)
  {
    forall pid: u64
      ensures FIRST_ACCOUNT <= pid < FIRST_NSA && cfg != Config(true, true) ==> OpenSomewhere(cfg, pid)
      ensures cfg == Config(true, true) ==> !OpenSomewhere(cfg, pid)
    {
      if cfg == Config(true, true) {
        forall w
          ensures !Open(cfg, w, pid)
        {
          NeverOpenWhenStrict(w, pid);
        }
      } else if FIRST_ACCOUNT <= pid < FIRST_NSA && !cfg.requireSigned {
        NumbersOpenAccounts(cfg, Bare(0), [], pid);
      } else if FIRST_ACCOUNT <= pid < FIRST_NSA {
        NamesOpenAccounts(cfg, Bare(pid - FIRST_ACCOUNT), []);
      }
    }
    assert OpenSomewhere(cfg, FIRST_ACCOUNT) <==> cfg != Config(true, true);
  }

  /** No user name is both a token and a number, so the order of the two tests does not matter. */
  lemma {:induction false} TokensAreNotNumbers(w: World, user: Blob)
    requires w.TokenPid(user).Some?
    ensures Decimal.ParseUint(user) == None
  {
    assert Text(Token.PREFIX)[0] == 'n' as int;
    assert user[..4][0] == 'n' as int;
    assert !Decimal.IsDigit(user[0]);
  }

  /**
   A console admitted on the answer of a finished resolution plays under a nonzero PID that the account service
   itself gave for its NSA id, however that resolution was interleaved with others.
   */
  lemma ConsolePidWasServed(cfg: Config, w: World, user: Blob, extra: Blob, pid: u64,
                            steps: seq<NsaRuns.Step>, s: NsaRuns.System, t: NsaRuns.Tid)
    requires ResolveUser(cfg, w, user, extra) == Some(pid) && HasConsoleProof(w, user, pid)
    requires NsaRuns.Runs(NsaRuns.INITIAL, steps, s) && t in s.threads && s.threads[t].Done?
    requires s.threads[t].nsa == Decimal.ParseUint(user).value && s.threads[t].answer == w.resolve(s.threads[t].nsa)
    ensures pid != 0 && (s.threads[t].nsa, pid) in s.served
  {
    NsaRuns.AnswersAreSound(steps, s, t);
  }
}
