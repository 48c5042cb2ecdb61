/**
 Resolving a console's NSA id to an account PID: a positive cache, a bounded negative cache with a lifetime,
 and 16 call slots.
 */
module Nsa {
  import opened Bytes

  datatype Status = Linked | Unknown | Unreachable

  datatype Answer = Answer(pid: u64, status: Status)

  /** What the account service did with the request; `pid` is None when its body does not decode. */
  datatype Outcome = TransportError | NotFound | OtherStatus | Reply(pid: Option<u64>)

  datatype NegEntry = NegEntry(status: Status, at: nat)

  /** The two tables behind the lock. */
  datatype Caches = Caches(linked: map<u64, u64>, failed: map<u64, NegEntry>)

  const NEG_TTL: nat := 60_000_000_000 // nanoseconds
  const NEG_MAX: nat := 4096
  const MAX_INFLIGHT: nat := 16

  function Verdict(outcome: Outcome): (a: Answer)
    ensures a.status == Linked <==> a.pid != 0
    ensures a.status == Linked <==> outcome.Reply? && outcome.pid.Some? && outcome.pid.value != 0
    ensures a.status == Linked ==> a.pid == outcome.pid.value
    ensures a.status == Unknown <==> outcome == NotFound
  {
    match outcome
    case Reply(Some(pid)) => if pid == 0 then Answer(0, Unreachable) else Answer(pid, Linked)
    case NotFound => Answer(0, Unknown)
    case _ => Answer(0, Unreachable)
  }

  // ----- the critical sections, on values -----

  function LookedUp(c: Caches, nsa: u64, now: nat): Option<Answer> {
    if nsa in c.linked then Some(Answer(c.linked[nsa], Linked))
    else if nsa in c.failed && now - c.failed[nsa].at < NEG_TTL then Some(Answer(0, c.failed[nsa].status))
    else None
  }

  /** The failure table is emptied when it is full, even when the id already has an entry. */
  predicate Resets(c: Caches) {
    |c.failed| >= NEG_MAX
  }

  function Remembered(c: Caches, nsa: u64, status: Status, now: nat): Caches {
    c.(failed := (if Resets(c) then map[] else c.failed)[nsa := NegEntry(status, now)])
  }

  /** Recording one more failure in a full table, of an id it knows or not, makes every other unlinked id miss at once. */
  lemma FullTableForgets(c: Caches, nsa: u64, status: Status, other: u64, now: nat)
    requires |c.failed| == 4096 && other != nsa && other !in c.linked
    ensures LookedUp(Remembered(c, nsa, status, now), other, now) == None
  {
  }

  function Learned(c: Caches, nsa: u64, pid: u64): Caches {
    Caches(c.linked[nsa := pid], c.failed - {nsa})
  }

  function Published(c: Caches, nsa: u64, outcome: Outcome, now: nat): Caches {
    var a := Verdict(outcome);
    if a.status == Linked then Learned(c, nsa, a.pid) else Remembered(c, nsa, a.status, now)
  }

  /** A whole resolution that nothing interrupts: looked up at `now`, published at `later`. */
  function Resolved(c: Caches, free: bool, nsa: u64, now: nat, outcome: Outcome, later: nat): (Answer, Caches) {
    match LookedUp(c, nsa, now)
    case Some(a) => (a, c)
    case None =>
      if !free then (Answer(0, Unreachable), c)
      else (Verdict(outcome), Published(c, nsa, outcome, later))
  }

  class Gate {
    var nsaCache: map<u64, u64>
    var nsaNegCache: map<u64, NegEntry>
    var inflight: nat

    function Tables(): Caches
      reads this
    {
      Caches(nsaCache, nsaNegCache)
    }

    constructor ()
      ensures Tables() == Caches(map[], map[]) && inflight == 0
    {
      nsaCache, nsaNegCache, inflight := map[], map[], 0;
    }

    method RememberFailure(nsa: u64, status: Status, now: nat)
      modifies this`nsaNegCache
      ensures Tables() == Remembered(old(Tables()), nsa, status, now)
    {
      if |nsaNegCache| >= NEG_MAX {
        nsaNegCache := map[];
      }
      nsaNegCache := nsaNegCache[nsa := NegEntry(status, now)];
    }

    /** `outcome` is what the service would answer if it were called. */
    method Resolve(nsa: u64, now: nat, outcome: Outcome, later: nat) returns (a: Answer)
      modifies this
      ensures (a, Tables()) == Resolved(old(Tables()), old(inflight) < MAX_INFLIGHT, nsa, now, outcome, later)
      ensures inflight == old(inflight)
    {
      if nsa in nsaCache {
        return Answer(nsaCache[nsa], Linked);
      }
      if nsa in nsaNegCache && now - nsaNegCache[nsa].at < NEG_TTL {
        return Answer(0, nsaNegCache[nsa].status);
      }
      if inflight >= MAX_INFLIGHT {
        return Answer(0, Unreachable);
      }
      inflight := inflight + 1;
      match outcome {
        case TransportError =>
          RememberFailure(nsa, Unreachable, later);
          a := Answer(0, Unreachable);
        case NotFound =>
          RememberFailure(nsa, Unknown, later);
          a := Answer(0, Unknown);
        case OtherStatus =>
          RememberFailure(nsa, Unreachable, later);
          a := Answer(0, Unreachable);
        case Reply(pid) =>
          if pid == None || pid == Some(0) {
            RememberFailure(nsa, Unreachable, later);
            a := Answer(0, Unreachable);
          } else {
            nsaCache := nsaCache[nsa := pid.value];
            nsaNegCache := nsaNegCache - {nsa};
            a := Answer(pid.value, Linked);
          }
      }
      inflight := inflight - 1;
    }
  }
}
