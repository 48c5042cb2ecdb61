/** Resolutions running side by side: every interleaving of the lookup, the slot, the call, the publication and the release. */
module NsaRuns {
  import opened Bytes
  import opened Maps
  import opened Nsa

  type Tid = nat

  /** When a resolution found nothing in the tables, and how many failures and resets there had been by then. */
  datatype Lookup = Lookup(at: nat, seen: nat, resets: nat)

  /** Where a finished resolution has its answer from. */
  datatype Source = FromLinked | FromFailure(at: nat) | Saturated | FromCall

  datatype Phase =
    | Looking(nsa: u64)                                     // before the lookup
    | Missed(nsa: u64, look: Lookup)                        // nothing cached, no slot yet
    | Calling(nsa: u64, look: Lookup)                       // holds a slot, call outstanding
    | Publishing(nsa: u64, outcome: Outcome, look: Lookup)  // holds a slot, call answered
    | Releasing(nsa: u64, answer: Answer, source: Source)   // holds a slot, tables updated
    | Done(nsa: u64, answer: Answer, source: Source)
  {
    predicate HoldsSlot() {
      Calling? || Publishing? || Releasing?
    }

    /** Between a failed lookup and the publication: this resolution may still change the tables. */
    predicate InFlight() {
      Missed? || Calling? || Publishing?
    }

    predicate Answered() {
      Releasing? || Done?
    }
  }

  /**
   A recorded failure; `epoch` counts the resets of the table up to and including its own recording, and `look` is the
   lookup that sent the failed call out.
   */
  datatype Failure = Failure(nsa: u64, status: Status, at: nat, epoch: nat, look: Lookup)

  datatype System = System(
    tables: Caches,
    slots: nat,
    threads: map<Tid, Phase>,
    now: nat,
    served: set<(u64, u64)>,     // every (nsa, pid) the service has answered
    failures: seq<Failure>,
    resets: nat)

  const INITIAL := System(Caches(map[], map[]), 0, map[], 0, {}, [], 0)

  datatype Step =
    | Tick(elapsed: nat)
    | Begin(t: Tid, nsa: u64)
    | Look(t: Tid)
    | TakeSlot(t: Tid)
    | Return(t: Tid, outcome: Outcome)
    | Publish(t: Tid)
    | Release(t: Tid)

  predicate Enabled(s: System, step: Step) {
    match step
    case Tick(_) => true
    case Begin(t, _) => t !in s.threads
    case Look(t) => t in s.threads && s.threads[t].Looking?
    case TakeSlot(t) => t in s.threads && s.threads[t].Missed?
    case Return(t, _) => t in s.threads && s.threads[t].Calling?
    case Publish(t) => t in s.threads && s.threads[t].Publishing?
    case Release(t) => t in s.threads && s.threads[t].Releasing? && s.slots > 0
  }

  function AfterLook(s: System, nsa: u64): (p: Phase)
    ensures p.nsa == nsa && !p.HoldsSlot()
  {
    match LookedUp(s.tables, nsa, s.now)
    case None => Missed(nsa, Lookup(s.now, |s.failures|, s.resets))
    case Some(a) => Done(nsa, a, if a.status == Linked then FromLinked else FromFailure(s.now))
  }

  function Served(nsa: u64, outcome: Outcome): set<(u64, u64)> {
    match outcome
    case Reply(Some(pid)) => {(nsa, pid)}
    case _ => {}
  }

  function AfterPublish(s: System, t: Tid, nsa: u64, outcome: Outcome, look: Lookup): System {
    var a := Verdict(outcome);
    var s' := s.(tables := Published(s.tables, nsa, outcome, s.now), threads := s.threads[t := Releasing(nsa, a, FromCall)]);
    if a.status == Linked then s'
    else
      var resets := if Resets(s.tables) then s.resets + 1 else s.resets;
      s'.(resets := resets, failures := s.failures + [Failure(nsa, a.status, s.now, resets, look)])
  }

  function Next(s: System, step: Step): System
    requires Enabled(s, step)
  {
    match step
    case Tick(elapsed) => s.(now := s.now + elapsed)
    case Begin(t, nsa) => s.(threads := s.threads[t := Looking(nsa)])
    case Look(t) => s.(threads := s.threads[t := AfterLook(s, s.threads[t].nsa)])
    case TakeSlot(t) =>
      var nsa := s.threads[t].nsa;
      if s.slots < MAX_INFLIGHT then s.(slots := s.slots + 1, threads := s.threads[t := Calling(nsa, s.threads[t].look)])
      else s.(threads := s.threads[t := Done(nsa, Answer(0, Unreachable), Saturated)])
    case Return(t, outcome) =>
      var nsa := s.threads[t].nsa;
      s.(served := s.served + Served(nsa, outcome), threads := s.threads[t := Publishing(nsa, outcome, s.threads[t].look)])
    case Publish(t) => AfterPublish(s, t, s.threads[t].nsa, s.threads[t].outcome, s.threads[t].look)
    case Release(t) =>
      var p := s.threads[t];
      s.(slots := s.slots - 1, threads := s.threads[t := Done(p.nsa, p.answer, p.source)])
  }

  /** `steps` lead from `s` to `s'`. */
  ghost predicate Runs(s: System, steps: seq<Step>, s': System)
    decreases |steps|
  {
    if steps == [] then s == s' else Enabled(s, steps[0]) && Runs(Next(s, steps[0]), steps[1..], s')
  }

  // ----- what every interleaving keeps -----

  function Holders(s: System): set<Tid> {
    set t | t in s.threads && s.threads[t].HoldsSlot()
  }

  /** Resolutions with a call to the account service outstanding. */
  function Callers(s: System): set<Tid> {
    set t | t in s.threads && s.threads[t].Calling?
  }

  /** The slots taken are the resolutions between acquiring and returning one, and both tables are bounded. */
  ghost predicate Bounded(s: System) {
    && s.slots == |Holders(s)| <= MAX_INFLIGHT
    && |s.tables.failed| <= NEG_MAX
    && NEG_MAX * s.resets + |s.tables.failed| <= |s.failures|
  }

  ghost predicate WasServed(s: System, nsa: u64, pid: u64) {
    pid != 0 && (nsa, pid) in s.served
  }

  /** Some failure of this NSA with this status was recorded at `at`. */
  ghost predicate WasRecorded(s: System, nsa: u64, status: Status, at: nat) {
    exists k :: 0 <= k < |s.failures| && s.failures[k].nsa == nsa && s.failures[k].status == status && s.failures[k].at == at
  }

  predicate IsFailure(f: Failure, nsa: u64, status: Status, at: nat, epoch: nat) {
    f.nsa == nsa && f.status == status && f.at == at && f.epoch == epoch
  }

  /** The same, and the table has not been reset since. */
  ghost predicate StillRecorded(s: System, nsa: u64, status: Status, at: nat) {
    exists k :: 0 <= k < |s.failures| && IsFailure(s.failures[k], nsa, status, at, s.resets)
  }

  /** Some failure of this NSA with this status was recorded less than a lifetime before `at`. */
  ghost predicate FailedShortlyBefore(s: System, nsa: u64, status: Status, at: nat) {
    exists recorded: nat :: recorded <= at < recorded + 60_000_000_000 && WasRecorded(s, nsa, status, recorded)
  }

  ghost predicate Justified(s: System, nsa: u64, answer: Answer, source: Source) {
    && (answer.status == Linked ==> WasServed(s, nsa, answer.pid))
    && (answer.status != Linked ==> answer.pid == 0)
    && (source.FromFailure? ==> answer.status != Linked && FailedShortlyBefore(s, nsa, answer.status, source.at))
    && (source.Saturated? ==> answer == Answer(0, Unreachable))
  }

  ghost predicate PhaseSound(s: System, p: Phase) {
    match p
    case Publishing(nsa, outcome, _) => Served(nsa, outcome) <= s.served
    case Releasing(nsa, answer, source) => Justified(s, nsa, answer, source)
    case Done(nsa, answer, source) => Justified(s, nsa, answer, source)
    case _ => true
  }

  ghost predicate TablesSound(s: System) {
    && (forall nsa :: nsa in s.tables.linked ==> WasServed(s, nsa, s.tables.linked[nsa]))
    && (forall nsa :: nsa in s.tables.failed ==>
          && s.tables.failed[nsa].status != Linked && s.tables.failed[nsa].at <= s.now
          && StillRecorded(s, nsa, s.tables.failed[nsa].status, s.tables.failed[nsa].at))
  }

  /** A failure recorded since the last reset is still in the table, unless the NSA has been linked in between. */
  ghost predicate Remembers(s: System, f: Failure) {
    && f.at <= s.now && f.epoch <= s.resets
    && (f.epoch == s.resets && f.nsa !in s.tables.linked ==> f.nsa in s.tables.failed && f.at <= s.tables.failed[f.nsa].at)
  }

  ghost predicate Sound(s: System) {
    && TablesSound(s)
    && (forall t :: t in s.threads ==> PhaseSound(s, s.threads[t]))
    && (forall k :: 0 <= k < |s.failures| ==> Remembers(s, s.failures[k]))
  }

  ghost predicate Inv(s: System) {
    Bounded(s) && Sound(s)
  }

  // -- bounds --

  lemma HoldersAfter(s: System, s': System, t: Tid, p: Phase)
    requires s'.threads == s.threads[t := p]
    ensures Holders(s') == if p.HoldsSlot() then Holders(s) + {t} else Holders(s) - {t}
  {
  }

  lemma PublishBounded(s: System, t: Tid, nsa: u64, outcome: Outcome, look: Lookup)
    requires Bounded(s)
    ensures var s' := AfterPublish(s, t, nsa, outcome, look);
      |s'.tables.failed| <= NEG_MAX && NEG_MAX * s'.resets + |s'.tables.failed| <= |s'.failures|
  {
    var a := Verdict(outcome);
    if a.status == Linked {
      SmallerWithout(s.tables.failed, nsa);
    } else {
      var entry := NegEntry(a.status, s.now);
      UpdateSize(s.tables.failed, nsa, entry);
      UpdateSize(map[], nsa, entry);
    }
  }

  /** Slots and holders move together when one thread changes its phase. */
  lemma PhaseChangeBounded(s: System, s': System, t: Tid, p: Phase)
    requires s.slots == |Holders(s)| <= MAX_INFLIGHT && s'.threads == s.threads[t := p]
    requires s'.slots <= MAX_INFLIGHT
    requires s'.slots == s.slots + (if p.HoldsSlot() then 1 else 0)
                       - (if t in s.threads && s.threads[t].HoldsSlot() then 1 else 0)
    ensures s'.slots == |Holders(s')|
  {
    HoldersAfter(s, s', t, p);
    assert t in Holders(s) <==> t in s.threads && s.threads[t].HoldsSlot();
  }

  lemma StepBounded(s: System, step: Step)
    requires Bounded(s) && Enabled(s, step)
    ensures Bounded(Next(s, step))
  {
    var s' := Next(s, step);
    match step
    case Tick(_) => assert Holders(s') == Holders(s);
    case Begin(t, nsa) => PhaseChangeBounded(s, s', t, Looking(nsa));
    case Look(t) => PhaseChangeBounded(s, s', t, AfterLook(s, s.threads[t].nsa));
    case TakeSlot(t) => PhaseChangeBounded(s, s', t, s'.threads[t]);
    case Return(t, outcome) => PhaseChangeBounded(s, s', t, s'.threads[t]);
    case Publish(t) =>
      PhaseChangeBounded(s, s', t, s'.threads[t]);
      PublishBounded(s, t, s.threads[t].nsa, s.threads[t].outcome, s.threads[t].look);
    case Release(t) => PhaseChangeBounded(s, s', t, s'.threads[t]);
  }

  // -- soundness --

  /** Later states know at least as much about the past. */
  ghost predicate Extends(s: System, s': System) {
    s.served <= s'.served && s.failures <= s'.failures && s.now <= s'.now
  }

  lemma RecordedStays(s: System, s': System, nsa: u64, status: Status, at: nat)
    requires Extends(s, s') && WasRecorded(s, nsa, status, at)
    ensures WasRecorded(s', nsa, status, at)
  {
    var k :| 0 <= k < |s.failures| && s.failures[k].nsa == nsa && s.failures[k].status == status && s.failures[k].at == at;
    assert s'.failures[k] == s.failures[k];
  }

  lemma StillRecordedStays(s: System, s': System, nsa: u64, status: Status, at: nat)
    requires Extends(s, s') && s'.resets == s.resets && StillRecorded(s, nsa, status, at)
    ensures StillRecorded(s', nsa, status, at)
  {
    var k :| 0 <= k < |s.failures| && IsFailure(s.failures[k], nsa, status, at, s.resets);
    assert s'.failures[k] == s.failures[k];
  }

  lemma JustifiedStays(s: System, s': System, nsa: u64, answer: Answer, source: Source)
    requires Extends(s, s') && Justified(s, nsa, answer, source)
    ensures Justified(s', nsa, answer, source)
  {
    if source.FromFailure? {
      var recorded: nat :| recorded <= source.at < recorded + NEG_TTL && WasRecorded(s, nsa, answer.status, recorded);
      RecordedStays(s, s', nsa, answer.status, recorded);
    }
  }

  lemma PhaseStays(s: System, s': System, p: Phase)
    requires Extends(s, s') && PhaseSound(s, p)
    ensures PhaseSound(s', p)
  {
    match p
    case Releasing(nsa, answer, source) => JustifiedStays(s, s', nsa, answer, source);
    case Done(nsa, answer, source) => JustifiedStays(s, s', nsa, answer, source);
    case _ =>
  }

  lemma LookSound(s: System, nsa: u64)
    requires TablesSound(s)
    ensures PhaseSound(s, AfterLook(s, nsa))
  {
    match LookedUp(s.tables, nsa, s.now)
    case None =>
    case Some(a) =>
      if a.status != Linked {
        var entry := s.tables.failed[nsa];
        var k :| 0 <= k < |s.failures| && IsFailure(s.failures[k], nsa, entry.status, entry.at, s.resets);
        assert WasRecorded(s, nsa, entry.status, entry.at);
        assert entry.at <= s.now < entry.at + NEG_TTL;
      }
  }

  /** A step that leaves tables and log alone keeps soundness when the phase it writes is sound. */
  lemma QuietStepSound(s: System, s': System, t: Tid, p: Phase)
    requires Sound(s) && Extends(s, s')
    requires s'.tables == s.tables && s'.failures == s.failures && s'.resets == s.resets
    requires s'.threads == s.threads || (s'.threads == s.threads[t := p] && PhaseSound(s', p))
    ensures Sound(s')
  {
    forall nsa | nsa in s'.tables.failed
      ensures StillRecorded(s', nsa, s'.tables.failed[nsa].status, s'.tables.failed[nsa].at)
    {
      StillRecordedStays(s, s', nsa, s.tables.failed[nsa].status, s.tables.failed[nsa].at);
    }
    forall u | u in s'.threads
      ensures PhaseSound(s', s'.threads[u])
    {
      if s'.threads == s.threads || u != t {
        PhaseStays(s, s', s.threads[u]);
      }
    }
    forall k | 0 <= k < |s'.failures|
      ensures Remembers(s', s'.failures[k])
    {
      assert Remembers(s, s.failures[k]);
    }
  }

  lemma PublishKeepsTables(s: System, t: Tid, nsa: u64, outcome: Outcome, look: Lookup)
    requires Sound(s) && Served(nsa, outcome) <= s.served
    ensures var s' := AfterPublish(s, t, nsa, outcome, look);
      Extends(s, s') && TablesSound(s') && Justified(s', nsa, Verdict(outcome), FromCall)
  {
    var s' := AfterPublish(s, t, nsa, outcome, look);
    var a := Verdict(outcome);
    if a.status == Linked {
      assert (nsa, a.pid) in Served(nsa, outcome);
    } else {
      assert IsFailure(s'.failures[|s.failures|], nsa, a.status, s.now, s'.resets);
      assert StillRecorded(s', nsa, a.status, s.now);
    }
    forall x | x in s'.tables.failed && !(x == nsa && a.status != Linked)
      ensures StillRecorded(s', x, s'.tables.failed[x].status, s'.tables.failed[x].at)
    {
      StillRecordedStays(s, s', x, s.tables.failed[x].status, s.tables.failed[x].at);
    }
  }

  lemma PublishKeepsLog(s: System, t: Tid, nsa: u64, outcome: Outcome, look: Lookup, k: nat)
    requires Sound(s)
    requires k < |AfterPublish(s, t, nsa, outcome, look).failures|
    ensures var s' := AfterPublish(s, t, nsa, outcome, look); Remembers(s', s'.failures[k])
  {
    if k < |s.failures| {
      assert Remembers(s, s.failures[k]);
    }
  }

  lemma PublishSound(s: System, t: Tid)
    requires Sound(s) && Enabled(s, Publish(t))
    ensures Sound(Next(s, Publish(t)))
  {
    var nsa, outcome, look := s.threads[t].nsa, s.threads[t].outcome, s.threads[t].look;
    var s' := AfterPublish(s, t, nsa, outcome, look);
    assert PhaseSound(s, s.threads[t]);
    PublishKeepsTables(s, t, nsa, outcome, look);
    forall u | u in s'.threads
      ensures PhaseSound(s', s'.threads[u])
    {
      if u != t {
        PhaseStays(s, s', s.threads[u]);
      }
    }
    forall k | 0 <= k < |s'.failures|
      ensures Remembers(s', s'.failures[k])
    {
      PublishKeepsLog(s, t, nsa, outcome, look, k);
    }
  }

  lemma StepSound(s: System, step: Step)
    requires Sound(s) && Enabled(s, step)
    ensures Sound(Next(s, step))
  {
    var s' := Next(s, step);
    match step
    case Tick(_) => QuietStepSound(s, s', 0, Looking(0));
    case Begin(t, _) => QuietStepSound(s, s', t, s'.threads[t]);
    case Look(t) =>
      LookSound(s, s.threads[t].nsa);
      PhaseStays(s, s', s'.threads[t]);
      QuietStepSound(s, s', t, s'.threads[t]);
    case TakeSlot(t) => QuietStepSound(s, s', t, s'.threads[t]);
    case Return(t, _) => QuietStepSound(s, s', t, s'.threads[t]);
    case Publish(t) => PublishSound(s, t);
    case Release(t) =>
      assert PhaseSound(s, s.threads[t]);
      PhaseStays(s, s', s.threads[t]);
      QuietStepSound(s, s', t, s'.threads[t]);
  }

  /** Every reachable state satisfies the invariant. */
  lemma {:induction false} RunsKeepInv(s: System, steps: seq<Step>, s': System)
    requires Inv(s) && Runs(s, steps, s')
    ensures Inv(s')
    decreases |steps|
  {
    if steps != [] {
      StepBounded(s, steps[0]);
      StepSound(s, steps[0]);
      RunsKeepInv(Next(s, steps[0]), steps[1..], s');
    }
  }

  lemma InitialInv()
    ensures Inv(INITIAL)
  {
    assert Holders(INITIAL) == {};
  }

  /**
   At any moment of any interleaving: slots taken = resolutions holding one, at most 16 calls are outstanding,
   the failure table has at most 4096 entries, and 4096 * resets + entries never exceeds the failures recorded.
   */
  lemma LoadIsBounded(steps: seq<Step>, s: System)
    requires Runs(INITIAL, steps, s)
    ensures s.slots == |Holders(s)|
    ensures |Callers(s)| <= 16
    ensures |s.tables.failed| <= 4096
    ensures 4096 * s.resets + |s.tables.failed| <= |s.failures|
  {
    InitialInv();
    RunsKeepInv(INITIAL, steps, s);
    SubsetSize(Callers(s), Holders(s));
  }

  /**
   Answers are sound at any moment of any interleaving: a linked answer carries a nonzero PID the service gave
   for that NSA, and an answer from the failure table repeats a failure recorded less than 60 seconds before.
   */
  lemma AnswersAreSound(steps: seq<Step>, s: System, t: Tid)
    requires Runs(INITIAL, steps, s) && t in s.threads && s.threads[t].Answered()
    ensures var p := s.threads[t];
      && (p.answer.status == Linked ==> WasServed(s, p.nsa, p.answer.pid))
      && (p.source.FromFailure? ==> FailedShortlyBefore(s, p.nsa, p.answer.status, p.source.at))
  {
    InitialInv();
    RunsKeepInv(INITIAL, steps, s);
    assert PhaseSound(s, s.threads[t]);
  }

  // ----- who calls the service and touches the tables -----

  /** How often thread `t` got an answer from the service in the run. */
  function Returns(steps: seq<Step>, t: Tid): nat {
    if steps == [] then 0 else (if steps[0].Return? && steps[0].t == t then 1 else 0) + Returns(steps[1..], t)
  }

  /** How often thread `t` updated the tables in the run. */
  function Publications(steps: seq<Step>, t: Tid): nat {
    if steps == [] then 0 else (if steps[0] == Publish(t) then 1 else 0) + Publications(steps[1..], t)
  }

  predicate AnsweredByCall(s: System, t: Tid) {
    t in s.threads && s.threads[t].Answered() && s.threads[t].source == FromCall
  }

  predicate GotReply(s: System, t: Tid) {
    (t in s.threads && s.threads[t].Publishing?) || AnsweredByCall(s, t)
  }

  lemma {:induction false} CallsAddUp(s: System, steps: seq<Step>, s': System, t: Tid)
    requires Runs(s, steps, s')
    ensures (if AnsweredByCall(s', t) then 1 else 0) == (if AnsweredByCall(s, t) then 1 else 0) + Publications(steps, t)
    ensures (if GotReply(s', t) then 1 else 0) == (if GotReply(s, t) then 1 else 0) + Returns(steps, t)
    decreases |steps|
  {
    if steps != [] {
      CallsAddUp(Next(s, steps[0]), steps[1..], s', t);
    }
  }

  /**
   Over any run: a resolution that ended with the answer of its call was answered by the service once and updated the
   tables once; one that ended in any other way, saturated or cached, did neither.
   */
  lemma CalledOnceOrNever(steps: seq<Step>, s: System, t: Tid)
    requires Runs(INITIAL, steps, s) && t in s.threads && s.threads[t].Done?
    ensures Returns(steps, t) == Publications(steps, t) == if s.threads[t].source == FromCall then 1 else 0
  {
    CallsAddUp(INITIAL, steps, s, t);
  }

  lemma {:induction false} NoPublicationNoChange(s: System, steps: seq<Step>, s': System)
    requires Runs(s, steps, s') && forall t :: Publications(steps, t) == 0
    ensures s'.tables == s.tables && s'.failures == s.failures
    decreases |steps|
  {
    if steps != [] {
      assert steps[0].Publish? ==> Publications(steps, steps[0].t) > 0;
      forall t
        ensures Publications(steps[1..], t) == 0
      {
        assert Publications(steps, t) == 0;
      }
      NoPublicationNoChange(Next(s, steps[0]), steps[1..], s');
    }
  }

  /** A stretch of a run in which no call is answered and published leaves both tables alone, however many resolutions it saturates. */
  lemma OnlyCallsChangeTables(s: System, steps: seq<Step>, s': System)
    requires Runs(s, steps, s') && forall t :: AnsweredByCall(s', t) ==> AnsweredByCall(s, t)
    ensures s'.tables == s.tables && s'.failures == s.failures
  {
    forall t
      ensures Publications(steps, t) == 0
    {
      CallsAddUp(s, steps, s', t);
    }
    NoPublicationNoChange(s, steps, s');
  }

  // ----- how often a failing lookup reaches the service -----

  /**
   Exactly when a lookup goes out to the service, in any reachable state: the NSA has never been linked, and each of
   its failures is at least 60 seconds old or was recorded before the last reset of the table.
   */
  lemma MissIff(steps: seq<Step>, s: System, nsa: u64)
    requires Runs(INITIAL, steps, s)
    ensures LookedUp(s.tables, nsa, s.now) == None
       <==> nsa !in s.tables.linked
            && forall k :: 0 <= k < |s.failures| && s.failures[k].nsa == nsa ==>
                 s.failures[k].at + 60_000_000_000 <= s.now || s.failures[k].epoch < s.resets
  {
    InitialInv();
    RunsKeepInv(INITIAL, steps, s);
    if LookedUp(s.tables, nsa, s.now) == None {
      forall k | 0 <= k < |s.failures| && s.failures[k].nsa == nsa
        ensures s.failures[k].at + NEG_TTL <= s.now || s.failures[k].epoch < s.resets
      {
        assert Remembers(s, s.failures[k]);
      }
    } else if nsa !in s.tables.linked {
      var entry := s.tables.failed[nsa];
      var k :| 0 <= k < |s.failures| && IsFailure(s.failures[k], nsa, entry.status, entry.at, s.resets);
      assert s.now < s.failures[k].at + NEG_TTL;
    }
  }

  /** No thread works on an NSA outside `ids`, none outside has an entry, and the table was never reset. */
  ghost predicate Within(s: System, ids: set<u64>) {
    && (forall t :: t in s.threads ==> s.threads[t].nsa in ids)
    && s.tables.failed.Keys <= ids
    && s.resets == 0
  }

  ghost predicate BeginsWithin(steps: seq<Step>, ids: set<u64>) {
    forall i :: 0 <= i < |steps| && steps[i].Begin? ==> steps[i].nsa in ids
  }

  lemma StepWithin(s: System, step: Step, ids: set<u64>)
    requires Within(s, ids) && Enabled(s, step) && |ids| < NEG_MAX
    requires step.Begin? ==> step.nsa in ids
    ensures Within(Next(s, step), ids)
  {
    SubsetSize(s.tables.failed.Keys, ids);
    assert |s.tables.failed| == |s.tables.failed.Keys|;
    if step.Publish? {
      var nsa, outcome := s.threads[step.t].nsa, s.threads[step.t].outcome;
      var failed := Published(s.tables, nsa, outcome, s.now).failed;
      assert failed.Keys <= s.tables.failed.Keys + {nsa};
    }
  }

  lemma {:induction false} RunsWithin(s: System, steps: seq<Step>, s': System, ids: set<u64>)
    requires Within(s, ids) && Runs(s, steps, s') && BeginsWithin(steps, ids) && |ids| < NEG_MAX
    ensures Within(s', ids)
    decreases |steps|
  {
    if steps != [] {
      assert steps[0].Begin? ==> steps[0].nsa in ids;
      StepWithin(s, steps[0], ids);
      assert forall i :: 0 <= i < |steps[1..]| ==> steps[1..][i] == steps[i + 1];
      RunsWithin(Next(s, steps[0]), steps[1..], s', ids);
    }
  }

  // ----- how far apart failing calls are -----

  /** Every failure of the id that had been recorded by this lookup was a lifetime old or forgotten by a reset. */
  ghost predicate MissedRightly(s: System, nsa: u64, look: Lookup) {
    && look.seen <= |s.failures| && look.resets <= s.resets && look.at <= s.now
    && forall k :: 0 <= k < look.seen && s.failures[k].nsa == nsa ==>
         s.failures[k].at + NEG_TTL <= look.at || s.failures[k].epoch < look.resets
  }

  ghost predicate Spaced(s: System) {
    && (forall t :: t in s.threads && s.threads[t].InFlight() ==> MissedRightly(s, s.threads[t].nsa, s.threads[t].look))
    && (forall j :: 0 <= j < |s.failures| ==> MissedRightly(s, s.failures[j].nsa, s.failures[j].look))
  }

  lemma MissedRightlyStays(s: System, s': System, nsa: u64, look: Lookup)
    requires MissedRightly(s, nsa, look) && Extends(s, s') && s.resets <= s'.resets
    ensures MissedRightly(s', nsa, look)
  {
    assert forall k :: 0 <= k < look.seen ==> s'.failures[k] == s.failures[k];
  }

  lemma LookMissesRightly(s: System, nsa: u64)
    requires Sound(s) && LookedUp(s.tables, nsa, s.now) == None
    ensures MissedRightly(s, nsa, Lookup(s.now, |s.failures|, s.resets))
  {
    forall k | 0 <= k < |s.failures| && s.failures[k].nsa == nsa
      ensures s.failures[k].at + NEG_TTL <= s.now || s.failures[k].epoch < s.resets
    {
      assert Remembers(s, s.failures[k]);
    }
  }

  lemma StepSpaced(s: System, step: Step)
    requires Sound(s) && Spaced(s) && Enabled(s, step)
    ensures Spaced(Next(s, step))
  {
    var s' := Next(s, step);
    if step.Look? && LookedUp(s.tables, s.threads[step.t].nsa, s.now) == None {
      LookMissesRightly(s, s.threads[step.t].nsa);
    }
    forall t | t in s'.threads && s'.threads[t].InFlight()
      ensures MissedRightly(s', s'.threads[t].nsa, s'.threads[t].look)
    {
      if t in s.threads && s.threads[t].InFlight() {
        MissedRightlyStays(s, s', s.threads[t].nsa, s.threads[t].look);
      } else {
        assert step == Look(t);
        MissedRightlyStays(s, s', s'.threads[t].nsa, s'.threads[t].look);
      }
    }
    forall j | 0 <= j < |s'.failures|
      ensures MissedRightly(s', s'.failures[j].nsa, s'.failures[j].look)
    {
      if j < |s.failures| {
        assert s'.failures[j] == s.failures[j];
        MissedRightlyStays(s, s', s.failures[j].nsa, s.failures[j].look);
      } else {
        MissedRightlyStays(s, s', s.threads[step.t].nsa, s.threads[step.t].look);
      }
    }
  }

  lemma {:induction false} RunsSpaced(s: System, steps: seq<Step>, s': System)
    requires Inv(s) && Spaced(s) && Runs(s, steps, s')
    ensures Spaced(s')
    decreases |steps|
  {
    if steps != [] {
      StepBounded(s, steps[0]);
      StepSound(s, steps[0]);
      StepSpaced(s, steps[0]);
      RunsSpaced(Next(s, steps[0]), steps[1..], s');
    }
  }

  /**
   In every interleaving, of two failing calls for one NSA the later one went out with a lookup at least 60 seconds
   after the earlier one was recorded, or there was a reset in between, or the lookup came before the recording.
   */
  lemma FailingCallsAreSpaced(steps: seq<Step>, s: System, i: nat, j: nat)
    requires Runs(INITIAL, steps, s)
    requires i < |s.failures| && j < |s.failures| && s.failures[i].nsa == s.failures[j].nsa
    ensures s.failures[i].at + 60_000_000_000 <= s.failures[j].look.at
         || s.failures[i].epoch < s.failures[j].look.resets
         || s.failures[j].look.seen <= i
  {
    InitialInv();
    RunsSpaced(INITIAL, steps, s);
    assert MissedRightly(s, s.failures[j].nsa, s.failures[j].look);
  }

  /** No resolution looks up while another is between its own lookup and its publication. */
  ghost predicate Serial(s: System, steps: seq<Step>)
    decreases |steps|
  {
    steps != [] ==>
      && Enabled(s, steps[0])
      && (steps[0].Look? ==> forall t :: t in s.threads ==> !s.threads[t].InFlight())
      && Serial(Next(s, steps[0]), steps[1..])
  }

  /** At most one resolution is in flight, nothing was recorded since its lookup, and so it was with every failure. */
  ghost predicate Fresh(s: System) {
    && (forall t :: t in s.threads && s.threads[t].InFlight() ==> s.threads[t].look.seen == |s.failures|)
    && (forall t, u :: t in s.threads && u in s.threads && s.threads[t].InFlight() && s.threads[u].InFlight() ==> t == u)
    && (forall j :: 0 <= j < |s.failures| ==> s.failures[j].look.seen == j)
  }

  lemma {:induction false} SerialRunsFresh(s: System, steps: seq<Step>, s': System)
    requires Fresh(s) && Runs(s, steps, s') && Serial(s, steps)
    ensures Fresh(s')
    decreases |steps|
  {
    if steps != [] {
      SerialRunsFresh(Next(s, steps[0]), steps[1..], s');
    }
  }

  /**
   In a serial run two failing calls for one NSA, the second starting less than 60 seconds after the first was
   recorded, always have a reset of the table between them; with at most 4095 different NSAs there is none, and each
   NSA makes at most one failing call per 60 seconds.
   */
  lemma SerialCallsAreSpaced(steps: seq<Step>, s: System, i: nat, j: nat, ids: set<u64>)
    requires Runs(INITIAL, steps, s) && Serial(INITIAL, steps)
    requires i < j < |s.failures| && s.failures[i].nsa == s.failures[j].nsa
    ensures s.failures[j].look.at < s.failures[i].at + 60_000_000_000 ==> s.failures[i].epoch < s.failures[j].look.resets
    ensures BeginsWithin(steps, ids) && |ids| <= 4095 ==> s.failures[i].at + 60_000_000_000 <= s.failures[j].look.at
  {
    SerialRunsFresh(INITIAL, steps, s);
    FailingCallsAreSpaced(steps, s, i, j);
    if BeginsWithin(steps, ids) && |ids| <= 4095 {
      RunsWithin(INITIAL, steps, s, ids);
      InitialInv();
      RunsSpaced(INITIAL, steps, s);
      assert MissedRightly(s, s.failures[j].nsa, s.failures[j].look);
    }
  }

  // ----- once linked, always the same account -----

  predicate LinkedTo(s: System, nsa: u64, pid: u64) {
    nsa in s.tables.linked && s.tables.linked[nsa] == pid
  }

  /** The service has answered this resolution, with `pid`. */
  predicate Confirms(p: Phase, pid: u64) {
    p.Publishing? && Verdict(p.outcome) == Answer(pid, Linked)
  }

  /** `nsa` is linked to `pid`, and every resolution of it that is under way is only left to publish the same. */
  ghost predicate Settled(s: System, nsa: u64, pid: u64) {
    && LinkedTo(s, nsa, pid)
    && (forall t :: t in s.threads && s.threads[t].InFlight() && s.threads[t].nsa == nsa ==> Confirms(s.threads[t], pid))
  }

  /** Every resolution of `nsa` that has answered since `s0` gave `pid`. */
  ghost predicate AnswersSince(s0: System, s: System, nsa: u64, pid: u64) {
    forall t :: t in s.threads && s.threads[t].nsa == nsa && s.threads[t].Answered() ==>
      s.threads[t].answer == Answer(pid, Linked)
      || (t in s0.threads && s0.threads[t].Answered() && s0.threads[t].nsa == nsa && s0.threads[t].answer == s.threads[t].answer)
  }

  /** A thread may change its phase when that neither puts `nsa` in flight, unless to confirm, nor gives it another answer. */
  lemma PhaseChangeSettled(s0: System, s: System, s': System, t: Tid, p: Phase, nsa: u64, pid: u64)
    requires Settled(s, nsa, pid) && AnswersSince(s0, s, nsa, pid)
    requires s'.threads == s.threads[t := p]
    requires LinkedTo(s', nsa, pid)
    requires p.nsa == nsa && p.InFlight() ==> Confirms(p, pid)
    requires p.nsa == nsa && p.Answered() ==>
      p.answer == Answer(pid, Linked)
      || (t in s.threads && s.threads[t].Answered() && s.threads[t].nsa == nsa && s.threads[t].answer == p.answer)
    ensures Settled(s', nsa, pid) && AnswersSince(s0, s', nsa, pid)
  {
  }

  lemma StepSettled(s0: System, s: System, step: Step, nsa: u64, pid: u64)
    requires Settled(s, nsa, pid) && AnswersSince(s0, s, nsa, pid) && Enabled(s, step)
    ensures Settled(Next(s, step), nsa, pid) && AnswersSince(s0, Next(s, step), nsa, pid)
  {
    if !step.Tick? {
      PhaseChangeSettled(s0, s, Next(s, step), step.t, Next(s, step).threads[step.t], nsa, pid);
    }
  }

  /** From a settled state on, whatever else happens, every later answer for the NSA is the same PID. */
  lemma {:induction false} SettledForGood(s0: System, s: System, steps: seq<Step>, s': System, nsa: u64, pid: u64)
    requires Settled(s, nsa, pid) && AnswersSince(s0, s, nsa, pid) && Runs(s, steps, s')
    ensures Settled(s', nsa, pid) && AnswersSince(s0, s', nsa, pid)
    decreases |steps|
  {
    if steps != [] {
      StepSettled(s0, s, steps[0], nsa, pid);
      SettledForGood(s0, Next(s, steps[0]), steps[1..], s', nsa, pid);
    }
  }

  lemma OneAccountPerNsa(s: System, steps: seq<Step>, s': System, nsa: u64, pid: u64)
    requires Settled(s, nsa, pid) && Runs(s, steps, s')
    ensures AnswersSince(s, s', nsa, pid) && LookedUp(s'.tables, nsa, s'.now) == Some(Answer(pid, Linked))
  {
    SettledForGood(s, s, steps, s', nsa, pid);
  }

  /** A linked NSA stays linked, whatever is published later. */
  lemma {:induction false} LinkedForGood(s: System, steps: seq<Step>, s': System, nsa: u64)
    requires Runs(s, steps, s') && nsa in s.tables.linked
    ensures nsa in s'.tables.linked
    decreases |steps|
  {
    if steps != [] {
      LinkedForGood(Next(s, steps[0]), steps[1..], s', nsa);
    }
  }

  /**
   Publishing a PID links the NSA to it from then on and forgets its failure; also when another PID had been published
   before, so a resolution still under way can change the account of an NSA (exactly when: NsaLimits.AccountKeptIff).
   */
  lemma PublishedPidWins(s: System, t: Tid, nsa: u64, pid: u64, later: nat)
    requires t in s.threads && s.threads[t].Publishing? && s.threads[t].nsa == nsa
    requires s.threads[t].outcome == Reply(Some(pid)) && pid != 0
    ensures var tables := Next(s, Publish(t)).tables;
      LookedUp(tables, nsa, later) == Some(Answer(pid, Linked)) && nsa !in tables.failed
    ensures forall x :: x != nsa ==> LookedUp(Next(s, Publish(t)).tables, x, later) == LookedUp(s.tables, x, later)
  {
  }

  // ----- a resolution nothing interrupts -----

  lemma {:induction false} RunsSnoc(s: System, steps: seq<Step>, s': System, step: Step)
    requires Runs(s, steps, s') && Enabled(s', step)
    ensures Runs(s, steps + [step], Next(s', step))
    decreases |steps|
  {
    if steps == [] {
      assert ([] + [step])[1..] == [];
    } else {
      assert (steps + [step])[0] == steps[0] && (steps + [step])[1..] == steps[1..] + [step];
      RunsSnoc(Next(s, steps[0]), steps[1..], s', step);
    }
  }

  lemma AloneLooks(s: System, t: Tid, nsa: u64) returns (steps: seq<Step>, s': System)
    requires t !in s.threads
    ensures Runs(s, steps, s')
    ensures s' == s.(threads := s.threads[t := AfterLook(s, nsa)])
  {
    var s1 := Next(s, Begin(t, nsa));
    s' := Next(s1, Look(t));
    RunsSnoc(s, [], s, Begin(t, nsa));
    RunsSnoc(s, [] + [Begin(t, nsa)], s1, Look(t));
    steps := [] + [Begin(t, nsa)] + [Look(t)];
    assert s'.threads == s.threads[t := AfterLook(s, nsa)];
  }

  lemma AloneCalls(s: System, t: Tid, outcome: Outcome, elapsed: nat) returns (steps: seq<Step>, s': System)
    requires t in s.threads && s.threads[t].Missed?
    ensures Runs(s, steps, s')
    ensures t in s'.threads && s'.threads[t].Done? && s'.threads[t].nsa == s.threads[t].nsa && s'.slots == s.slots
    ensures (s'.threads[t].answer, s'.tables) ==
      if s.slots < MAX_INFLIGHT then (Verdict(outcome), Published(s.tables, s.threads[t].nsa, outcome, s.now + elapsed))
      else (Answer(0, Unreachable), s.tables)
  {
    var s1 := Next(s, TakeSlot(t));
    RunsSnoc(s, [], s, TakeSlot(t));
    steps, s' := [] + [TakeSlot(t)], s1;
    if s.slots < MAX_INFLIGHT {
      var s2 := Next(s1, Return(t, outcome));
      RunsSnoc(s, steps, s1, Return(t, outcome));
      steps := steps + [Return(t, outcome)];
      var s3 := Next(s2, Tick(elapsed));
      RunsSnoc(s, steps, s2, Tick(elapsed));
      steps := steps + [Tick(elapsed)];
      var s4 := Next(s3, Publish(t));
      RunsSnoc(s, steps, s3, Publish(t));
      steps := steps + [Publish(t)];
      s' := Next(s4, Release(t));
      RunsSnoc(s, steps, s4, Release(t));
      steps := steps + [Release(t)];
    }
  }

  lemma {:induction false} RunsAppend(s: System, a: seq<Step>, s1: System, b: seq<Step>, s2: System)
    requires Runs(s, a, s1) && Runs(s1, b, s2)
    ensures Runs(s, a + b, s2)
    decreases |a|
  {
    if a == [] {
      assert a + b == b;
    } else {
      assert (a + b)[0] == a[0] && (a + b)[1..] == a[1..] + b;
      RunsAppend(Next(s, a[0]), a[1..], s1, b, s2);
    }
  }

  /** Thread `t` is done in `s'` with the answer and the tables of the serial resolution, and its slot is given back. */
  predicate IsSerialResult(s: System, t: Tid, nsa: u64, outcome: Outcome, later: nat, s': System) {
    && t in s'.threads && s'.threads[t].Done? && s'.threads[t].nsa == nsa && s'.slots == s.slots
    && (s'.threads[t].answer, s'.tables) == Resolved(s.tables, s.slots < MAX_INFLIGHT, nsa, s.now, outcome, later)
  }

  lemma AloneRun(s: System, t: Tid, nsa: u64, outcome: Outcome, elapsed: nat) returns (steps: seq<Step>, s': System)
    requires t !in s.threads
    ensures Runs(s, steps, s') && IsSerialResult(s, t, nsa, outcome, s.now + elapsed, s')
  {
    steps, s' := AloneLooks(s, t, nsa);
    if LookedUp(s.tables, nsa, s.now) == None {
      var s1 := s';
      var b, s2 := AloneCalls(s1, t, outcome, elapsed);
      RunsAppend(s, steps, s1, b, s2);
      steps, s' := steps + b, s2;
    }
  }

  /** Run alone, the steps of one resolution are the serial resolution. */
  lemma AloneIsSerial(s: System, t: Tid, nsa: u64, outcome: Outcome, elapsed: nat)
    requires t !in s.threads
    ensures exists steps, s' :: Runs(s, steps, s') && IsSerialResult(s, t, nsa, outcome, s.now + elapsed, s')
  {
    var steps, s' := AloneRun(s, t, nsa, outcome, elapsed);
  }
}
