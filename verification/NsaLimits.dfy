/** Where the guarantees of the gate end: exactly when an account can change, and from how many ids on failing calls come too often. */
module NsaLimits {
  import opened Bytes
  import opened Maps
  import opened Nsa
  import opened NsaRuns

  // ----- when a linked NSA can still change its account -----

  /** No resolution of `nsa` under way can publish a PID other than `pid`; a failure it may still publish. */
  ghost predicate Unthreatened(s: System, nsa: u64, pid: u64) {
    && LinkedTo(s, nsa, pid)
    && (forall t :: t in s.threads && s.threads[t].InFlight() && s.threads[t].nsa == nsa ==>
          s.threads[t].Publishing? && Verdict(s.threads[t].outcome).pid in {0, pid})
  }

  lemma StepUnthreatened(s: System, step: Step, nsa: u64, pid: u64)
    requires Unthreatened(s, nsa, pid) && Enabled(s, step)
    ensures Unthreatened(Next(s, step), nsa, pid)
  {
    if step.Publish? && s.threads[step.t].nsa == nsa {
      assert Verdict(s.threads[step.t].outcome).pid in {0, pid};
    }
  }

  lemma {:induction false} RunsUnthreatened(s: System, steps: seq<Step>, s': System, nsa: u64, pid: u64)
    requires Unthreatened(s, nsa, pid) && Runs(s, steps, s')
    ensures Unthreatened(s', nsa, pid)
    decreases |steps|
  {
    if steps != [] {
      StepUnthreatened(s, steps[0], nsa, pid);
      RunsUnthreatened(Next(s, steps[0]), steps[1..], s', nsa, pid);
    }
  }

  function StepsLeft(p: Phase): nat {
    match p
    case Calling(_, _) => 2
    case Publishing(_, _, _) => 1
    case _ => 0
  }

  /** A holder of a slot gives it back, and no other thread moves. */
  lemma {:induction false} GivesBack(s: System, h: Tid) returns (steps: seq<Step>, s': System)
    requires h in s.threads && s.threads[h].HoldsSlot() && s.slots > 0
    ensures Runs(s, steps, s') && s'.slots == s.slots - 1
    ensures forall u :: u != h && u in s.threads ==> u in s'.threads && s'.threads[u] == s.threads[u]
    decreases StepsLeft(s.threads[h])
  {
    var step := if s.threads[h].Calling? then Return(h, TransportError)
                else if s.threads[h].Publishing? then Publish(h) else Release(h);
    s' := Next(s, step);
    steps := [];
    if !s.threads[h].Releasing? {
      steps, s' := GivesBack(s', h);
    }
    steps := [step] + steps;
  }

  /** A slot is free, after waiting for a holder if need be. */
  lemma FreeSlot(s: System, t: Tid) returns (steps: seq<Step>, s': System)
    requires Bounded(s) && t in s.threads && s.threads[t].Missed?
    ensures Runs(s, steps, s') && s'.slots < MAX_INFLIGHT && t in s'.threads && s'.threads[t] == s.threads[t]
  {
    steps, s' := [], s;
    if s.slots == MAX_INFLIGHT {
      assert Holders(s) != {};
      var h :| h in Holders(s);
      steps, s' := GivesBack(s, h);
    }
  }

  function OtherThan(pid: u64): (other: u64)
    ensures other != pid && other != 0
  {
    if pid == 1 then 2 else 1
  }

  /** Thread `t` got and published an answer other than `pid`. */
  ghost predicate Overrides(s: System, t: Tid, nsa: u64, pid: u64, s': System) {
    && t in s'.threads && s'.threads[t].nsa == nsa && s'.threads[t].Releasing?
    && s'.threads[t].answer.status == Linked && s'.threads[t].answer.pid != pid
    && LinkedTo(s', nsa, s'.threads[t].answer.pid)
  }

  lemma CallerOverrides(s: System, t: Tid, nsa: u64, pid: u64) returns (steps: seq<Step>, s': System)
    requires t in s.threads && s.threads[t].Calling? && s.threads[t].nsa == nsa
    ensures Runs(s, steps, s') && Overrides(s, t, nsa, pid, s')
  {
    var s1 := Next(s, Return(t, Reply(Some(OtherThan(pid)))));
    s' := Next(s1, Publish(t));
    steps := [Return(t, Reply(Some(OtherThan(pid)))), Publish(t)];
    assert steps[1..] == [Publish(t)] && Runs(s1, [Publish(t)], s');
  }

  lemma MissedOverrides(s: System, t: Tid, nsa: u64, pid: u64) returns (steps: seq<Step>, s': System)
    requires Bounded(s) && t in s.threads && s.threads[t].Missed? && s.threads[t].nsa == nsa
    ensures Runs(s, steps, s') && Overrides(s, t, nsa, pid, s')
  {
    var a, s1 := FreeSlot(s, t);
    var s2 := Next(s1, TakeSlot(t));
    RunsSnoc(s, a, s1, TakeSlot(t));
    var b, s3 := CallerOverrides(s2, t, nsa, pid);
    RunsAppend(s, a + [TakeSlot(t)], s2, b, s3);
    steps, s' := a + [TakeSlot(t)] + b, s3;
  }

  /** A resolution under way that could publish another PID: some run in which it does. */
  lemma ThreatOverrides(s: System, t: Tid, nsa: u64, pid: u64) returns (steps: seq<Step>, s': System)
    requires Bounded(s) && t in s.threads && s.threads[t].InFlight() && s.threads[t].nsa == nsa
    requires s.threads[t].Publishing? ==> Verdict(s.threads[t].outcome).pid !in {0, pid}
    ensures Runs(s, steps, s') && Overrides(s, t, nsa, pid, s')
  {
    if s.threads[t].Missed? {
      steps, s' := MissedOverrides(s, t, nsa, pid);
    } else if s.threads[t].Calling? {
      steps, s' := CallerOverrides(s, t, nsa, pid);
    } else {
      steps, s' := [Publish(t)], Next(s, Publish(t));
    }
  }

  /** Whatever happens, a later lookup is answered with `pid`. */
  ghost predicate AlwaysFinds(s: System, nsa: u64, pid: u64) {
    forall steps, s' :: Runs(s, steps, s') ==> LookedUp(s'.tables, nsa, s'.now) == Some(Answer(pid, Linked))
  }

  /** Whatever happens, every resolution of `nsa` that answers from now on answers `pid`. */
  ghost predicate AlwaysAnswers(s: System, nsa: u64, pid: u64) {
    forall steps, s' :: Runs(s, steps, s') ==> AnswersSince(s, s', nsa, pid)
  }

  /**
   In any state of any run with the NSA linked to a PID: the link can never change exactly when each resolution of
   that NSA between its lookup and its publication has its reply, and the reply is a failure or that PID.
   */
  lemma AccountKeptIff(first: seq<Step>, s: System, nsa: u64, pid: u64)
    requires Runs(INITIAL, first, s) && LinkedTo(s, nsa, pid)
    ensures AlwaysFinds(s, nsa, pid) <==> Unthreatened(s, nsa, pid)
  {
    if Unthreatened(s, nsa, pid) {
      forall steps, s' | Runs(s, steps, s')
        ensures LookedUp(s'.tables, nsa, s'.now) == Some(Answer(pid, Linked))
      {
        RunsUnthreatened(s, steps, s', nsa, pid);
      }
    } else {
      InitialInv();
      RunsKeepInv(INITIAL, first, s);
      var t :| t in s.threads && s.threads[t].InFlight() && s.threads[t].nsa == nsa
               && !(s.threads[t].Publishing? && Verdict(s.threads[t].outcome).pid in {0, pid});
      var steps, s' := ThreatOverrides(s, t, nsa, pid);
      assert LookedUp(s'.tables, nsa, s'.now) != Some(Answer(pid, Linked));
    }
  }

  /** And every later answer is that PID exactly when each of those replies is that PID. */
  lemma OneAccountIff(first: seq<Step>, s: System, nsa: u64, pid: u64)
    requires Runs(INITIAL, first, s) && LinkedTo(s, nsa, pid)
    ensures AlwaysAnswers(s, nsa, pid) <==> Settled(s, nsa, pid)
  {
    if Settled(s, nsa, pid) {
      forall steps, s' | Runs(s, steps, s')
        ensures AnswersSince(s, s', nsa, pid)
      {
        OneAccountPerNsa(s, steps, s', nsa, pid);
      }
    } else {
      InitialInv();
      RunsKeepInv(INITIAL, first, s);
      var t :| t in s.threads && s.threads[t].InFlight() && s.threads[t].nsa == nsa && !Confirms(s.threads[t], pid);
      DeniesOrOverrides(s, t, nsa, pid);
    }
  }

  lemma DeniesOrOverrides(s: System, t: Tid, nsa: u64, pid: u64)
    requires Bounded(s) && t in s.threads && s.threads[t].InFlight() && s.threads[t].nsa == nsa
    requires !Confirms(s.threads[t], pid)
    ensures !AlwaysAnswers(s, nsa, pid)
  {
    if s.threads[t].Publishing? && Verdict(s.threads[t].outcome).pid in {0, pid} {
      var s' := Next(s, Publish(t));
      assert Runs(s, [Publish(t)], s') && s'.threads[t].Answered();
    } else {
      var steps, s' := ThreatOverrides(s, t, nsa, pid);
      assert s'.threads[t].Answered();
    }
  }

  /** Two resolutions that both missed: the first links one account, and the second another one in its place. */
  lemma RacingCallsChangeAccount(nsa: u64, pid: u64) returns (a: seq<Step>, s1: System, b: seq<Step>, s2: System)
    requires pid != 0
    ensures Runs(INITIAL, a, s1) && LinkedTo(s1, nsa, pid)
    ensures Runs(s1, b, s2) && LinkedTo(s2, nsa, OtherThan(pid))
  {
    var looked := [Begin(0, nsa), Begin(1, nsa), Look(0), Look(1)];
    var p := Next(Next(INITIAL, looked[0]), looked[1]);
    var q := Next(Next(p, looked[2]), looked[3]);
    assert looked[1..][1..] == [Look(0), Look(1)] && [Look(0), Look(1)][1..] == [Look(1)];
    assert Runs(Next(p, Look(0)), [Look(1)], q);
    assert Runs(p, [Look(0), Look(1)], q);
    a, s1 := Links(q, 0, nsa, pid);
    RunsAppend(INITIAL, looked, q, a, s1);
    a := looked + a;
    b, s2 := Links(s1, 1, nsa, OtherThan(pid));
  }

  lemma Links(s: System, t: Tid, nsa: u64, pid: u64) returns (steps: seq<Step>, s': System)
    requires pid != 0 && s.slots < MAX_INFLIGHT && t in s.threads && s.threads[t].Missed? && s.threads[t].nsa == nsa
    ensures Runs(s, steps, s') && LinkedTo(s', nsa, pid) && s'.slots <= s.slots + 1
    ensures s'.threads == s.threads[t := Releasing(nsa, Answer(pid, Linked), FromCall)]
  {
    var s1 := Next(s, TakeSlot(t));
    var s2 := Next(s1, Return(t, Reply(Some(pid))));
    s' := Next(s2, Publish(t));
    steps := [TakeSlot(t), Return(t, Reply(Some(pid))), Publish(t)];
    assert steps[1..] == [Return(t, Reply(Some(pid))), Publish(t)] && steps[1..][1..] == [Publish(t)];
    assert Runs(s2, [Publish(t)], s');
    assert Runs(s1, steps[1..], s');
  }

  // ----- from how many ids on failing calls come too often -----

  /** Two failing calls for one id, the second going out less than 60 seconds after the first was recorded. */
  ghost predicate Crowded(s: System) {
    exists i, j :: 0 <= i < j < |s.failures| && s.failures[i].nsa == s.failures[j].nsa
                   && s.failures[j].look.at < s.failures[i].at + 60_000_000_000
  }

  /** A serial run by the ids given. */
  ghost predicate Leads(s: System, steps: seq<Step>, s': System, ids: set<u64>) {
    Runs(s, steps, s') && Serial(s, steps) && BeginsWithin(steps, ids)
  }

  lemma {:induction false} LeadsAppend(s: System, a: seq<Step>, s1: System, b: seq<Step>, s2: System, ids: set<u64>)
    requires Leads(s, a, s1, ids) && Leads(s1, b, s2, ids)
    ensures Leads(s, a + b, s2, ids)
    decreases |a|
  {
    if a == [] {
      assert a + b == b;
    } else {
      assert (a + b)[0] == a[0] && (a + b)[1..] == a[1..] + b;
      assert forall i :: 0 <= i < |a[1..]| ==> a[1..][i] == a[i + 1];
      LeadsAppend(Next(s, a[0]), a[1..], s1, b, s2, ids);
    }
  }

  lemma LeadsOne(s: System, step: Step, ids: set<u64>)
    requires Enabled(s, step) && (step.Begin? ==> step.nsa in ids)
    requires step.Look? ==> forall t :: t in s.threads ==> !s.threads[t].InFlight()
    ensures Leads(s, [step], Next(s, step), ids)
  {
    assert [step][1..] == [];
  }

  lemma LeadsStep(s: System, a: seq<Step>, s1: System, step: Step, ids: set<u64>)
    requires Leads(s, a, s1, ids) && Enabled(s1, step) && (step.Begin? ==> step.nsa in ids)
    requires step.Look? ==> forall t :: t in s1.threads ==> !s1.threads[t].InFlight()
    ensures Leads(s, a + [step], Next(s1, step), ids)
  {
    LeadsOne(s1, step, ids);
    LeadsAppend(s, a, s1, [step], Next(s1, step), ids);
  }

  /** Nothing is under way. */
  ghost predicate Resting(s: System) {
    s.slots == 0 && forall t :: t in s.threads ==> s.threads[t].Done?
  }

  lemma AsksOnce(s: System, t: Tid, nsa: u64, ids: set<u64>) returns (steps: seq<Step>, s': System)
    requires Resting(s) && t !in s.threads && nsa in ids && LookedUp(s.tables, nsa, s.now) == None
    ensures Leads(s, steps, s', ids)
    ensures s' == s.(slots := 1, threads := s.threads[t := Calling(nsa, Lookup(s.now, |s.failures|, s.resets))])
  {
    var s1 := Next(s, Begin(t, nsa));
    var s2 := Next(s1, Look(t));
    s' := Next(s2, TakeSlot(t));
    LeadsOne(s, Begin(t, nsa), ids);
    LeadsStep(s, [Begin(t, nsa)], s1, Look(t), ids);
    LeadsStep(s, [Begin(t, nsa)] + [Look(t)], s2, TakeSlot(t), ids);
    steps := [Begin(t, nsa)] + [Look(t)] + [TakeSlot(t)];
    assert s'.threads == s.threads[t := Calling(nsa, Lookup(s.now, |s.failures|, s.resets))];
  }

  lemma IsTurnedDown(s: System, t: Tid, ids: set<u64>) returns (steps: seq<Step>, s': System)
    requires t in s.threads && s.threads[t].Calling? && s.slots > 0
    ensures Leads(s, steps, s', ids)
    ensures var p := s.threads[t];
      var resets := if Resets(s.tables) then s.resets + 1 else s.resets;
      s' == s.(tables := Remembered(s.tables, p.nsa, Unknown, s.now), slots := s.slots - 1, resets := resets,
               failures := s.failures + [Failure(p.nsa, Unknown, s.now, resets, p.look)],
               threads := s.threads[t := Done(p.nsa, Answer(0, Unknown), FromCall)])
  {
    var p := s.threads[t];
    var s1 := Next(s, Return(t, NotFound));
    var s2 := Next(s1, Publish(t));
    s' := Next(s2, Release(t));
    LeadsOne(s, Return(t, NotFound), ids);
    LeadsStep(s, [Return(t, NotFound)], s1, Publish(t), ids);
    LeadsStep(s, [Return(t, NotFound)] + [Publish(t)], s2, Release(t), ids);
    steps := [Return(t, NotFound)] + [Publish(t)] + [Release(t)];
    assert s'.threads == s.threads[t := Done(p.nsa, Answer(0, Unknown), FromCall)];
    assert s'.served == s.served;
  }

  /** A resolution that asks the service and is told that the id is unknown. */
  lemma FailsOnce(s: System, t: Tid, nsa: u64, ids: set<u64>) returns (steps: seq<Step>, s': System)
    requires Resting(s) && t !in s.threads && nsa in ids && LookedUp(s.tables, nsa, s.now) == None
    ensures Leads(s, steps, s', ids) && Resting(s') && s'.now == s.now && s'.threads.Keys == s.threads.Keys + {t}
    ensures s'.tables == Remembered(s.tables, nsa, Unknown, s.now)
    ensures s'.resets == if Resets(s.tables) then s.resets + 1 else s.resets
    ensures s'.failures == s.failures + [Failure(nsa, Unknown, s.now, s'.resets, Lookup(s.now, |s.failures|, s.resets))]
  {
    var a, s1 := AsksOnce(s, t, nsa, ids);
    var b, s2 := IsTurnedDown(s1, t, ids);
    LeadsAppend(s, a, s1, b, s2, ids);
    steps, s' := a + b, s2;
  }

  const FIRST_WAVE: nat := 59_000_000_000

  /** Id 0 has failed at the start, ids 1 to k a second before the minute is over. */
  ghost predicate Filled(s: System, k: nat) {
    && Resting(s) && s.now == FIRST_WAVE && s.tables.linked == map[] && s.resets == 0
    && (forall t :: t in s.threads.Keys ==> t <= k)
    && (forall x :: x in s.tables.failed ==> x <= k) && 0 in s.tables.failed
    && |s.tables.failed| == k + 1 == |s.failures|
    && s.tables.failed[0].at == 0
    && (k > 0 ==> s.failures[1].nsa == 1 && s.failures[1].at == FIRST_WAVE)
  }

  lemma FirstFails(ids: set<u64>) returns (steps: seq<Step>, s: System)
    requires 0 in ids
    ensures Leads(INITIAL, steps, s, ids) && Filled(s, 0)
  {
    var a, s1 := FailsOnce(INITIAL, 0, 0, ids);
    s := Next(s1, Tick(FIRST_WAVE));
    LeadsStep(INITIAL, a, s1, Tick(FIRST_WAVE), ids);
    steps := a + [Tick(FIRST_WAVE)];
    assert s.tables.failed == map[0 := NegEntry(Unknown, 0)];
  }

  lemma NextFails(s: System, k: nat, ids: set<u64>) returns (steps: seq<Step>, s': System)
    requires k < 4095 && Filled(s, k) && k + 1 in ids
    ensures Leads(s, steps, s', ids) && Filled(s', k + 1)
  {
    steps, s' := FailsOnce(s, k + 1, k + 1, ids);
    UpdateSize(s.tables.failed, k + 1, NegEntry(Unknown, FIRST_WAVE));
    assert forall t: Tid :: t in s'.threads.Keys <==> t in s.threads.Keys || t == k + 1;
  }

  lemma {:induction false} FillsUp(k: nat, ids: set<u64>) returns (steps: seq<Step>, s: System)
    requires k <= 4095 && forall x: u64 :: x <= k ==> x in ids
    ensures Leads(INITIAL, steps, s, ids) && Filled(s, k)
    decreases k
  {
    if k == 0 {
      steps, s := FirstFails(ids);
    } else {
      var a, s1 := FillsUp(k - 1, ids);
      var b, s2 := NextFails(s1, k - 1, ids);
      LeadsAppend(INITIAL, a, s1, b, s2, ids);
      steps, s := a + b, s2;
    }
  }

  function Below(n: nat): set<u64>
    requires n <= TWO_TO_64
  {
    if n == 0 then {} else Below(n - 1) + {n - 1}
  }

  lemma {:induction false} BelowSize(n: nat)
    requires n <= TWO_TO_64
    ensures |Below(n)| == n && forall x: u64 :: x in Below(n) <==> x < n
  {
    if n > 0 {
      BelowSize(n - 1);
    }
  }

  lemma Recrowds(s: System, ids: set<u64>) returns (steps: seq<Step>, s': System)
    requires Filled(s.(now := FIRST_WAVE), 4095) && s.now == FIRST_WAVE + 1_000_000_000 && 0 in ids && 1 in ids
    ensures Leads(s, steps, s', ids) && Crowded(s')
  {
    var a, s1 := FailsOnce(s, 4096, 0, ids);
    assert s1.tables.failed == map[0 := NegEntry(Unknown, s.now)];
    var b, s2 := FailsOnce(s1, 4097, 1, ids);
    LeadsAppend(s, a, s1, b, s2, ids);
    steps, s' := a + b, s2;
    assert s'.failures[1] == s.failures[1] && s'.failures[4097].nsa == 1;
    assert s'.failures[4097].look.at < s'.failures[1].at + NEG_TTL;
  }

  /**
   A serial run by 4096 ids with two failing calls for one of them within a second: id 0 fails at once, the others at
   59 s, which fills the table; at 60 s the failure of id 0 empties it, and id 1 asks the service again.
   */
  lemma TableOverflows() returns (steps: seq<Step>, s: System)
    ensures Leads(INITIAL, steps, s, Below(4096)) && Crowded(s)
  {
    var ids := Below(4096);
    BelowSize(4096);
    var a, s1 := FillsUp(4095, ids);
    var second := 1_000_000_000;
    LeadsStep(INITIAL, a, s1, Tick(second), ids);
    var b, s2 := Recrowds(Next(s1, Tick(second)), ids);
    LeadsAppend(INITIAL, a + [Tick(second)], Next(s1, Tick(second)), b, s2, ids);
    steps, s := a + [Tick(second)] + b, s2;
  }

  /** No serial run by at most `n` ids is crowded. */
  ghost predicate AlwaysSpaced(n: nat) {
    forall steps, s, ids: set<u64> :: Leads(INITIAL, steps, s, ids) && |ids| <= n ==> !Crowded(s)
  }

  /** One failing call per id and minute, over all serial runs by so many ids: exactly up to 4095 ids. */
  lemma SpacedIff(n: nat)
    ensures AlwaysSpaced(n) <==> n <= 4095
  {
    if n <= 4095 {
      forall steps, s, ids: set<u64> | Leads(INITIAL, steps, s, ids) && |ids| <= n
        ensures !Crowded(s)
      {
        forall i, j | 0 <= i < j < |s.failures| && s.failures[i].nsa == s.failures[j].nsa
          ensures s.failures[i].at + NEG_TTL <= s.failures[j].look.at
        {
          SerialCallsAreSpaced(steps, s, i, j, ids);
        }
      }
    } else {
      BelowSize(4096);
      var steps, s := TableOverflows();
    }
  }

  // ----- exactly sixteen calls -----

  /** In any state of any run, a resolution that comes for a slot is saturated exactly when sixteen others hold one. */
  lemma SaturatedIff(first: seq<Step>, s: System, t: Tid)
    requires Runs(INITIAL, first, s) && t in s.threads && s.threads[t].Missed?
    ensures Next(s, TakeSlot(t)).threads[t].Done? <==> |Holders(s)| == 16
    ensures Next(s, TakeSlot(t)).threads[t].Done? ==> Next(s, TakeSlot(t)).threads[t].answer == Answer(0, Unreachable)
    ensures !Next(s, TakeSlot(t)).threads[t].Done? ==> Next(s, TakeSlot(t)).threads[t].Calling?
  {
    InitialInv();
    RunsKeepInv(INITIAL, first, s);
  }

  /** `n` calls are out, by threads 0 to n - 1. */
  ghost predicate CallsOut(s: System, n: nat) {
        && s.slots == n && s.tables == Caches(map[], map[])
    && (forall t: Tid :: t in s.threads ==> t < n && s.threads[t].Calling?)
  }

  lemma {:induction false} CallsGoOut(n: nat) returns (steps: seq<Step>, s: System)
    requires n <= 16
    ensures Runs(INITIAL, steps, s) && CallsOut(s, n)
    decreases n
  {
    if n == 0 {
      steps, s := [], INITIAL;
    } else {
      var a, s1 := CallsGoOut(n - 1);
      var t, nsa := n - 1, n as u64;
      var s2 := Next(s1, Begin(t, nsa));
      var s3 := Next(s2, Look(t));
      s := Next(s3, TakeSlot(t));
      RunsSnoc(INITIAL, a, s1, Begin(t, nsa));
      RunsSnoc(INITIAL, a + [Begin(t, nsa)], s2, Look(t));
      RunsSnoc(INITIAL, a + [Begin(t, nsa)] + [Look(t)], s3, TakeSlot(t));
      steps := a + [Begin(t, nsa)] + [Look(t)] + [TakeSlot(t)];
      forall u: Tid | u in s.threads
        ensures u < n && s.threads[u].Calling?
      {
        assert u != t ==> u in s1.threads && s.threads[u] == s1.threads[u];
      }
    }
  }

  /** Some run has `n` calls outstanding. */
  ghost predicate Reached(n: nat) {
    exists steps, s :: Runs(INITIAL, steps, s) && |Callers(s)| == n
  }

  /** The bound of sixteen calls is reached, and no more than that. */
  lemma SixteenCallsIff(n: nat)
    ensures Reached(n) <==> n <= 16
  {
    if n <= 16 {
      var steps, s := CallsGoOut(n);
      LoadIsBounded(steps, s);
      assert Callers(s) == Holders(s);
      assert Runs(INITIAL, steps, s) && |Callers(s)| == n;
    }
    forall steps, s | Runs(INITIAL, steps, s) && |Callers(s)| == n
      ensures n <= 16
    {
      LoadIsBounded(steps, s);
    }
  }
}
