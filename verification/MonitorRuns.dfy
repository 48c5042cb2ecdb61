/** Calls being noted side by side: the total, the player record and the event ring are updated in three separate steps. */
module MonitorRuns {
  import opened Bytes
  import opened Maps
  import opened Monitor

  type Tid = nat

  /** Counted: the total is up to date. Recorded: the player record is, too. A call that is noted completely is gone. */
  datatype Phase = Counted(call: Call) | Recorded(call: Call)

  datatype System = System(
    rmcTotal: nat,
    players: map<u64, Player>,
    sessionsSeen: nat,
    events: seq<Event>,
    counts: map<Blob, nat>,
    threads: map<Tid, Phase>,
    now: nat,
    log: seq<Event>,           // every event ever pushed
    labels: seq<Blob>,         // the method label of each of them
    visits: seq<Visit>)        // every call that reached the player records, oldest first

  datatype Visit = Visit(call: Call, at: nat)

  const INITIAL := System(0, map[], 0, [], map[], map[], 0, [], [], [])

  datatype Step =
    | Tick(elapsed: nat)
    | Count(t: Tid, call: Call)
    | Record(t: Tid)
    | Log(t: Tid, name: Blob)

  predicate Enabled(s: System, step: Step) {
    match step
    case Tick(_) => true
    case Count(t, c) => t !in s.threads && c.pid != 0
    case Record(t) => t in s.threads && s.threads[t].Counted?
    case Log(t, _) => t in s.threads && s.threads[t].Recorded?
  }

  function Next(s: System, step: Step): System
    requires Enabled(s, step)
  {
    match step
    case Tick(elapsed) => s.(now := s.now + elapsed)
    case Count(t, c) => s.(rmcTotal := s.rmcTotal + 1, threads := s.threads[t := Counted(c)])
    case Record(t) =>
      var c := s.threads[t].call;
      s.(players := Touched(s.players, c, s.now), visits := s.visits + [Visit(c, s.now)],
         sessionsSeen := s.sessionsSeen + (if c.pid in s.players then 0 else 1),
         threads := s.threads[t := Recorded(c)])
    case Log(t, name) =>
      var c := s.threads[t].call;
      var e := Event(s.now, c.pid, c.proto, c.methodID);
      s.(events := Pushed(s.events, e), counts := Bumped(s.counts, name), threads := s.threads - {t}, log := s.log + [e],
         labels := s.labels + [name])
  }

  ghost predicate Runs(s: System, steps: seq<Step>, s': System)
    decreases |steps|
  {
    if steps == [] then s == s' else Enabled(s, steps[0]) && Runs(Next(s, steps[0]), steps[1..], s')
  }

  function CountedOnly(s: System): set<Tid> {
    set t | t in s.threads && s.threads[t].Counted?
  }

  function NotLogged(s: System): set<Tid> {
    set t | t in s.threads && s.threads[t].Recorded?
  }

  ghost predicate InOrder(log: seq<Event>, now: nat) {
    && (forall i, j :: 0 <= i < j < |log| ==> log[i].at <= log[j].at)
    && (forall i :: 0 <= i < |log| ==> log[i].at <= now)
  }

  ghost predicate Inv(s: System) {
    && s.rmcTotal == Total(Calls(s.players)) + |CountedOnly(s)|
    && Total(Calls(s.players)) == Total(s.counts) + |NotLogged(s)|
    && s.sessionsSeen == |s.players|
    && s.events == LastOf(s.log, RING)
    && InOrder(s.log, s.now)
  }

  lemma SetsAfterUpdate(s: System, s': System, t: Tid, p: Phase)
    requires s'.threads == s.threads[t := p]
    ensures CountedOnly(s') == if p.Counted? then CountedOnly(s) + {t} else CountedOnly(s) - {t}
    ensures NotLogged(s') == if p.Recorded? then NotLogged(s) + {t} else NotLogged(s) - {t}
  {
  }

  lemma SetsAfterRemoval(s: System, s': System, t: Tid)
    requires s'.threads == s.threads - {t}
    ensures CountedOnly(s') == CountedOnly(s) - {t} && NotLogged(s') == NotLogged(s) - {t}
  {
  }

  /** How many threads stand where after a step. */
  lemma SetSizes(s: System, step: Step)
    requires Enabled(s, step)
    ensures |CountedOnly(Next(s, step))|
         == |CountedOnly(s)| + (if step.Count? then 1 else if step.Record? then -1 else 0)
    ensures |NotLogged(Next(s, step))|
         == |NotLogged(s)| + (if step.Record? then 1 else if step.Log? then -1 else 0)
  {
    var s' := Next(s, step);
    match step
    case Tick(_) =>
      assert CountedOnly(s') == CountedOnly(s) && NotLogged(s') == NotLogged(s);
    case Count(t, c) =>
      SetsAfterUpdate(s, s', t, Counted(c));
      SizeWithout(NotLogged(s), t);
    case Record(t) =>
      SetsAfterUpdate(s, s', t, Recorded(s.threads[t].call));
      SizeWithout(CountedOnly(s), t);
    case Log(t, _) =>
      SetsAfterRemoval(s, s', t);
      SizeWithout(CountedOnly(s), t);
      SizeWithout(NotLogged(s), t);
  }

  lemma LogKeepsRing(s: System, e: Event)
    requires s.events == LastOf(s.log, RING) && InOrder(s.log, s.now) && e.at == s.now
    ensures Pushed(s.events, e) == LastOf(s.log + [e], RING) && InOrder(s.log + [e], s.now)
  {
    PushKeepsRing(s.log, e);
  }

  lemma StepKeepsInv(s: System, step: Step)
    requires Inv(s) && Enabled(s, step)
    ensures Inv(Next(s, step))
  {
    SetSizes(s, step);
    match step
    case Tick(_) =>
    case Count(_, _) =>
    case Record(t) => TouchedTotals(s.players, s.threads[t].call, s.now);
    case Log(t, name) =>
      var c := s.threads[t].call;
      BumpedTotal(s.counts, name);
      LogKeepsRing(s, Event(s.now, c.pid, c.proto, c.methodID));
  }

  lemma {:induction false} RunsKeepInv(s: System, steps: seq<Step>, s': System)
    requires Inv(s) && Runs(s, steps, s')
    ensures Inv(s')
    decreases |steps|
  {
    if steps != [] {
      StepKeepsInv(s, steps[0]);
      RunsKeepInv(Next(s, steps[0]), steps[1..], s');
    }
  }

  /**
   At any moment of any interleaving: calls counted = calls in player records + callers between steps one and two;
   calls in player records = calls per method + callers between steps two and three; sessions = known players; and
   the ring is exactly the last min(100, k) of the k events logged, oldest first.
   */
  lemma CountersConserve(steps: seq<Step>, s: System)
    requires Runs(INITIAL, steps, s)
    ensures s.rmcTotal == Total(Calls(s.players)) + |CountedOnly(s)|
    ensures Total(Calls(s.players)) == Total(s.counts) + |NotLogged(s)|
    ensures s.sessionsSeen == |s.players|
    ensures |s.events| == (if |s.log| <= 100 then |s.log| else 100) && s.events == s.log[|s.log| - |s.events|..]
    ensures forall i, j :: 0 <= i < j < |s.events| ==> s.events[i].at <= s.events[j].at
  {
    InitialInv();
    RunsKeepInv(INITIAL, steps, s);
    RingIsTail(s.log, s.now);
  }

  lemma RingIsTail(log: seq<Event>, now: nat)
    requires InOrder(log, now)
    ensures var ring := LastOf(log, RING);
      && |ring| == (if |log| <= 100 then |log| else 100) && ring == log[|log| - |ring|..]
      && forall i, j :: 0 <= i < j < |ring| ==> ring[i].at <= ring[j].at
  {
    var ring := LastOf(log, RING);
    var cut := |log| - |ring|;
    assert forall i :: 0 <= i < |ring| ==> ring[i] == log[cut + i];
  }

  lemma InitialInv()
    ensures Inv(INITIAL)
  {
    assert Calls(map[]) == map[];
    assert CountedOnly(INITIAL) == {} && NotLogged(INITIAL) == {};
  }

  // ----- the record of a player is the summary of its visits -----

  function VisitsOf(visits: seq<Visit>, pid: u64): seq<Visit> {
    if visits == [] then []
    else
      var v := visits[|visits| - 1];
      VisitsOf(visits[..|visits| - 1], pid) + if v.call.pid == pid then [v] else []
  }

  /** The last address that was not empty. */
  function LastAddr(visits: seq<Visit>): Blob {
    if visits == [] then []
    else
      var v := visits[|visits| - 1];
      if v.call.addr != [] then v.call.addr else LastAddr(visits[..|visits| - 1])
  }

  predicate Summarises(p: Player, own: seq<Visit>) {
    && own != []
    && p.first == own[0].at && p.last == own[|own| - 1].at
    && p.calls == |own| && p.addr == LastAddr(own)
    && p.proto == own[|own| - 1].call.proto && p.methodID == own[|own| - 1].call.methodID
  }

  ghost predicate RecordsOk(s: System) {
    forall pid: u64 ::
      if pid in s.players then Summarises(s.players[pid], VisitsOf(s.visits, pid)) else VisitsOf(s.visits, pid) == []
  }

  lemma StepKeepsRecords(s: System, step: Step)
    requires RecordsOk(s) && Enabled(s, step)
    ensures RecordsOk(Next(s, step))
  {
    if step.Record? {
      var v := Visit(s.threads[step.t].call, s.now);
      var s' := Next(s, step);
      assert s'.visits[..|s.visits|] == s.visits;
      forall pid: u64
        ensures if pid in s'.players then Summarises(s'.players[pid], VisitsOf(s'.visits, pid)) else VisitsOf(s'.visits, pid) == []
      {
        var own := VisitsOf(s.visits, pid);
        assert pid in s.players ==> Summarises(s.players[pid], own);
        if pid == v.call.pid {
          assert VisitsOf(s'.visits, pid) == own + [v] && (own + [v])[..|own|] == own;
        } else {
          assert VisitsOf(s'.visits, pid) == own + [] == own;
        }
      }
    }
  }

  lemma {:induction false} RunsKeepRecords(s: System, steps: seq<Step>, s': System)
    requires RecordsOk(s) && Runs(s, steps, s')
    ensures RecordsOk(s')
    decreases |steps|
  {
    if steps != [] {
      StepKeepsRecords(s, steps[0]);
      RunsKeepRecords(Next(s, steps[0]), steps[1..], s');
    }
  }

  /** At any moment of any interleaving a player has a record exactly when calls of it got that far, and it sums them up. */
  lemma RecordsSumUpVisits(steps: seq<Step>, s: System, pid: u64)
    requires Runs(INITIAL, steps, s)
    ensures pid in s.players <==> VisitsOf(s.visits, pid) != []
    ensures pid in s.players ==> Summarises(s.players[pid], VisitsOf(s.visits, pid))
  {
    RunsKeepRecords(INITIAL, steps, s);
  }

  // ----- the method counts and the events -----

  /** Each label is counted as often as it was logged. */
  ghost predicate CountsOk(s: System) {
    forall name :: (name in s.counts <==> name in s.labels) && (name in s.counts ==> s.counts[name] == multiset(s.labels)[name])
  }

  lemma BumpKeepsCounts(counts: map<Blob, nat>, labels: seq<Blob>, bumped: Blob, name: Blob)
    requires (name in counts <==> name in labels) && (name in counts ==> counts[name] == multiset(labels)[name])
    ensures name in Bumped(counts, bumped) <==> name in labels + [bumped]
    ensures name in Bumped(counts, bumped) ==> Bumped(counts, bumped)[name] == multiset(labels + [bumped])[name]
  {
    assert multiset(labels + [bumped]) == multiset(labels) + multiset{bumped};
    assert name in labels <==> name in multiset(labels);
  }

  lemma {:induction false} RunsKeepCounts(s: System, steps: seq<Step>, s': System)
    requires CountsOk(s) && Runs(s, steps, s')
    ensures CountsOk(s')
    decreases |steps|
  {
    if steps != [] {
      var n := Next(s, steps[0]);
      if steps[0].Log? {
        forall name
          ensures (name in n.counts <==> name in n.labels) && (name in n.counts ==> n.counts[name] == multiset(n.labels)[name])
        {
          BumpKeepsCounts(s.counts, s.labels, steps[0].name, name);
        }
      }
      RunsKeepCounts(n, steps[1..], s');
    }
  }

  /** At any moment of any interleaving a method's count is the number of calls logged under its label. */
  lemma CountsPerMethod(steps: seq<Step>, s: System, name: Blob)
    requires Runs(INITIAL, steps, s)
    ensures name in s.counts <==> name in s.labels
    ensures name in s.counts ==> s.counts[name] == multiset(s.labels)[name]
  {
    RunsKeepCounts(INITIAL, steps, s);
  }

  predicate IsEventOf(e: Event, v: Visit) {
    e.pid == v.call.pid && e.proto == v.call.proto && e.methodID == v.call.methodID && v.at <= e.at
  }

  ghost predicate EventsOk(s: System) {
    && (forall v :: v in s.visits ==> v.at <= s.now)
    && (forall t :: t in s.threads && s.threads[t].Recorded? ==> exists v :: v in s.visits && v.call == s.threads[t].call)
    && (forall e :: e in s.log ==> exists v :: v in s.visits && IsEventOf(e, v))
  }

  lemma StepKeepsEvents(s: System, step: Step)
    requires EventsOk(s) && Enabled(s, step)
    ensures EventsOk(Next(s, step))
  {
    var s' := Next(s, step);
    assert forall v :: v in s.visits ==> v in s'.visits;
    if step.Record? {
      assert Visit(s.threads[step.t].call, s.now) in s'.visits;
    }
    if step.Log? {
      var v :| v in s.visits && v.call == s.threads[step.t].call;
      assert IsEventOf(s'.log[|s.log|], v);
    }
    forall e | e in s'.log
      ensures exists v :: v in s'.visits && IsEventOf(e, v)
    {
      if e in s.log {
        var v :| v in s.visits && IsEventOf(e, v);
        assert v in s'.visits;
      }
    }
  }

  lemma {:induction false} RunsKeepEvents(s: System, steps: seq<Step>, s': System)
    requires EventsOk(s) && Runs(s, steps, s')
    ensures EventsOk(s')
    decreases |steps|
  {
    if steps != [] {
      StepKeepsEvents(s, steps[0]);
      RunsKeepEvents(Next(s, steps[0]), steps[1..], s');
    }
  }

  /** Every event shown is that of a call that reached the player records no later: its PID, protocol and method. */
  lemma EventsAreCalls(steps: seq<Step>, s: System, i: nat)
    requires Runs(INITIAL, steps, s) && i < |s.events|
    ensures exists v :: v in s.visits && IsEventOf(s.events[i], v)
  {
    RunsKeepEvents(INITIAL, steps, s);
    CountersConserve(steps, s);
    assert s.events[i] in s.log;
  }

  /** The three steps of one call run alone do what noting it uninterrupted does. */
  lemma AloneIsNoteRMC(s: System, t: Tid, c: Call, name: Blob, elapsed: nat) returns (steps: seq<Step>, s': System)
    requires t !in s.threads && c.pid != 0
    ensures Runs(s, steps, s') && s'.threads == s.threads
    ensures s'.rmcTotal == s.rmcTotal + 1 && s'.players == Touched(s.players, c, s.now)
    ensures s'.sessionsSeen == s.sessionsSeen + (if c.pid in s.players then 0 else 1)
    ensures s'.events == Pushed(s.events, Event(s.now + elapsed, c.pid, c.proto, c.methodID))
    ensures s'.counts == Bumped(s.counts, name)
  {
    var p := Next(s, Count(t, c));
    var q := Next(p, Record(t));
    var r := Next(q, Tick(elapsed));
    s' := Next(r, Log(t, name));
    steps := [Count(t, c), Record(t), Tick(elapsed), Log(t, name)];
    assert steps[1..] == [Record(t), Tick(elapsed), Log(t, name)];
    assert steps[1..][1..] == [Tick(elapsed), Log(t, name)] && [Tick(elapsed), Log(t, name)][1..] == [Log(t, name)];
    assert Runs(r, [Log(t, name)], s');
    assert Runs(q, [Tick(elapsed), Log(t, name)], s');
    assert Runs(p, steps[1..], s');
    assert s'.threads == s.threads;
  }

  // ----- totals over time -----

  /** When nothing is being noted, the three totals are one number. */
  lemma QuietTotalsAgree(steps: seq<Step>, s: System)
    requires Runs(INITIAL, steps, s) && s.threads == map[]
    ensures s.rmcTotal == Total(Calls(s.players)) == Total(s.counts) == |s.log|
  {
    CountersConserve(steps, s);
    RunsLog(INITIAL, steps, s);
    assert CountedOnly(s) == {} && NotLogged(s) == {};
  }

  lemma {:induction false} RunsLog(s: System, steps: seq<Step>, s': System)
    requires Runs(s, steps, s') && Total(s.counts) == |s.log|
    ensures Total(s'.counts) == |s'.log|
    decreases |steps|
  {
    if steps != [] {
      if steps[0].Log? {
        BumpedTotal(s.counts, steps[0].name);
      }
      RunsLog(Next(s, steps[0]), steps[1..], s');
    }
  }

  lemma {:induction false} TotalsGrow(s: System, steps: seq<Step>, s': System)
    requires Runs(s, steps, s')
    ensures s.rmcTotal <= s'.rmcTotal && s.sessionsSeen <= s'.sessionsSeen
    decreases |steps|
  {
    if steps != [] {
      TotalsGrow(Next(s, steps[0]), steps[1..], s');
    }
  }

  /** Records and method counts read while calls keep coming in are never ahead of totals read later. */
  lemma LaterTotalsCover(a: seq<Step>, s1: System, b: seq<Step>, s2: System, c: seq<Step>, s3: System)
    requires Runs(INITIAL, a, s1) && Runs(s1, b, s2) && Runs(s2, c, s3)
    ensures Total(Calls(s1.players)) <= s3.rmcTotal && |s1.players| <= s3.sessionsSeen == |s3.players|
    ensures Total(s2.counts) <= s3.rmcTotal
  {
    InitialInv();
    RunsKeepInv(INITIAL, a, s1);
    RunsKeepInv(s1, b, s2);
    RunsKeepInv(s2, c, s3);
    TotalsGrow(s1, b, s2);
    TotalsGrow(s2, c, s3);
  }
}
