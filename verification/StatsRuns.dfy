/**
 The statistics page beside everything else: its rows against totals that keep growing while it is built, and the
 peak, which every page tests and then writes without a lock.
 */
module StatsRuns {
  import opened Bytes
  import opened Maps
  import opened Monitor
  import opened Stats
  import MonitorRuns

  // ----- calls shown and calls counted -----

  function CallsShown(rows: seq<PlayerRow>): nat {
    if rows == [] then 0 else rows[0].calls + CallsShown(rows[1..])
  }

  function CountsShown(rows: seq<MethodRow>): nat {
    if rows == [] then 0 else rows[0].count + CountsShown(rows[1..])
  }

  /** Rows of different players never show more calls than all records together. */
  lemma {:induction false} CallsShownBound(rows: seq<PlayerRow>, calls: map<u64, nat>)
    requires PidsDiffer(rows)
    requires forall i :: 0 <= i < |rows| ==> rows[i].calls == if rows[i].pid in calls then calls[rows[i].pid] else 0
    ensures CallsShown(rows) <= Total(calls)
    decreases |rows|
  {
    if rows != [] {
      var pid := rows[0].pid;
      assert forall i :: 0 <= i < |rows[1..]| ==> rows[1..][i] == rows[i + 1] && rows[i + 1].pid != pid;
      CallsShownBound(rows[1..], calls - {pid});
      if pid in calls {
        TotalSplit(calls, pid);
      } else {
        assert calls - {pid} == calls;
      }
    }
  }

  lemma {:induction false} CountsShownAppend(a: seq<MethodRow>, b: seq<MethodRow>)
    ensures CountsShown(a + b) == CountsShown(a) + CountsShown(b)
    decreases |a|
  {
    if a == [] {
      assert a + b == b;
    } else {
      assert (a + b)[0] == a[0] && (a + b)[1..] == a[1..] + b;
      CountsShownAppend(a[1..], b);
    }
  }

  lemma TakeRow(rows: seq<MethodRow>, i: nat)
    requires i < |rows|
    ensures CountsShown(rows) == rows[i].count + CountsShown(rows[..i] + rows[i + 1..])
  {
    assert rows == rows[..i] + rows[i..];
    assert rows[i..][1..] == rows[i + 1..];
    CountsShownAppend(rows[..i], rows[i..]);
    CountsShownAppend(rows[..i], rows[i + 1..]);
  }

  /** Rows that list every method, no more rows than methods, show all calls of all methods. */
  lemma {:induction false} CountsShownTotal(rows: seq<MethodRow>, counts: map<Blob, nat>)
    requires |rows| <= |counts|
    requires forall name: Blob :: name in counts ==> MethodRow(name, counts[name]) in rows
    ensures CountsShown(rows) == Total(counts)
    decreases |rows|
  {
    if name: Blob :| name in counts {
      var row := MethodRow(name, counts[name]);
      assert row in rows;
      var i :| 0 <= i < |rows| && rows[i] == row;
      var others := rows[..i] + rows[i + 1..];
      assert rows == rows[..i] + [row] + rows[i + 1..];
      SmallerWithout(counts, name);
      TakeRow(rows, i);
      CountsShownTotal(others, counts - {name});
      TotalSplit(counts, name);
    }
  }

  ghost predicate PidsIncrease(rows: seq<PlayerRow>) {
    forall i, j :: 0 <= i < j < |rows| ==> rows[i].pid < rows[j].pid
  }

  /**
   The page reads the player records, later the method counts and last the totals, while calls keep coming in: neither
   the calls of the players it lists nor those of the methods it lists ever add up to more than its total.
   */
  lemma PageWithinTotal(a: seq<MonitorRuns.Step>, s1: MonitorRuns.System, b: seq<MonitorRuns.Step>, s2: MonitorRuns.System,
                        c: seq<MonitorRuns.Step>, s3: MonitorRuns.System,
                        players: seq<PlayerRow>, conns: seq<Conn>, lobbies: seq<Lobby>, methods: seq<MethodRow>)
    requires MonitorRuns.Runs(MonitorRuns.INITIAL, a, s1) && MonitorRuns.Runs(s1, b, s2) && MonitorRuns.Runs(s2, c, s3)
    requires ListsPlayers(players, conns, s1.players, lobbies) && PidsIncrease(players)
    requires ListsMethods(methods, s2.counts)
    ensures CallsShown(players) <= s3.rmcTotal
    ensures CountsShown(methods) <= s3.rmcTotal
  {
    MonitorRuns.LaterTotalsCover(a, s1, b, s2, c, s3);
    forall i | 0 <= i < |players|
      ensures var calls := Calls(s1.players);
        players[i].calls == if players[i].pid in calls then calls[players[i].pid] else 0
    {
      assert Shows(players[i], conns, s1.players, lobbies);
    }
    CallsShownBound(players, Calls(s1.players));
    CountsShownTotal(methods, s2.counts);
  }

  // ----- players shown and sessions counted -----

  /** The PIDs behind the connections. */
  function Connected(conns: seq<Conn>): set<u64> {
    set c | c in conns && c.pid != 0 :: c.pid
  }

  lemma {:induction false} ConnectedIffConn(conns: seq<Conn>, pid: u64)
    ensures pid != 0 ==> (pid in Connected(conns) <==> FirstConn(conns, pid).Some?)
    decreases |conns|
  {
    if conns != [] {
      var n := |conns| - 1;
      assert conns == conns[..n] + [conns[n]];
      ConnectedIffConn(conns[..n], pid);
      forall p: u64
        ensures p in Connected(conns) <==> p in Connected(conns[..n]) || (p != 0 && p == conns[n].pid)
      {
        assert forall c :: c in conns <==> c in conns[..n] || c == conns[n];
      }
    }
  }

  lemma {:induction false} DistinctPids(rows: seq<PlayerRow>, pids: set<u64>)
    requires PidsDiffer(rows)
    requires forall pid: u64 :: pid in pids <==> exists i :: 0 <= i < |rows| && rows[i].pid == pid
    ensures |rows| == |pids|
    decreases |rows|
  {
    if rows == [] {
      assert pids == {};
    } else {
      var first, rest := rows[0].pid, rows[1..];
      assert rows[0].pid == first;
      forall pid: u64
        ensures pid in pids - {first} <==> exists i :: 0 <= i < |rest| && rest[i].pid == pid
      {
        if pid in pids - {first} {
          var i :| 0 <= i < |rows| && rows[i].pid == pid;
          assert rest[i - 1].pid == pid;
        }
        if i :| 0 <= i < |rest| && rest[i].pid == pid {
          assert rows[i + 1].pid == pid;
        }
      }
      DistinctPids(rest, pids - {first});
      SizeWithout(pids, first);
    }
  }

  /** The page lists as many players as are connected. */
  lemma ListsConnected(rows: seq<PlayerRow>, conns: seq<Conn>, known: map<u64, Player>, lobbies: seq<Lobby>)
    requires ListsPlayers(rows, conns, known, lobbies) && PidsIncrease(rows)
    ensures |rows| == |Connected(conns)|
  {
    forall pid: u64
      ensures pid in Connected(conns) <==> exists i :: 0 <= i < |rows| && rows[i].pid == pid
    {
      ConnectedIffConn(conns, pid);
      if i :| 0 <= i < |rows| && rows[i].pid == pid {
        assert Shows(rows[i], conns, known, lobbies);
      }
    }
    DistinctPids(rows, Connected(conns));
  }

  lemma LargerIff<T>(a: set<T>, b: set<T>)
    ensures |a| <= |b| <==> |a - b| <= |b - a|
  {
    assert a == (a - b) + (a * b) && b == (b - a) + (a * b);
  }

  /**
   The page shows no more players than sessions when everyone connected has called; and exactly when the connected
   players that have not called yet are no more than the players that have called and gone.
   */
  lemma SessionsCoverPlayersIff(a: seq<MonitorRuns.Step>, s1: MonitorRuns.System, b: seq<MonitorRuns.Step>, s2: MonitorRuns.System,
                                players: seq<PlayerRow>, conns: seq<Conn>, lobbies: seq<Lobby>)
    requires MonitorRuns.Runs(MonitorRuns.INITIAL, a, s1) && MonitorRuns.Runs(s1, b, s2)
    requires ListsPlayers(players, conns, s1.players, lobbies) && PidsIncrease(players)
    ensures Connected(conns) <= s2.players.Keys ==> |players| <= s2.sessionsSeen
    ensures |players| <= s2.sessionsSeen
       <==> |Connected(conns) - s2.players.Keys| <= |s2.players.Keys - Connected(conns)|
  {
    MonitorRuns.LaterTotalsCover(a, s1, b, s2, [], s2);
    ListsConnected(players, conns, s1.players, lobbies);
    LargerIff(Connected(conns), s2.players.Keys);
    assert |s2.players| == |s2.players.Keys|;
    if Connected(conns) <= s2.players.Keys {
      assert Connected(conns) - s2.players.Keys == {};
    }
  }

  /** One connected client that has not called: a player without a session. */
  lemma StrangerHasNoSession(players: seq<PlayerRow>)
    requires ListsPlayers(players, [Conn(7, [])], MonitorRuns.INITIAL.players, []) && PidsIncrease(players)
    ensures |players| == 1 > MonitorRuns.INITIAL.sessionsSeen
  {
    ListsConnected(players, [Conn(7, [])], MonitorRuns.INITIAL.players, []);
    assert Conn(7, []) in [Conn(7, [])];
    assert Connected([Conn(7, [])]) == {7};
  }

  // ----- the peak -----

  type Tid = nat

  /** A page under way: players counted; peak found lower and not yet written; peak dealt with; sent with the peak it read. */
  datatype Page = Built(shown: nat) | Raising(shown: nat) | Settled(shown: nat) | Sent(shown: nat, peak: nat)

  datatype Peaks = Peaks(peak: nat, pages: map<Tid, Page>)

  const NO_PAGES := Peaks(0, map[])

  datatype Step = Build(t: Tid, shown: nat) | Test(t: Tid) | Raise(t: Tid) | Send(t: Tid)

  predicate Enabled(s: Peaks, step: Step) {
    match step
    case Build(t, _) => t !in s.pages
    case Test(t) => t in s.pages && s.pages[t].Built?
    case Raise(t) => t in s.pages && s.pages[t].Raising?
    case Send(t) => t in s.pages && s.pages[t].Settled?
  }

  function Next(s: Peaks, step: Step): Peaks
    requires Enabled(s, step)
  {
    match step
    case Build(t, n) => s.(pages := s.pages[t := Built(n)])
    case Test(t) =>
      var n := s.pages[t].shown;
      s.(pages := s.pages[t := if n > s.peak then Raising(n) else Settled(n)])
    case Raise(t) => Peaks(s.pages[t].shown, s.pages[t := Settled(s.pages[t].shown)])
    case Send(t) => s.(pages := s.pages[t := Sent(s.pages[t].shown, s.peak)])
  }

  ghost predicate Runs(s: Peaks, steps: seq<Step>, s': Peaks)
    decreases |steps|
  {
    if steps == [] then s == s' else Enabled(s, steps[0]) && Runs(Next(s, steps[0]), steps[1..], s')
  }

  predicate IsRaising(s: Peaks, t: Tid) {
    t in s.pages && s.pages[t].Raising?
  }

  /** Two pages that overlap between test and write, the larger one writing first: the peak falls, and its page shows more players than the peak. */
  lemma PeakCanFall(n: nat, m: nat) returns (a: seq<Step>, s1: Peaks, b: seq<Step>, s2: Peaks)
    requires 0 < m < n
    ensures Runs(NO_PAGES, a, s1) && Runs(s1, b, s2)
    ensures s1.peak == n && s2.peak == m
    ensures 0 in s2.pages && s2.pages[0] == Sent(n, m)
  {
    a, b := [Build(0, n), Build(1, m), Test(0), Test(1), Raise(0)], [Raise(1), Send(0)];
    var p := Next(Next(NO_PAGES, a[0]), a[1]);
    var q := Next(Next(p, a[2]), a[3]);
    s1 := Next(q, a[4]);
    assert Runs(q, [Raise(0)], s1);
    assert a[2..][1..] == [Test(1), Raise(0)] && a[2..][1..][1..] == [Raise(0)];
    assert Runs(p, a[2..], s1);
    assert a[1..][1..] == a[2..];
    var r := Next(s1, b[0]);
    s2 := Next(r, b[1]);
    assert b[1..] == [Send(0)] && Runs(r, [Send(0)], s2);
  }

  /** The pending writes agree on one number, and it is not below the peak. */
  ghost predicate WritesAgree(s: Peaks) {
    && (forall t :: IsRaising(s, t) ==> s.pages[t].shown >= s.peak)
    && (forall t, u :: IsRaising(s, t) && IsRaising(s, u) ==> s.pages[t].shown == s.pages[u].shown)
  }

  predicate OnlyWrites(steps: seq<Step>) {
    forall i :: 0 <= i < |steps| ==> steps[i].Raise?
  }

  /** Some order of the pending writes makes the peak fall. */
  ghost predicate CanFall(s: Peaks) {
    exists a, s1, b, s2 :: OnlyWrites(a) && OnlyWrites(b) && Runs(s, a, s1) && Runs(s1, b, s2) && s2.peak < s1.peak
  }

  lemma {:induction false} AgreeingWritesRaise(s: Peaks, steps: seq<Step>, s': Peaks)
    requires WritesAgree(s) && OnlyWrites(steps) && Runs(s, steps, s')
    ensures WritesAgree(s') && s.peak <= s'.peak
    decreases |steps|
  {
    if steps != [] {
      assert steps[0].Raise?;
      assert forall i :: 0 <= i < |steps[1..]| ==> steps[1..][i] == steps[i + 1];
      AgreeingWritesRaise(Next(s, steps[0]), steps[1..], s');
    }
  }

  lemma WriteFalls(s: Peaks, t: Tid)
    requires IsRaising(s, t) && s.pages[t].shown < s.peak
    ensures CanFall(s)
  {
    var s2 := Next(s, Raise(t));
    assert OnlyWrites([]) && OnlyWrites([Raise(t)]) && Runs(s, [], s) && Runs(s, [Raise(t)], s2);
  }

  lemma WritesFall(s: Peaks, t: Tid, u: Tid)
    requires IsRaising(s, t) && IsRaising(s, u) && s.pages[t].shown < s.pages[u].shown
    ensures CanFall(s)
  {
    var s1 := Next(s, Raise(u));
    var s2 := Next(s1, Raise(t));
    assert OnlyWrites([Raise(u)]) && OnlyWrites([Raise(t)]) && Runs(s, [Raise(u)], s1) && Runs(s1, [Raise(t)], s2);
  }

  /** The pending writes can make the peak fall exactly when they disagree or one of them is overtaken already. */
  lemma CanFallIff(s: Peaks)
    ensures CanFall(s) <==> !WritesAgree(s)
  {
    if WritesAgree(s) {
      forall a, s1, b, s2 | OnlyWrites(a) && OnlyWrites(b) && Runs(s, a, s1) && Runs(s1, b, s2)
        ensures s1.peak <= s2.peak
      {
        AgreeingWritesRaise(s, a, s1);
        AgreeingWritesRaise(s1, b, s2);
      }
    } else if t :| IsRaising(s, t) && s.pages[t].shown < s.peak {
      WriteFalls(s, t);
    } else {
      var t, u :| IsRaising(s, t) && IsRaising(s, u) && s.pages[t].shown != s.pages[u].shown;
      if s.pages[t].shown < s.pages[u].shown {
        WritesFall(s, t, u);
      } else {
        WritesFall(s, u, t);
      }
    }
  }

  /** No page tests the peak while another is between its test and its write. */
  ghost predicate NoOverlap(s: Peaks, steps: seq<Step>)
    decreases |steps|
  {
    steps != [] ==>
      && Enabled(s, steps[0])
      && (steps[0].Test? ==> forall t :: !IsRaising(s, t))
      && NoOverlap(Next(s, steps[0]), steps[1..])
  }

  predicate HasSettled(s: Peaks, t: Tid) {
    t in s.pages && (s.pages[t].Settled? || s.pages[t].Sent?)
  }

  /** One pending write at most, above the peak; the peak is the largest number settled so far; pages show no more than it. */
  ghost predicate PeakOk(s: Peaks) {
    && (forall t :: IsRaising(s, t) ==> s.pages[t].shown > s.peak)
    && (forall t, u :: IsRaising(s, t) && IsRaising(s, u) ==> t == u)
    && (forall t :: HasSettled(s, t) ==> s.pages[t].shown <= s.peak)
    && (s.peak == 0 || exists t :: HasSettled(s, t) && s.pages[t].shown == s.peak)
    && (forall t :: t in s.pages && s.pages[t].Sent? ==> s.pages[t].shown <= s.pages[t].peak <= s.peak)
  }

  /** What a step makes of a page: only that of its own thread moves on. */
  lemma PageAfter(s: Peaks, step: Step, t: Tid)
    requires Enabled(s, step)
    ensures t != step.t ==> (IsRaising(Next(s, step), t) <==> IsRaising(s, t)) && (HasSettled(Next(s, step), t) <==> HasSettled(s, t))
    ensures IsRaising(Next(s, step), step.t) <==> step.Test? && s.pages[step.t].shown > s.peak
    ensures HasSettled(Next(s, step), step.t) <==> step.Raise? || step.Send? || (step.Test? && s.pages[step.t].shown <= s.peak)
  {
  }

  lemma StepPeakOk(s: Peaks, step: Step)
    requires PeakOk(s) && Enabled(s, step)
    requires step.Test? ==> forall t :: !IsRaising(s, t)
    ensures PeakOk(Next(s, step)) && s.peak <= Next(s, step).peak
  {
    var s' := Next(s, step);
    assert step.Raise? ==> IsRaising(s, step.t);
    assert step.Send? ==> HasSettled(s, step.t);
    forall t
      ensures IsRaising(s', t) ==> s'.pages[t].shown > s'.peak
      ensures HasSettled(s', t) ==> s'.pages[t].shown <= s'.peak
    {
      PageAfter(s, step, t);
    }
    forall t, u | IsRaising(s', t) && IsRaising(s', u)
      ensures t == u
    {
      PageAfter(s, step, t);
      PageAfter(s, step, u);
    }
    SomeReached(s, step);
  }

  lemma SomeReached(s: Peaks, step: Step)
    requires Enabled(s, step)
    requires s.peak == 0 || exists t :: HasSettled(s, t) && s.pages[t].shown == s.peak
    ensures var s' := Next(s, step); s'.peak == 0 || exists t :: HasSettled(s', t) && s'.pages[t].shown == s'.peak
  {
    var s' := Next(s, step);
    if step.Raise? {
      assert HasSettled(s', step.t);
    } else if s.peak != 0 {
      var t :| HasSettled(s, t) && s.pages[t].shown == s.peak;
      assert HasSettled(s', t);
    }
  }

  lemma {:induction false} RunsPeakOk(s: Peaks, steps: seq<Step>, s': Peaks)
    requires PeakOk(s) && Runs(s, steps, s') && NoOverlap(s, steps)
    ensures PeakOk(s') && s.peak <= s'.peak
    decreases |steps|
  {
    if steps != [] {
      StepPeakOk(s, steps[0]);
      RunsPeakOk(Next(s, steps[0]), steps[1..], s');
    }
  }

  /**
   As long as no two pages overlap between test and write, the peak never falls, it is the largest number of players
   any settled page counted, and no page is sent with more players than its peak.
   */
  lemma PeakIsMaximum(a: seq<Step>, s1: Peaks, b: seq<Step>, s2: Peaks)
    requires Runs(NO_PAGES, a, s1) && NoOverlap(NO_PAGES, a) && Runs(s1, b, s2) && NoOverlap(s1, b)
    ensures s1.peak <= s2.peak
    ensures forall t :: HasSettled(s2, t) ==> s2.pages[t].shown <= s2.peak
    ensures s2.peak == 0 || exists t :: HasSettled(s2, t) && s2.pages[t].shown == s2.peak
    ensures forall t :: t in s2.pages && s2.pages[t].Sent? ==> s2.pages[t].shown <= s2.pages[t].peak <= s2.peak
  {
    RunsPeakOk(NO_PAGES, a, s1);
    RunsPeakOk(s1, b, s2);
  }

  /** The steps of one page run alone do to the peak what building it uninterrupted does. */
  lemma AloneIsBuildStats(s: Peaks, t: Tid, n: nat) returns (steps: seq<Step>, s': Peaks)
    requires t !in s.pages
    ensures Runs(s, steps, s')
    ensures s'.peak == (if n > s.peak then n else s.peak) && s'.pages == s.pages[t := Sent(n, s'.peak)]
  {
    var a := Next(s, Build(t, n));
    var b := Next(a, Test(t));
    var write := if n > s.peak then [Raise(t)] else [];
    var c := if n > s.peak then Next(b, Raise(t)) else b;
    s' := Next(c, Send(t));
    steps := [Build(t, n), Test(t)] + (write + [Send(t)]);
    assert Runs(c, [Send(t)], s');
    assert (write + [Send(t)])[|write|..] == [Send(t)];
    assert Runs(b, write + [Send(t)], s');
    assert steps[1..] == [Test(t)] + (write + [Send(t)]);
    assert steps[1..][1..] == write + [Send(t)];
    assert Runs(a, steps[1..], s');
  }
}
