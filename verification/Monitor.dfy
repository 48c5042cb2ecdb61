/** The monitoring counters: per-player records, totals per method and the ring of recent calls. */
module Monitor {
  import opened Bytes
  import opened Maps

  /** The record of one player. */
  datatype Player = Player(first: nat, last: nat, addr: Blob, calls: nat, proto: u16, methodID: u32)

  datatype Call = Call(pid: u64, proto: u16, methodID: u32, addr: Blob)

  datatype Event = Event(at: nat, pid: u64, proto: u16, methodID: u32)

  const RING: nat := 100

  // ----- the two critical sections, on values -----

  function Touched(players: map<u64, Player>, c: Call, now: nat): map<u64, Player> {
    var p := if c.pid in players then players[c.pid] else Player(now, now, [], 0, 0, 0);
    players[c.pid := Player(p.first, now, if c.addr != [] then c.addr else p.addr, p.calls + 1, c.proto, c.methodID)]
  }

  function LastOf<T>(s: seq<T>, n: nat): (t: seq<T>)
    ensures |t| == if |s| <= n then |s| else n
  {
    if |s| <= n then s else s[|s| - n..]
  }

  function Pushed(ring: seq<Event>, e: Event): seq<Event> {
    LastOf(ring + [e], RING)
  }

  function Bumped(counts: map<Blob, nat>, name: Blob): map<Blob, nat> {
    counts[name := (if name in counts then counts[name] else 0) + 1]
  }

  /** The ring of a log is its last hundred entries, and pushing keeps it so. */
  lemma PushKeepsRing(log: seq<Event>, e: Event)
    ensures Pushed(LastOf(log, RING), e) == LastOf(log + [e], RING)
  {
  }

  // ----- totals over maps -----

  ghost function Total<K(!new)>(m: map<K, nat>): nat {
    if m == map[] then 0
    else
      var k :| k in m;
      m[k] + Total(m - {k})
  }

  lemma {:induction false} TotalSplit<K(!new)>(m: map<K, nat>, k: K)
    requires k in m
    ensures Total(m) == m[k] + Total(m - {k})
    decreases |m|
  {
    var j :| j in m && Total(m) == m[j] + Total(m - {j});
    if j != k {
      assert |m - {j}| < |m| by { SmallerWithout(m, j); }
      assert |m - {k}| < |m| by { SmallerWithout(m, k); }
      TotalSplit(m - {j}, k);
      TotalSplit(m - {k}, j);
      assert m - {j} - {k} == m - {k} - {j};
    }
  }

  lemma TotalUpdate<K(!new)>(m: map<K, nat>, k: K, v: nat)
    ensures Total(m[k := v]) == Total(m) + v - (if k in m then m[k] else 0)
  {
    TotalSplit(m[k := v], k);
    assert m[k := v] - {k} == m - {k};
    if k in m {
      TotalSplit(m, k);
    } else {
      assert m - {k} == m;
    }
  }

  function Calls(players: map<u64, Player>): map<u64, nat> {
    map pid | pid in players :: players[pid].calls
  }

  lemma TouchedTotals(players: map<u64, Player>, c: Call, now: nat)
    ensures Total(Calls(Touched(players, c, now))) == Total(Calls(players)) + 1
    ensures |Touched(players, c, now)| == |players| + if c.pid in players then 0 else 1
  {
    var p' := Touched(players, c, now);
    assert Calls(p') == Calls(players)[c.pid := p'[c.pid].calls];
    TotalUpdate(Calls(players), c.pid, p'[c.pid].calls);
    assert p'.Keys == players.Keys + {c.pid};
    assert |p'| == |p'.Keys| && |players| == |players.Keys|;
  }

  lemma BumpedTotal(counts: map<Blob, nat>, name: Blob)
    ensures Total(Bumped(counts, name)) == Total(counts) + 1
  {
    TotalUpdate(counts, name, Bumped(counts, name)[name]);
  }

  // ----- the monitor -----

  class Board {
    var rmcTotal: nat
    var playerMeta: map<u64, Player>
    var sessionsSeen: nat
    var events: seq<Event>
    var methodCount: map<Blob, nat>
    var peakConnected: nat

    constructor ()
      ensures rmcTotal == 0 && playerMeta == map[] && sessionsSeen == 0 && events == [] && methodCount == map[] && peakConnected == 0
    {
      rmcTotal, playerMeta, sessionsSeen, events, methodCount, peakConnected := 0, map[], 0, [], map[], 0;
    }

    /** `name` is the label of the call's method; a caller without a PID leaves no trace. */
    method NoteRMC(c: Call, name: Blob, now: nat, later: nat)
      modifies this`rmcTotal, this`playerMeta, this`sessionsSeen, this`events, this`methodCount
      ensures c.pid == 0 ==>
        && rmcTotal == old(rmcTotal) && playerMeta == old(playerMeta) && sessionsSeen == old(sessionsSeen)
        && events == old(events) && methodCount == old(methodCount)
      ensures c.pid != 0 ==>
        && rmcTotal == old(rmcTotal) + 1
        && playerMeta == Touched(old(playerMeta), c, now)
        && sessionsSeen == old(sessionsSeen) + (if c.pid in old(playerMeta) then 0 else 1)
        && events == Pushed(old(events), Event(later, c.pid, c.proto, c.methodID))
        && methodCount == Bumped(old(methodCount), name)
    {
      if c.pid == 0 {
        return;
      }
      rmcTotal := rmcTotal + 1;

      if c.pid !in playerMeta {
        playerMeta := playerMeta[c.pid := Player(now, now, [], 0, 0, 0)];
        sessionsSeen := sessionsSeen + 1;
      }
      var p := playerMeta[c.pid].(last := now, calls := playerMeta[c.pid].calls + 1, proto := c.proto, methodID := c.methodID);
      if c.addr != [] {
        p := p.(addr := c.addr);
      }
      playerMeta := playerMeta[c.pid := p];

      events := events + [Event(later, c.pid, c.proto, c.methodID)];
      if |events| > RING {
        events := events[|events| - RING..];
      }
      methodCount := methodCount[name := (if name in methodCount then methodCount[name] else 0) + 1];
    }
  }
}
