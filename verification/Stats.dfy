/** The statistics snapshot: lobbies, connected players, the peak, recent events and method totals. */
module Stats {
  import opened Bytes
  import opened Monitor

  datatype Conn = Conn(pid: u64, addr: Blob)

  datatype Lobby = Lobby(id: u32, host: u64, mode: u32, vr: u32, maxPart: u16, participants: seq<u64>)

  datatype LobbyRow = LobbyRow(id: u32, host: u64, mode: u32, vr: u32, players: seq<(u64, bool)>, count: nat, max: u16, matched: bool)

  datatype PlayerRow = PlayerRow(pid: u64, addr: Blob, gathering: u32, calls: nat, vr: u32, mode: u32, isHost: bool)

  datatype MethodRow = MethodRow(name: Blob, count: nat)

  // ----- sorting, as sort.Slice promises it -----

  ghost predicate SortedBy<T>(xs: seq<T>, key: T -> int) {
    forall i, j :: 0 <= i < j < |xs| ==> key(xs[i]) <= key(xs[j])
  }

  method Insert<T>(xs: seq<T>, key: T -> int, x: T) returns (ys: seq<T>)
    requires SortedBy(xs, key)
    ensures SortedBy(ys, key) && multiset(ys) == multiset(xs) + multiset{x}
  {
    var i := 0;
    while i < |xs| && key(xs[i]) <= key(x)
      invariant i <= |xs| && forall k :: 0 <= k < i ==> key(xs[k]) <= key(x)
    {
      i := i + 1;
    }
    ys := xs[..i] + [x] + xs[i..];
    assert xs == xs[..i] + xs[i..];
    assert multiset(ys) == multiset(xs[..i]) + multiset{x} + multiset(xs[i..]);
  }

  method SortBy<T>(xs: seq<T>, key: T -> int) returns (ys: seq<T>)
    ensures SortedBy(ys, key) && multiset(ys) == multiset(xs)
  {
    ys := [];
    for i := 0 to |xs|
      invariant SortedBy(ys, key) && multiset(ys) == multiset(xs[..i])
    {
      ys := Insert(ys, key, xs[i]);
      assert xs[..i + 1] == xs[..i] + [xs[i]];
    }
    assert xs[..|xs|] == xs;
  }

  lemma SameElements<T>(xs: seq<T>, ys: seq<T>)
    requires multiset(xs) == multiset(ys)
    ensures |xs| == |ys| && forall x :: x in xs <==> x in ys
  {
    assert |multiset(xs)| == |xs| && |multiset(ys)| == |ys|;
    forall x
      ensures x in xs <==> x in ys
    {
      assert x in xs <==> x in multiset(xs);
      assert x in ys <==> x in multiset(ys);
    }
  }

  // ----- lobbies -----

  /** The lobby a player is shown in: the last one that lists it. */
  function LobbyOf(lobbies: seq<Lobby>, pid: u64): Option<Lobby> {
    if lobbies == [] then None
    else if pid in lobbies[|lobbies| - 1].participants then Some(lobbies[|lobbies| - 1])
    else LobbyOf(lobbies[..|lobbies| - 1], pid)
  }

  /** Host of some lobby it takes part in, even one it is no longer shown in. */
  ghost predicate HostsSome(lobbies: seq<Lobby>, pid: u64) {
    exists i :: 0 <= i < |lobbies| && pid in lobbies[i].participants && lobbies[i].host == pid
  }

  function RowOf(l: Lobby): LobbyRow {
    LobbyRow(l.id, l.host, l.mode, l.vr,
             seq(|l.participants|, i requires 0 <= i < |l.participants| => (l.participants[i], l.participants[i] == l.host)),
             |l.participants|, if l.maxPart == 0 then 12 else l.maxPart, |l.participants| >= 2)
  }

  function RowsOf(lobbies: seq<Lobby>): seq<LobbyRow> {
    if lobbies == [] then []
    else
      var l := lobbies[|lobbies| - 1];
      RowsOf(lobbies[..|lobbies| - 1]) + if l.participants == [] then [] else [RowOf(l)]
  }

  /** A lobby's row: its participants in order, each marked when it is the host, room for twelve unless told otherwise. */
  lemma RowShows(l: Lobby, i: nat)
    ensures var row := RowOf(l);
      && row.id == l.id && row.host == l.host && row.mode == l.mode && row.vr == l.vr
      && row.count == |row.players| == |l.participants|
      && (i < |l.participants| ==> row.players[i].0 == l.participants[i] && (row.players[i].1 <==> l.participants[i] == l.host))
      && row.max == (if l.maxPart == 0 then 12 else l.maxPart) && (row.matched <==> |l.participants| >= 2)
  {
  }

  /** Every lobby with a participant has its row, and no other. */
  lemma {:induction false} RowsOfParts(a: seq<Lobby>, b: seq<Lobby>, l: Lobby)
    ensures RowsOf(a + b) == RowsOf(a) + RowsOf(b)
    ensures RowsOf([l]) == if |l.participants| > 0 then [RowOf(l)] else []
    decreases |b|
  {
    assert [l][..0] == [];
    if b == [] {
      assert a + b == a;
    } else {
      var n := |b| - 1;
      assert (a + b)[..|a + b| - 1] == a + b[..n];
      RowsOfParts(a, b[..n], l);
    }
  }

  /** Lobby `i` lists the player, and no later one does. */
  ghost predicate IsLastOf(lobbies: seq<Lobby>, pid: u64, i: nat) {
    i < |lobbies| && pid in lobbies[i].participants && forall j :: i < j < |lobbies| ==> pid !in lobbies[j].participants
  }

  /** The lobby shown is the last one that lists the player. */
  lemma {:induction false} LobbyOfIsLast(lobbies: seq<Lobby>, pid: u64)
    ensures LobbyOf(lobbies, pid) == None <==> forall i :: 0 <= i < |lobbies| ==> pid !in lobbies[i].participants
    ensures LobbyOf(lobbies, pid).Some? ==> exists i: nat :: IsLastOf(lobbies, pid, i) && lobbies[i] == LobbyOf(lobbies, pid).value
    decreases |lobbies|
  {
    if lobbies != [] {
      var n := |lobbies| - 1;
      LobbyOfIsLast(lobbies[..n], pid);
      if pid in lobbies[n].participants {
        assert IsLastOf(lobbies, pid, n);
      } else if LobbyOf(lobbies[..n], pid).Some? {
        var i: nat :| IsLastOf(lobbies[..n], pid, i) && lobbies[..n][i] == LobbyOf(lobbies[..n], pid).value;
        assert forall j :: 0 <= j < n ==> lobbies[..n][j] == lobbies[j];
        assert IsLastOf(lobbies, pid, i);
      }
    }
  }

  datatype Seats = Seats(gathering: map<u64, u32>, mode: map<u64, u32>, vr: map<u64, u32>, isHost: set<u64>)

  /** The four tables say, for every player, what its last lobby is and whether it hosts one. */
  ghost predicate Describes(t: Seats, lobbies: seq<Lobby>) {
    && t.gathering.Keys == t.mode.Keys == t.vr.Keys
    && (forall p: u64 :: p in t.gathering <==> LobbyOf(lobbies, p).Some?)
    && (forall p: u64 :: p in t.gathering ==>
          t.gathering[p] == LobbyOf(lobbies, p).value.id && t.mode[p] == LobbyOf(lobbies, p).value.mode
          && t.vr[p] == LobbyOf(lobbies, p).value.vr)
    && (forall p: u64 :: p in t.isHost <==> HostsSome(lobbies, p))
  }

  /** `t` describes the earlier lobbies plus the first `n` participants of the next one. */
  ghost predicate DescribesPart(t: Seats, before: seq<Lobby>, l: Lobby, n: nat)
    requires n <= |l.participants|
  {
    Describes(t, before + [l.(participants := l.participants[..n])])
  }

  lemma SeatOne(t: Seats, before: seq<Lobby>, l: Lobby, n: nat)
    requires n < |l.participants| && DescribesPart(t, before, l, n)
    ensures DescribesPart(Seated(t, l, l.participants[n]), before, l, n + 1)
  {
    var p, t' := l.participants[n], Seated(t, l, l.participants[n]);
    var a, b := before + [l.(participants := l.participants[..n])], before + [l.(participants := l.participants[..n + 1])];
    assert a[..|before|] == before && b[..|before|] == before;
    assert l.participants[..n + 1] == l.participants[..n] + [p];
    forall q: u64
      ensures q != p ==> LobbyOf(b, q).Some? == LobbyOf(a, q).Some?
      ensures HostsSome(b, q) <==> HostsSome(a, q) || (q == p && l.host == p)
    {
      HostsSnoc(before, l.(participants := l.participants[..n]), q);
      HostsSnoc(before, l.(participants := l.participants[..n + 1]), q);
    }
  }

  lemma HostsSnoc(before: seq<Lobby>, l: Lobby, pid: u64)
    ensures HostsSome(before + [l], pid) <==> HostsSome(before, pid) || (pid in l.participants && l.host == pid)
  {
    var all := before + [l];
    assert all[|before|] == l;
    if HostsSome(before, pid) {
      var i :| 0 <= i < |before| && pid in before[i].participants && before[i].host == pid;
      assert all[i] == before[i];
    }
  }

  function Seated(t: Seats, l: Lobby, p: u64): Seats {
    Seats(t.gathering[p := l.id], t.mode[p := l.mode], t.vr[p := l.vr], if p == l.host then t.isHost + {p} else t.isHost)
  }

  method SeatLobby(t: Seats, l: Lobby, ghost before: seq<Lobby>) returns (t': Seats, players: seq<(u64, bool)>)
    requires Describes(t, before)
    ensures Describes(t', before + [l]) && players == RowOf(l).players
  {
    t', players := t, [];
    EmptyLobby(t, before, l.(participants := []));
    assert l.participants[..0] == [];
    for j := 0 to |l.participants|
      invariant DescribesPart(t', before, l, j)
      invariant |players| == j && forall k :: 0 <= k < j ==> players[k] == RowOf(l).players[k]
    {
      SeatOne(t', before, l, j);
      t' := Seated(t', l, l.participants[j]);
      players := players + [(l.participants[j], l.participants[j] == l.host)];
    }
    assert l.participants[..|l.participants|] == l.participants;
    assert l.(participants := l.participants) == l;
  }

  method SeatPlayers(lobbies: seq<Lobby>) returns (rows: seq<LobbyRow>, t: Seats)
    ensures Describes(t, lobbies)
    ensures multiset(rows) == multiset(RowsOf(lobbies)) && SortedBy(rows, (r: LobbyRow) => r.id)
  {
    t := Seats(map[], map[], map[], {});
    rows := [];
    NobodySeated();
    assert lobbies[..0] == [];
    for i := 0 to |lobbies|
      invariant Describes(t, lobbies[..i]) && rows == RowsOf(lobbies[..i])
    {
      var l := lobbies[i];
      RowsOfNext(lobbies, i);
      if l.participants == [] {
        EmptyLobby(t, lobbies[..i], l);
      } else {
        var players;
        t, players := SeatLobby(t, l, lobbies[..i]);
        var row := LobbyRow(l.id, l.host, l.mode, l.vr, players, |l.participants|,
                            if l.maxPart == 0 then 12 else l.maxPart, |l.participants| >= 2);
        assert row == RowOf(l);
        rows := rows + [row];
      }
    }
    assert lobbies[..|lobbies|] == lobbies;
    rows := SortBy(rows, (r: LobbyRow) => r.id);
  }

  lemma NobodySeated()
    ensures Describes(Seats(map[], map[], map[], {}), [])
  {
  }

  lemma RowsOfNext(lobbies: seq<Lobby>, i: nat)
    requires i < |lobbies|
    ensures lobbies[..i + 1] == lobbies[..i] + [lobbies[i]]
    ensures RowsOf(lobbies[..i + 1]) == RowsOf(lobbies[..i]) + if lobbies[i].participants == [] then [] else [RowOf(lobbies[i])]
  {
    assert lobbies[..i + 1][..i] == lobbies[..i];
  }

  lemma EmptyLobby(t: Seats, before: seq<Lobby>, l: Lobby)
    requires l.participants == [] && Describes(t, before)
    ensures Describes(t, before + [l])
  {
    var all := before + [l];
    assert all[..|before|] == before;
    forall p: u64
      ensures LobbyOf(all, p) == LobbyOf(before, p) && (HostsSome(all, p) <==> HostsSome(before, p))
    {
      HostsSnoc(before, l, p);
    }
  }

  // ----- players -----

  /** The first connection of a player. */
  function FirstConn(conns: seq<Conn>, pid: u64): Option<Conn> {
    if conns == [] then None
    else
      match FirstConn(conns[..|conns| - 1], pid)
      case Some(c) => Some(c)
      case None => if conns[|conns| - 1].pid == pid then Some(conns[|conns| - 1]) else None
  }

  /** Connection `i` is the player's, and no earlier one is. */
  ghost predicate IsFirstOf(conns: seq<Conn>, pid: u64, i: nat) {
    i < |conns| && conns[i].pid == pid && forall j :: 0 <= j < i ==> conns[j].pid != pid
  }

  /** The connection shown is the first one of the player. */
  lemma {:induction false} FirstConnIsFirst(conns: seq<Conn>, pid: u64)
    ensures FirstConn(conns, pid) == None <==> forall i :: 0 <= i < |conns| ==> conns[i].pid != pid
    ensures FirstConn(conns, pid).Some? ==> exists i: nat :: IsFirstOf(conns, pid, i) && conns[i] == FirstConn(conns, pid).value
    decreases |conns|
  {
    if conns != [] {
      var n := |conns| - 1;
      FirstConnIsFirst(conns[..n], pid);
      assert forall j :: 0 <= j < n ==> conns[..n][j] == conns[j];
      if FirstConn(conns[..n], pid).Some? {
        var i: nat :| IsFirstOf(conns[..n], pid, i) && conns[..n][i] == FirstConn(conns[..n], pid).value;
        assert IsFirstOf(conns, pid, i);
      } else if conns[n].pid == pid {
        assert IsFirstOf(conns, pid, n);
      }
    }
  }

  /** What the page shows for a player connected as `c`: its connection, its record, its last lobby. */
  ghost predicate ShowsAs(row: PlayerRow, c: Conn, known: map<u64, Player>, lobbies: seq<Lobby>) {
    && row.pid == c.pid
    && row.addr == (if c.addr != [] then c.addr else if row.pid in known then known[row.pid].addr else [])
    && row.calls == (if row.pid in known then known[row.pid].calls else 0)
    && (match LobbyOf(lobbies, row.pid)
        case None => row.gathering == 0 && row.mode == 0 && row.vr == 0
        case Some(l) => row.gathering == l.id && row.mode == l.mode && row.vr == l.vr)
    && (row.isHost <==> HostsSome(lobbies, row.pid))
  }

  /** The row of a player goes by its first connection. */
  ghost predicate Shows(row: PlayerRow, conns: seq<Conn>, known: map<u64, Player>, lobbies: seq<Lobby>) {
    row.pid != 0 && FirstConn(conns, row.pid).Some? && ShowsAs(row, FirstConn(conns, row.pid).value, known, lobbies)
  }

  function Lobbied(rows: seq<PlayerRow>): set<PlayerRow> {
    set r | r in rows && r.gathering != 0
  }

  /** Every connected player once, in order of PID. */
  ghost predicate ListsPlayers(rows: seq<PlayerRow>, conns: seq<Conn>, known: map<u64, Player>, lobbies: seq<Lobby>) {
    && (forall i :: 0 <= i < |rows| ==> Shows(rows[i], conns, known, lobbies))
    && (forall pid: u64 :: pid != 0 && FirstConn(conns, pid).Some? ==> exists i :: 0 <= i < |rows| && rows[i].pid == pid)
  }

  lemma FirstConnSnoc(conns: seq<Conn>, c: Conn, pid: u64)
    ensures FirstConn(conns + [c], pid) == match FirstConn(conns, pid)
                                           case Some(d) => Some(d)
                                           case None => if c.pid == pid then Some(c) else None
  {
    assert (conns + [c])[..|conns|] == conns;
  }

  ghost predicate PidsDiffer(rows: seq<PlayerRow>) {
    forall k, m :: 0 <= k < m < |rows| ==> rows[k].pid != rows[m].pid
  }

  /** A connection of a player listed already, or of nobody, changes nothing. */
  lemma SkipConn(rows: seq<PlayerRow>, conns: seq<Conn>, c: Conn, known: map<u64, Player>, lobbies: seq<Lobby>)
    requires ListsPlayers(rows, conns, known, lobbies)
    requires c.pid == 0 || FirstConn(conns, c.pid).Some?
    ensures ListsPlayers(rows, conns + [c], known, lobbies)
  {
    forall pid: u64
      ensures pid != 0 ==> FirstConn(conns + [c], pid) == FirstConn(conns, pid)
    {
      FirstConnSnoc(conns, c, pid);
    }
  }

  lemma AddConn(rows: seq<PlayerRow>, conns: seq<Conn>, c: Conn, row: PlayerRow, known: map<u64, Player>, lobbies: seq<Lobby>)
    requires ListsPlayers(rows, conns, known, lobbies) && PidsDiffer(rows)
    requires c.pid != 0 && FirstConn(conns, c.pid) == None && ShowsAs(row, c, known, lobbies)
    ensures ListsPlayers(rows + [row], conns + [c], known, lobbies) && PidsDiffer(rows + [row]) && row !in rows
  {
    var all := rows + [row];
    forall pid: u64
      ensures FirstConn(conns + [c], pid) == if pid == c.pid then Some(c) else FirstConn(conns, pid)
    {
      FirstConnSnoc(conns, c, pid);
    }
    forall i | 0 <= i < |all|
      ensures Shows(all[i], conns + [c], known, lobbies)
    {
      assert i < |rows| ==> Shows(rows[i], conns, known, lobbies);
    }
    forall pid: u64 | pid != 0 && FirstConn(conns + [c], pid).Some?
      ensures exists i :: 0 <= i < |all| && all[i].pid == pid
    {
      if pid == c.pid {
        assert all[|rows|].pid == pid;
      } else {
        var i :| 0 <= i < |rows| && rows[i].pid == pid;
        assert all[i].pid == pid;
      }
    }
    forall i | 0 <= i < |rows|
      ensures rows[i].pid != row.pid
    {
      assert Shows(rows[i], conns, known, lobbies);
    }
  }

  method ListPlayers(conns: seq<Conn>, known: map<u64, Player>, t: Seats, ghost lobbies: seq<Lobby>)
    returns (rows: seq<PlayerRow>, inLobby: nat)
    requires Describes(t, lobbies)
    ensures ListsPlayers(rows, conns, known, lobbies)
    ensures forall i, j :: 0 <= i < j < |rows| ==> rows[i].pid < rows[j].pid
    ensures inLobby == |Lobbied(rows)|
  {
    rows, inLobby := [], 0;
    var seen: set<u64> := {};
    for i := 0 to |conns|
      invariant forall pid: u64 :: pid in seen <==> pid != 0 && FirstConn(conns[..i], pid).Some?
      invariant ListsPlayers(rows, conns[..i], known, lobbies) && PidsDiffer(rows)
      invariant inLobby == |Lobbied(rows)|
    {
      var c := conns[i];
      assert conns[..i + 1] == conns[..i] + [c];
      forall pid: u64
        ensures FirstConn(conns[..i + 1], pid).Some? <==> FirstConn(conns[..i], pid).Some? || c.pid == pid
      {
        FirstConnSnoc(conns[..i], c, pid);
      }
      if c.pid == 0 || c.pid in seen {
        SkipConn(rows, conns[..i], c, known, lobbies);
      } else {
        seen := seen + {c.pid};
        var row := MakeRow(c, known, t, lobbies);
        if row.gathering != 0 {
          inLobby := inLobby + 1;
        }
        AddConn(rows, conns[..i], c, row, known, lobbies);
        LobbiedSnoc(rows, row);
        rows := rows + [row];
      }
    }
    assert conns[..|conns|] == conns;
    ghost var unsorted := rows;
    rows := SortBy(rows, (r: PlayerRow) => r.pid);
    SortedPlayers(unsorted, rows, conns, known, lobbies);
  }

  method MakeRow(c: Conn, known: map<u64, Player>, t: Seats, ghost lobbies: seq<Lobby>) returns (row: PlayerRow)
    requires Describes(t, lobbies)
    ensures ShowsAs(row, c, known, lobbies)
  {
    var pid := c.pid;
    var addr := if c.addr != [] then c.addr else if pid in known then known[pid].addr else [];
    row := PlayerRow(pid, addr, if pid in t.gathering then t.gathering[pid] else 0, if pid in known then known[pid].calls else 0,
                     if pid in t.vr then t.vr[pid] else 0, if pid in t.mode then t.mode[pid] else 0, pid in t.isHost);
  }

  lemma LobbiedSnoc(rows: seq<PlayerRow>, row: PlayerRow)
    requires row !in rows
    ensures |Lobbied(rows + [row])| == |Lobbied(rows)| + if row.gathering != 0 then 1 else 0
  {
    assert Lobbied(rows + [row]) == Lobbied(rows) + if row.gathering != 0 then {row} else {};
  }

  lemma SortedPlayers(rows: seq<PlayerRow>, sorted: seq<PlayerRow>, conns: seq<Conn>, known: map<u64, Player>, lobbies: seq<Lobby>)
    requires ListsPlayers(rows, conns, known, lobbies)
    requires PidsDiffer(rows)
    requires multiset(sorted) == multiset(rows) && SortedBy(sorted, (r: PlayerRow) => r.pid)
    ensures ListsPlayers(sorted, conns, known, lobbies) && Lobbied(sorted) == Lobbied(rows)
    ensures forall i, j :: 0 <= i < j < |sorted| ==> sorted[i].pid < sorted[j].pid
  {
    SameElements(rows, sorted);
    forall i, j | 0 <= i < j < |sorted|
      ensures sorted[i].pid < sorted[j].pid
    {
      DistinctStay(rows, sorted, i, j);
    }
    forall pid: u64 | pid != 0 && FirstConn(conns, pid).Some?
      ensures exists i :: 0 <= i < |sorted| && sorted[i].pid == pid
    {
      var k :| 0 <= k < |rows| && rows[k].pid == pid;
      assert rows[k] in sorted;
    }
    forall i | 0 <= i < |sorted|
      ensures Shows(sorted[i], conns, known, lobbies)
    {
      assert sorted[i] in rows;
    }
  }

  lemma DistinctStay(rows: seq<PlayerRow>, sorted: seq<PlayerRow>, i: nat, j: nat)
    requires PidsDiffer(rows)
    requires multiset(sorted) == multiset(rows) && SortedBy(sorted, (r: PlayerRow) => r.pid)
    requires i < j < |sorted|
    ensures sorted[i].pid < sorted[j].pid
  {
    var a, b := sorted[i], sorted[j];
    var key := (r: PlayerRow) => r.pid;
    assert key(a) <= key(b);
    if a.pid == b.pid {
      SameElements(rows, sorted);
      assert a in rows && b in rows;
      assert a == b;
      TwiceCounted(sorted, i, j);
      OnceCounted(rows, a);
      assert false;
    }
  }

  lemma TwiceCounted<T>(xs: seq<T>, i: nat, j: nat)
    requires i < j < |xs| && xs[i] == xs[j]
    ensures multiset(xs)[xs[i]] >= 2
  {
    assert xs == xs[..i] + [xs[i]] + xs[i + 1..j] + [xs[j]] + xs[j + 1..];
  }

  lemma {:induction false} OnceCounted(rows: seq<PlayerRow>, x: PlayerRow)
    requires PidsDiffer(rows)
    ensures multiset(rows)[x] <= 1
  {
    if rows != [] {
      assert rows == [rows[0]] + rows[1..];
      OnceCounted(rows[1..], x);
      if rows[0] == x {
        assert x !in rows[1..];
      }
    }
  }

  // ----- the rest of the page -----

  /** Newest first. */
  method RecentEvents(ring: seq<Event>) returns (shown: seq<Event>)
    ensures |shown| == |ring| && forall i :: 0 <= i < |ring| ==> shown[i] == ring[|ring| - 1 - i]
  {
    shown := [];
    var i := |ring| - 1;
    while i >= 0
      invariant -1 <= i < |ring| && |shown| == |ring| - 1 - i
      invariant forall k :: 0 <= k < |shown| ==> shown[k] == ring[|ring| - 1 - k]
    {
      shown := shown + [ring[i]];
      i := i - 1;
    }
  }

  /** Every method once, with its count. */
  ghost predicate ListsMethods(rows: seq<MethodRow>, counts: map<Blob, nat>) {
    && |rows| == |counts|
    && forall name: Blob, n: nat :: MethodRow(name, n) in rows <==> name in counts && counts[name] == n
  }

  /** Most frequent first, in whatever order the map gave equal ones. */
  method MethodTotals(counts: map<Blob, nat>) returns (rows: seq<MethodRow>)
    ensures ListsMethods(rows, counts)
    ensures forall i, j :: 0 <= i < j < |rows| ==> rows[i].count >= rows[j].count
  {
    rows := [];
    var left := counts.Keys;
    while left != {}
      invariant left <= counts.Keys && |rows| + |left| == |counts|
      invariant forall name: Blob, n: nat :: MethodRow(name, n) in rows <==> name in counts && name !in left && counts[name] == n
      decreases |left|
    {
      var name :| name in left;
      rows, left := rows + [MethodRow(name, counts[name])], left - {name};
    }
    var sorted := SortBy(rows, (r: MethodRow) => -(r.count as int));
    SameElements(rows, sorted);
    var key := (r: MethodRow) => -(r.count as int);
    assert SortedBy(sorted, key);
    assert forall i, j :: 0 <= i < j < |sorted| ==> key(sorted[i]) <= key(sorted[j]);
    rows := sorted;
  }

  /** The page when nothing runs beside it: shows everyone once and raises the peak to the players shown. */
  method BuildStats(board: Board, conns: seq<Conn>, lobbies: seq<Lobby>)
    returns (players: seq<PlayerRow>, inLobby: nat, lobbyRows: seq<LobbyRow>, shown: seq<Event>, methods: seq<MethodRow>)
    modifies board`peakConnected
    ensures ListsPlayers(players, conns, board.playerMeta, lobbies)
    ensures forall i, j :: 0 <= i < j < |players| ==> players[i].pid < players[j].pid
    ensures inLobby == |Lobbied(players)|
    ensures multiset(lobbyRows) == multiset(RowsOf(lobbies)) && SortedBy(lobbyRows, (r: LobbyRow) => r.id)
    ensures board.peakConnected == if |players| > old(board.peakConnected) then |players| else old(board.peakConnected)
    ensures |shown| == |board.events| && forall i :: 0 <= i < |shown| ==> shown[i] == board.events[|shown| - 1 - i]
    ensures ListsMethods(methods, board.methodCount)
    ensures forall i, j :: 0 <= i < j < |methods| ==> methods[i].count >= methods[j].count
  {
    var t: Seats;
    lobbyRows, t := SeatPlayers(lobbies);
    players, inLobby := ListPlayers(conns, board.playerMeta, t, lobbies);
    if |players| > board.peakConnected {
      board.peakConnected := |players|;
    }
    shown := RecentEvents(board.events);
    methods := MethodTotals(board.methodCount);
  }
}
