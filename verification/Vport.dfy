/** Ports and the two indexes built over them (crates/up4-config/src/vport.rs). */
module Vport {
  import opened Bits
  import opened Buckets
  import opened Sequence

  /** Any id but the reserved one. */
  type VportId = id: int | 0 <= id < 65535

  type Peer = nat

  datatype Port = Port(id: VportId, peer: Peer)

  datatype ConfigError = DuplicateVportId(value: VportId) | DuplicatePeer(peer: Peer, first: VportId, second: VportId)

  datatype Table = Table(entries: seq<Port>, byId: seq<Option<u16>>, byPeer: map<Peer, u16>)

  function IdxOfId(t: Table, id: u16): Option<u16>
  {
    if id < |t.byId| then t.byId[id] else None
  }

  function IdxOfPeer(t: Table, peer: Peer): Option<u16>
  {
    if peer in t.byPeer then Some(t.byPeer[peer]) else None
  }

  ghost predicate Distinct(xs: seq<nat>)
  {
    forall i, j :: 0 <= i < j < |xs| ==> xs[i] != xs[j]
  }

  function Ids(entries: seq<Port>): (xs: seq<nat>)
    ensures |xs| == |entries|
  {
    seq(|entries|, i requires 0 <= i < |entries| => entries[i].id)
  }

  function Peers(entries: seq<Port>): (xs: seq<nat>)
    ensures |xs| == |entries|
  {
    seq(|entries|, i requires 0 <= i < |entries| => entries[i].peer)
  }

  /** No id and no peer appears twice. */
  ghost predicate NoRepeats(entries: seq<Port>)
  {
    Distinct(Ids(entries)) && Distinct(Peers(entries))
  }

  /** Both lookups are exact inverses of the entry list. */
  ghost predicate Indexed(t: Table)
  {
    && t.entries != [] && |t.entries| <= 65535
    && (forall id: u16, i: u16 :: IdxOfId(t, id) == Some(i) <==> i < |t.entries| && t.entries[i].id == id)
    && (forall p: Peer, i: u16 :: IdxOfPeer(t, p) == Some(i) <==> i < |t.entries| && t.entries[i].peer == p)
  }

  // ---- pigeonhole ----

  lemma DistinctAppend(xs: seq<nat>, x: nat)
    ensures Distinct(xs + [x]) <==> Distinct(xs) && x !in xs
  {
    var more := xs + [x];
    assert forall i :: 0 <= i < |xs| ==> more[i] == xs[i];
    assert more[|xs|] == x;
  }

  ghost function Elements(xs: seq<nat>): set<int> { set x | x in xs }

  lemma {:induction false} DistinctSize(xs: seq<nat>)
    requires Distinct(xs)
    ensures |Elements(xs)| == |xs|
  {
    if xs != [] {
      var front, last := xs[..|xs| - 1], xs[|xs| - 1];
      assert xs == front + [last];
      DistinctAppend(front, last);
      DistinctSize(front);
      assert Elements(xs) == Elements(front) + {last};
    }
  }

  lemma {:induction false} SubsetSize<T>(a: set<T>, b: set<T>)
    requires a <= b
    ensures |a| <= |b|
  {
    if a != {} {
      var x :| x in a;
      SubsetSize(a - {x}, b - {x});
    }
  }

  /** Distinct numbers below `m` are at most `m` many. */
  lemma Pigeonhole(xs: seq<nat>, m: nat)
    requires Distinct(xs) && forall i :: 0 <= i < |xs| ==> xs[i] < m
    ensures |xs| <= m
  {
    DistinctSize(xs);
    SubsetSize(Elements(xs), Span(0, m));
  }

  // ---- building ----

  /** An index over the first `n` of `xs`: it knows them all, and points only at what it says. */
  ghost predicate Covers(xs: seq<nat>, n: nat, index: map<nat, u16>)
    requires n <= |xs|
  {
    && (forall i :: 0 <= i < n ==> xs[i] in index)
    && (forall x :: x in index ==> index[x] < n && xs[index[x]] == x)
  }

  lemma CoversGrows(xs: seq<nat>, n: nat, index: map<nat, u16>)
    requires n < |xs| && n < 65536 && Covers(xs, n, index)
    ensures Covers(xs, n + 1, index[xs[n] := n])
    ensures Distinct(xs[..n + 1]) <==> Distinct(xs[..n]) && xs[n] !in index
  {
    assert xs[..n + 1] == xs[..n] + [xs[n]];
    DistinctAppend(xs[..n], xs[n]);
    if xs[n] in index {
      assert xs[..n][index[xs[n]]] == xs[n];
    }
  }

  /** An index over distinct numbers inverts them. */
  lemma CoversInverts(xs: seq<nat>, index: map<nat, u16>, x: nat, i: u16)
    requires Distinct(xs) && Covers(xs, |xs|, index)
    ensures x in index && index[x] == i <==> i < |xs| && xs[i] == x
  {
    if i < |xs| && xs[i] == x {
      assert !(index[x] < i) && !(i < index[x]);
    }
  }

  function MaxId(entries: seq<Port>): (m: VportId)
    requires entries != []
    ensures forall i :: 0 <= i < |entries| ==> entries[i].id <= m
    ensures exists i :: 0 <= i < |entries| && entries[i].id == m
  {
    if |entries| == 1 then entries[0].id
    else
      var m := MaxId(entries[1..]);
      if entries[0].id >= m then entries[0].id else m
  }

  /** What is wrong with a port, given the ports entered before it. */
  function Complaints(entries: seq<Port>, vp: Port, seenId: map<nat, u16>, byPeer: map<Peer, u16>)
    : (r: seq<ConfigError>)
    requires forall p :: p in byPeer ==> byPeer[p] < |entries|
    ensures r == [] <==> vp.id !in seenId && vp.peer !in byPeer
  {
    (if vp.id in seenId then [DuplicateVportId(vp.id)] else []) +
    (if vp.peer in byPeer then [DuplicatePeer(vp.peer, entries[byPeer[vp.peer]].id, vp.id)] else [])
  }

  /** What a recorded error says is so of the list. */
  ghost predicate TrueOf(entries: seq<Port>, e: ConfigError)
  {
    match e
    case DuplicateVportId(id) => exists i, j :: 0 <= i < j < |entries| && ShareId(entries, i, j, id)
    case DuplicatePeer(peer, first, second) =>
      exists i, j ::
        0 <= i < j < |entries| && SharePeer(entries, i, j, peer) && entries[i].id == first && entries[j].id == second
  }

  predicate ShareId(entries: seq<Port>, i: nat, j: nat, id: VportId)
    requires i < |entries| && j < |entries|
  {
    entries[i].id == id == entries[j].id
  }

  predicate SharePeer(entries: seq<Port>, i: nat, j: nat, peer: Peer)
    requires i < |entries| && j < |entries|
  {
    entries[i].peer == peer == entries[j].peer
  }

  /** Of the first `n` ports, every one that repeats an id or a peer has its error. */
  ghost predicate AllNamed(entries: seq<Port>, n: nat, errs: seq<ConfigError>)
    requires n <= |entries|
  {
    && (forall i, j {:trigger ShareId(entries, i, j, entries[j].id)} ::
          0 <= i < j < n && ShareId(entries, i, j, entries[j].id) ==> DuplicateVportId(entries[j].id) in errs)
    && (forall i, j {:trigger SharePeer(entries, i, j, entries[j].peer)} ::
          0 <= i < j < n && SharePeer(entries, i, j, entries[j].peer) ==> NamesPeer(errs, entries[j]))
  }

  ghost predicate NamesPeer(errs: seq<ConfigError>, vp: Port)
  {
    exists first :: DuplicatePeer(vp.peer, first, vp.id) in errs
  }

  /** The errors of one more port: true, and all that it deserves. */
  lemma ComplaintsOk(entries: seq<Port>, n: nat, seenId: map<nat, u16>, byPeer: map<Peer, u16>, errs: seq<ConfigError>)
    requires n < |entries| && Covers(Ids(entries), n, seenId) && Covers(Peers(entries), n, byPeer)
    requires AllNamed(entries, n, errs)
    ensures var more := Complaints(entries, entries[n], seenId, byPeer);
            (forall e :: e in more ==> TrueOf(entries, e)) && AllNamed(entries, n + 1, errs + more)
  {
    var vp, more := entries[n], Complaints(entries, entries[n], seenId, byPeer);
    if vp.id in seenId {
      assert Ids(entries)[seenId[vp.id]] == vp.id;
      assert ShareId(entries, seenId[vp.id], n, vp.id) && more[0] == DuplicateVportId(vp.id);
    }
    if vp.peer in byPeer {
      assert Peers(entries)[byPeer[vp.peer]] == vp.peer;
      assert SharePeer(entries, byPeer[vp.peer], n, vp.peer);
      assert more[|more| - 1] == DuplicatePeer(vp.peer, entries[byPeer[vp.peer]].id, vp.id);
    }
    forall i, j | 0 <= i < j < n + 1 && ShareId(entries, i, j, entries[j].id)
      ensures DuplicateVportId(entries[j].id) in errs + more
    {
      if j == n { assert Ids(entries)[i] == entries[i].id; }
    }
    forall i, j | 0 <= i < j < n + 1 && SharePeer(entries, i, j, entries[j].peer)
      ensures NamesPeer(errs + more, entries[j])
    {
      if j == n {
        assert Peers(entries)[i] == entries[i].peer;
        assert DuplicatePeer(vp.peer, entries[byPeer[vp.peer]].id, vp.id) in errs + more;
      } else {
        var first :| DuplicatePeer(entries[j].peer, first, entries[j].id) in errs;
        assert DuplicatePeer(entries[j].peer, first, entries[j].id) in errs + more;
      }
    }
  }

  /** What entering the first `n` ports has recorded: something exactly if one repeats, all of it true, and nothing
      left out. */
  ghost predicate Told(entries: seq<Port>, n: nat, errs0: seq<ConfigError>, errs: seq<ConfigError>)
    requires n <= |entries|
  {
    && errs0 <= errs && AllNamed(entries, n, errs)
    && (|errs| == |errs0| <==> Distinct(Ids(entries)[..n]) && Distinct(Peers(entries)[..n]))
    && forall i {:trigger TrueOf(entries, errs[i])} :: |errs0| <= i < |errs| ==> TrueOf(entries, errs[i])
  }

  lemma ToldGrows(entries: seq<Port>, n: nat, seenId: map<nat, u16>, byPeer: map<Peer, u16>,
                  errs0: seq<ConfigError>, errs: seq<ConfigError>)
    requires n < |entries| && n < 65536 && Covers(Ids(entries), n, seenId) && Covers(Peers(entries), n, byPeer)
    requires Told(entries, n, errs0, errs)
    ensures Told(entries, n + 1, errs0, errs + Complaints(entries, entries[n], seenId, byPeer))
  {
    CoversGrows(Ids(entries), n, seenId);
    CoversGrows(Peers(entries), n, byPeer);
    ComplaintsOk(entries, n, seenId, byPeer, errs);
    var all := errs + Complaints(entries, entries[n], seenId, byPeer);
    forall i | |errs0| <= i < |all|
      ensures TrueOf(entries, all[i])
    {
      if i >= |errs| { assert all[i] in Complaints(entries, entries[n], seenId, byPeer); }
    }
  }

  /** The first `n` ports are entered in both maps, and their repeats recorded. */
  ghost predicate Entered(entries: seq<Port>, n: nat, seenId: map<nat, u16>, byPeer: map<Peer, u16>,
                          errs0: seq<ConfigError>, errs: seq<ConfigError>)
    requires n <= |entries|
  {
    Covers(Ids(entries), n, seenId) && Covers(Peers(entries), n, byPeer) && Told(entries, n, errs0, errs)
  }

  lemma NothingEntered(entries: seq<Port>, errs0: seq<ConfigError>)
    ensures Entered(entries, 0, map[], map[], errs0, errs0)
  {
    assert Ids(entries)[..0] == [] && Peers(entries)[..0] == [];
  }

  /** Enter one more port. */
  method EnterPort(entries: seq<Port>, n: u16, seenId: map<nat, u16>, byPeer: map<Peer, u16>,
                   errs: seq<ConfigError>, ghost errs0: seq<ConfigError>)
    returns (seenId': map<nat, u16>, byPeer': map<Peer, u16>, errs': seq<ConfigError>)
    requires n < |entries| && Entered(entries, n, seenId, byPeer, errs0, errs)
    ensures Entered(entries, n + 1, seenId', byPeer', errs0, errs')
  {
    CoversGrows(Ids(entries), n, seenId);
    CoversGrows(Peers(entries), n, byPeer);
    ToldGrows(entries, n, seenId, byPeer, errs0, errs);
    var vp := entries[n];
    errs' := errs + Complaints(entries, vp, seenId, byPeer);
    seenId', byPeer' := seenId[vp.id := n], byPeer[vp.peer := n];
  }

  /** Enter the ports one by one, up to the last slot a 16-bit index can name, recording repeats. */
  method Enter(entries: seq<Port>, errs0: seq<ConfigError>)
    returns (n: nat, seenId: map<nat, u16>, byPeer: map<Peer, u16>, errs: seq<ConfigError>)
    ensures n <= |entries| && n <= 65536 && (n < |entries| ==> n == 65536)
    ensures Entered(entries, n, seenId, byPeer, errs0, errs)
  {
    n, seenId, byPeer, errs := 0, map[], map[], errs0;
    NothingEntered(entries, errs0);
    while n < |entries|
      invariant n <= |entries| && n <= 65536
      invariant Entered(entries, n, seenId, byPeer, errs0, errs)
    {
      if n > 65535 {
        break;
      }
      seenId, byPeer, errs := EnterPort(entries, n, seenId, byPeer, errs, errs0);
      n := n + 1;
    }
  }

  /** Build the table, recording every repeated id and peer. It succeeds exactly on a nonempty list without
      repeats, and then both lookups invert the list. A list too long for 16-bit indexes is cut short by the
      loop, but never accepted: it must repeat an id. */
  method Build(entries: seq<Port>, errs0: seq<ConfigError>) returns (t: Option<Table>, errs: seq<ConfigError>)
    ensures errs0 <= errs
    ensures t.Some? <==> entries != [] && NoRepeats(entries)
    ensures t.Some? ==> t.value.entries == entries && Indexed(t.value)
    ensures (t.None? <==> errs != errs0) <==> entries != []
    ensures |entries| <= 65536 ==> AllNamed(entries, |entries|, errs)
    ensures forall i {:trigger TrueOf(entries, errs[i])} :: |errs0| <= i < |errs| ==> TrueOf(entries, errs[i])
  {
    var n, seenId, byPeer;
    n, seenId, byPeer, errs := Enter(entries, errs0);
    ghost var ids, peers := Ids(entries), Peers(entries);
    if |errs| != |errs0| {
      RepeatsRemain(ids, n);
      RepeatsRemain(peers, n);
      return None, errs;
    }
    Pigeonhole(ids[..n], 65535);
    assert ids[..n] == ids && peers[..n] == peers;
    if entries == [] {
      return None, errs;
    }
    var maxId := MaxId(entries);
    var byId := seq(maxId + 1, id requires 0 <= id <= maxId => if id in seenId then Some(seenId[id]) else None);
    var table := Table(entries, byId, byPeer);
    TableIndexed(table, seenId);
    return Some(table), errs;
  }

  lemma RepeatsRemain(xs: seq<nat>, n: nat)
    requires n <= |xs|
    ensures Distinct(xs) ==> Distinct(xs[..n])
  {
    assert forall i :: 0 <= i < n ==> xs[..n][i] == xs[i];
  }

  lemma TableIndexed(t: Table, seenId: map<nat, u16>)
    requires t.entries != [] && |t.entries| <= 65535 && NoRepeats(t.entries)
    requires Covers(Ids(t.entries), |t.entries|, seenId) && Covers(Peers(t.entries), |t.entries|, t.byPeer)
    requires |t.byId| == MaxId(t.entries) + 1
    requires forall id :: 0 <= id < |t.byId| ==> t.byId[id] == if id in seenId then Some(seenId[id]) else None
    ensures Indexed(t)
  {
    forall id: u16, i: u16
      ensures IdxOfId(t, id) == Some(i) <==> i < |t.entries| && t.entries[i].id == id
    {
      CoversInverts(Ids(t.entries), seenId, id, i);
    }
    forall p: Peer, i: u16
      ensures IdxOfPeer(t, p) == Some(i) <==> i < |t.entries| && t.entries[i].peer == p
    {
      CoversInverts(Peers(t.entries), t.byPeer, p, i);
    }
  }
}
