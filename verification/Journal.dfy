/** The x4c backend's shared journal and its replay into private pipelines (crates/up4-x4c/src/pipeline.rs). */
module Journal {
  import Pub = Publication

  /** A key as the control plane states it. Its display form and its byte encoding both identify it. */
  datatype TypedKey = TypedKey(value: nat, prefixLen: nat)

  datatype Id = Id(table: string, key: TypedKey)

  datatype Act = Act(name: string, params: seq<nat>)

  datatype Op = Add(id: Id, act: Act) | Remove(id: Id)

  datatype Live = Live(id: Id, act: Act)

  /** What is published: the operations to replay, and the entries that replaying them leaves. */
  datatype Log = Log(generation: nat, ops: seq<Op>, live: seq<Live>)

  const EMPTY := Log(0, [], [])

  // ---- control-plane writes ----

  datatype Write = TableAdd(id: Id, act: Act) | TableRemove(id: Id) | TableClear(table: string)

  /** Position of the first live entry for `id`, or the length if there is none. */
  function Find(live: seq<Live>, id: Id): (i: nat)
    ensures i <= |live|
    ensures i < |live| ==> live[i].id == id
    ensures forall j :: 0 <= j < i ==> live[j].id != id
  {
    if live == [] || live[0].id == id then 0 else 1 + Find(live[1..], id)
  }

  function Upserted(live: seq<Live>, id: Id, act: Act): seq<Live>
  {
    var i := Find(live, id);
    if i < |live| then live[i := Live(id, act)] else live + [Live(id, act)]
  }

  function Dropped(live: seq<Live>, id: Id): seq<Live>
  {
    var i := Find(live, id);
    if i < |live| then live[..i] + live[i + 1..] else live
  }

  function Victims(live: seq<Live>, table: string): (v: seq<Live>)
    ensures forall e :: e in v <==> e in live && e.id.table == table
  {
    if live == [] then []
    else if live[0].id.table == table then [live[0]] + Victims(live[1..], table)
    else Victims(live[1..], table)
  }

  function Retained(live: seq<Live>, table: string): (r: seq<Live>)
    ensures forall e :: e in r <==> e in live && e.id.table != table
    ensures |r| + |Victims(live, table)| == |live|
  {
    if live == [] then []
    else if live[0].id.table != table then [live[0]] + Retained(live[1..], table)
    else Retained(live[1..], table)
  }

  function Adds(live: seq<Live>): (ops: seq<Op>)
    ensures |ops| == |live|
  {
    seq(|live|, i requires 0 <= i < |live| => Add(live[i].id, live[i].act))
  }

  function Removes(live: seq<Live>): (ops: seq<Op>)
    ensures |ops| == |live|
  {
    seq(|live|, i requires 0 <= i < |live| => Remove(live[i].id))
  }

  /** The operations a write appends to the log. */
  function Appends(j: Log, w: Write): seq<Op>
  {
    match w
    case TableAdd(id, act) => [Add(id, act)]
    case TableRemove(id) => [Remove(id)]
    case TableClear(table) => Removes(Victims(j.live, table))
  }

  function LiveAfter(live: seq<Live>, w: Write): seq<Live>
  {
    match w
    case TableAdd(id, act) => Upserted(live, id, act)
    case TableRemove(id) => Dropped(live, id)
    case TableClear(table) => Retained(live, table)
  }

  predicate Overgrown(ops: seq<Op>, live: seq<Live>) { |ops| > 2 * |live| + 16 }

  /** The successor a write publishes: append, then compact if the log has outgrown the live set. */
  function Published(j: Log, w: Write): Log
  {
    var ops, live := j.ops + Appends(j, w), LiveAfter(j.live, w);
    if Overgrown(ops, live) then Log(j.generation + 1, Adds(live), live) else Log(j.generation, ops, live)
  }

  // ---- private pipelines ----

  /** What a private pipeline has installed. The compiled table does not replace on add, so a key may hold
      several actions, and which of them answers is not up to this adapter. */
  type Installed = map<Id, set<Act>>

  /** `add_table_entry`; `collide` says what becomes of a key that is already taken. */
  function AddEntry(collide: (set<Act>, Act) -> set<Act>, pipe: Installed, id: Id, act: Act): Installed
  {
    if id in pipe then pipe[id := collide(pipe[id], act)] else pipe[id := {act}]
  }

  /** Replay of one operation: remove first, then add. */
  function Applied(collide: (set<Act>, Act) -> set<Act>, pipe: Installed, op: Op): Installed
  {
    match op
    case Add(id, act) => AddEntry(collide, pipe - {id}, id, act)
    case Remove(id) => pipe - {id}
  }

  /** What replaying an operation comes to: install-or-replace, or delete. */
  function Effect(pipe: Installed, op: Op): Installed
  {
    match op
    case Add(id, act) => pipe[id := {act}]
    case Remove(id) => pipe - {id}
  }

  /** An add that leaves a taken key alone is why a removal comes first. */
  lemma AddAloneMayNotReplace(id: Id, a: Act, b: Act)
    ensures AddEntry((taken: set<Act>, _: Act) => taken, map[id := {a}], id, b) == map[id := {a}]
    ensures Applied((taken: set<Act>, _: Act) => taken, map[id := {a}], Add(id, b)) == map[id := {b}]
  {
    var none: Installed := map[];
    assert map[id := {a}] - {id} == none;
    assert none[id := {b}] == map[id := {b}];
  }

  /** Removing first makes replay last-writer-wins whatever an add does to a taken key. */
  lemma AppliedIsEffect(collide: (set<Act>, Act) -> set<Act>, pipe: Installed, op: Op)
    ensures Applied(collide, pipe, op) == Effect(pipe, op)
  {
    if op.Add? {
      assert (pipe - {op.id})[op.id := {op.act}] == pipe[op.id := {op.act}];
    }
  }

  function Fold(pipe: Installed, ops: seq<Op>): Installed
  {
    if ops == [] then pipe else Effect(Fold(pipe, ops[..|ops| - 1]), ops[|ops| - 1])
  }

  lemma {:induction false} FoldAppend(pipe: Installed, a: seq<Op>, b: seq<Op>)
    ensures Fold(pipe, a + b) == Fold(Fold(pipe, a), b)
  {
    if b == [] {
      assert a + b == a;
    } else {
      FoldAppend(pipe, a, b[..|b| - 1]);
      assert (a + b)[..|a + b| - 1] == a + b[..|b| - 1];
    }
  }

  // ---- log and live set agree ----

  ghost predicate Unique(live: seq<Live>)
  {
    forall i, j :: 0 <= i < j < |live| ==> live[i].id != live[j].id
  }

  ghost function Ids(live: seq<Live>): set<Id>
  {
    set e | e in live :: e.id
  }

  /** The pipeline holds one action per live entry, that entry's, and nothing else. */
  ghost predicate Shows(pipe: Installed, live: seq<Live>)
  {
    pipe.Keys == Ids(live) && forall e :: e in live ==> pipe[e.id] == {e.act}
  }

  ghost predicate LogOk(j: Log)
  {
    && Unique(j.live) && Shows(Fold(map[], j.ops), j.live)
    && |j.live| <= |j.ops| <= 2 * |j.live| + 16
  }

  lemma UniqueShows(a: Installed, b: Installed, live: seq<Live>)
    requires Shows(a, live) && Shows(b, live)
    ensures a == b
  {
    forall id | id in a
      ensures a[id] == b[id]
    {
      var e :| e in live && e.id == id;
    }
  }

  lemma UpsertedHas(live: seq<Live>, id: Id, act: Act, e: Live)
    requires Unique(live)
    ensures e in Upserted(live, id, act) <==> e == Live(id, act) || (e in live && e.id != id)
  {
    var r, i := Upserted(live, id, act), Find(live, id);
    if e in live && e.id != id {
      var k :| 0 <= k < |live| && live[k] == e;
      assert r[k] == e;
    }
    if e == Live(id, act) { assert r[i] == e; }
  }

  lemma ShowsUpserted(pipe: Installed, live: seq<Live>, id: Id, act: Act)
    requires Unique(live) && Shows(pipe, live)
    ensures Unique(Upserted(live, id, act)) && Shows(pipe[id := {act}], Upserted(live, id, act))
  {
    forall e
      ensures e in Upserted(live, id, act) <==> e == Live(id, act) || (e in live && e.id != id)
    {
      UpsertedHas(live, id, act, e);
    }
  }

  lemma ShowsDropped(pipe: Installed, live: seq<Live>, id: Id)
    requires Unique(live) && Shows(pipe, live)
    ensures Unique(Dropped(live, id)) && Shows(pipe - {id}, Dropped(live, id))
  {
    forall e
      ensures e in Dropped(live, id) <==> e in live && e.id != id
    {
      DroppedHas(live, id, e);
    }
    assert Ids(Dropped(live, id)) == Ids(live) - {id};
  }

  lemma DroppedHas(live: seq<Live>, id: Id, e: Live)
    requires Unique(live)
    ensures Unique(Dropped(live, id)) && (e in Dropped(live, id) <==> e in live && e.id != id)
  {
    var r, i := Dropped(live, id), Find(live, id);
    if e in live && e.id != id {
      var k :| 0 <= k < |live| && live[k] == e;
      assert r[if k < i then k else k - 1] == e;
    }
  }

  lemma {:induction false} UniqueRetained(live: seq<Live>, table: string)
    requires Unique(live)
    ensures Unique(Retained(live, table))
  {
    if live != [] {
      UniqueRetained(live[1..], table);
      forall e | e in live[1..]
        ensures e.id != live[0].id
      {
      }
    }
  }

  lemma {:induction false} FoldRemoves(pipe: Installed, v: seq<Live>)
    ensures Fold(pipe, Removes(v)) == pipe - Ids(v)
  {
    if v != [] {
      var front := v[..|v| - 1];
      FoldRemoves(pipe, front);
      assert Removes(v)[..|v| - 1] == Removes(front);
      assert v == front + [v[|v| - 1]];
      assert Ids(v) == Ids(front) + {v[|v| - 1].id};
    }
  }

  lemma {:induction false} FoldAdds(live: seq<Live>)
    requires Unique(live)
    ensures Shows(Fold(map[], Adds(live)), live)
  {
    if live != [] {
      var front, last := live[..|live| - 1], live[|live| - 1];
      FoldAdds(front);
      assert Adds(live)[..|live| - 1] == Adds(front);
      assert live == front + [last];
      forall e | e in front
        ensures e.id != last.id
      {
      }
      assert Ids(live) == Ids(front) + {last.id};
    }
  }

  /** Every write publishes a log whose replay is exactly its live set, bounded by it in length. */
  lemma WriteKeepsLogOk(j: Log, w: Write)
    requires LogOk(j)
    ensures LogOk(Published(j, w))
  {
    var pipe, ops, live := Fold(map[], j.ops), j.ops + Appends(j, w), LiveAfter(j.live, w);
    FoldAppend(map[], j.ops, Appends(j, w));
    LiveFollows(pipe, j, w);
    FoldAdds(live);
  }

  /** Appending a write's operations and changing the live set keep log and live set in agreement. */
  lemma LiveFollows(pipe: Installed, j: Log, w: Write)
    requires Unique(j.live) && Shows(pipe, j.live)
    ensures Unique(LiveAfter(j.live, w)) && Shows(Fold(pipe, Appends(j, w)), LiveAfter(j.live, w))
    ensures |LiveAfter(j.live, w)| <= |j.live| + |Appends(j, w)|
    ensures |LiveAfter(j.live, w)| >= |j.live| - |Appends(j, w)|
  {
    match w
    case TableAdd(id, act) =>
      ShowsUpserted(pipe, j.live, id, act);
      assert Appends(j, w)[..0] == [];
      assert Fold(pipe, Appends(j, w)) == pipe[id := {act}];
    case TableRemove(id) =>
      ShowsDropped(pipe, j.live, id);
      assert Appends(j, w)[..0] == [];
      assert Fold(pipe, Appends(j, w)) == pipe - {id};
    case TableClear(table) =>
      UniqueRetained(j.live, table);
      FoldRemoves(pipe, Victims(j.live, table));
      ShowsRetained(pipe, j.live, table);
  }

  lemma ShowsRetained(pipe: Installed, live: seq<Live>, table: string)
    requires Unique(live) && Shows(pipe, live)
    ensures Shows(pipe - Ids(Victims(live, table)), Retained(live, table))
  {
    var gone := Ids(Victims(live, table));
    forall e | e in Retained(live, table)
      ensures e.id !in gone
    {
    }
    assert Ids(live) - gone == Ids(Retained(live, table));
  }

  // ---- what a history of writes leaves ----

  /** The write decides about this entry, whatever was installed before. */
  predicate Settles(w: Write, id: Id)
  {
    match w
    case TableAdd(i, _) => i == id
    case TableRemove(i) => i == id
    case TableClear(table) => id.table == table
  }

  /** The last write that settles an entry added it with this action. */
  ghost predicate LastAdded(ws: seq<Write>, id: Id, act: Act)
  {
    exists i :: 0 <= i < |ws| && ws[i] == TableAdd(id, act) && forall j :: i < j < |ws| ==> !Settles(ws[j], id)
  }

  lemma LastAddedSnoc(front: seq<Write>, w: Write, id: Id, act: Act)
    ensures LastAdded(front + [w], id, act) <==>
              w == TableAdd(id, act) || (!Settles(w, id) && LastAdded(front, id, act))
  {
    var ws := front + [w];
    if w == TableAdd(id, act) {
      assert ws[|front|] == TableAdd(id, act);
    }
    if !Settles(w, id) && LastAdded(front, id, act) {
      var i :| 0 <= i < |front| && front[i] == TableAdd(id, act)
        && forall j :: i < j < |front| ==> !Settles(front[j], id);
      assert ws[i] == TableAdd(id, act);
    }
    if w != TableAdd(id, act) && LastAdded(ws, id, act) {
      var i :| 0 <= i < |ws| && ws[i] == TableAdd(id, act) && forall j :: i < j < |ws| ==> !Settles(ws[j], id);
      assert !Settles(ws[|front|], id);
      assert front[i] == ws[i] && forall j :: i < j < |front| ==> front[j] == ws[j];
    }
  }

  lemma LiveAfterHas(live: seq<Live>, w: Write, e: Live)
    requires Unique(live)
    ensures e in LiveAfter(live, w) <==> w == TableAdd(e.id, e.act) || (!Settles(w, e.id) && e in live)
  {
    match w
    case TableAdd(id, act) => UpsertedHas(live, id, act, e);
    case TableRemove(id) => DroppedHas(live, id, e);
    case TableClear(table) =>
  }

  lemma OneMoreWrite(j: Log, w: Write, e: Live)
    requires LogOk(j)
    ensures e in Published(j, w).live <==> w == TableAdd(e.id, e.act) || (!Settles(w, e.id) && e in j.live)
  {
    LiveAfterHas(j.live, w, e);
  }

  /** An entry is live after a list of writes if and only if the last write that settles it added it. */
  lemma {:induction false} LiveIsLastAdded(ws: seq<Write>, id: Id, act: Act)
    ensures Live(id, act) in After(ws).live <==> LastAdded(ws, id, act)
  {
    if ws != [] {
      var front, w := ws[..|ws| - 1], ws[|ws| - 1];
      assert ws == front + [w];
      LiveIsLastAdded(front, id, act);
      AfterOk(front);
      OneMoreWrite(After(front), w, Live(id, act));
      LastAddedSnoc(front, w, id, act);
    }
  }

  // ---- compaction is paid for ----

  /** The log after a list of writes. */
  function After(ws: seq<Write>): Log
  {
    if ws == [] then EMPTY else Published(After(ws[..|ws| - 1]), ws[|ws| - 1])
  }

  function TotalAppended(ws: seq<Write>): nat
  {
    if ws == [] then 0
    else
      var front := ws[..|ws| - 1];
      TotalAppended(front) + |Appends(After(front), ws[|ws| - 1])|
  }

  /** Entries rewritten by every compaction a list of writes triggers. */
  function TotalRewritten(ws: seq<Write>): nat
  {
    if ws == [] then 0
    else
      var front := ws[..|ws| - 1];
      TotalRewritten(front) + if After(ws).generation == After(front).generation then 0 else |After(ws).ops|
  }

  /** What one more write costs: the operations it appends, and the live set it leaves if the log outgrew it. */
  lemma WriteCosts(ws: seq<Write>, w: Write)
    ensures TotalAppended([]) == TotalRewritten([]) == 0
    ensures var j, live := After(ws), After(ws + [w]).live;
            var appended := |Appends(j, w)|;
            && TotalAppended(ws + [w]) == TotalAppended(ws) + appended
            && TotalRewritten(ws + [w]) ==
               TotalRewritten(ws) + if |j.ops| + appended > 2 * |live| + 16 then |live| else 0
  {
    assert (ws + [w])[..|ws|] == ws;
  }

  lemma {:induction false} AfterOk(ws: seq<Write>)
    ensures LogOk(After(ws))
  {
    if ws == [] {
      assert Ids([]) == {};
    } else {
      AfterOk(ws[..|ws| - 1]);
      WriteKeepsLogOk(After(ws[..|ws| - 1]), ws[|ws| - 1]);
    }
  }

  /** Compaction is amortized: all the rewriting ever done, plus the slack now in the log, costs at most two
      entries per operation appended. */
  lemma {:induction false} CompactionIsAmortized(ws: seq<Write>)
    ensures var j := After(ws);
            TotalRewritten(ws) + (|j.ops| - |j.live|) <= 2 * TotalAppended(ws)
  {
    if ws != [] {
      var front, w := ws[..|ws| - 1], ws[|ws| - 1];
      CompactionIsAmortized(front);
      AfterOk(front);
      LiveFollows(Fold(map[], After(front).ops), After(front), w);
    }
  }

  // ---- shards ----

  /** A shard's private pipeline and its position in the journal. */
  datatype Shard = Shard(pipe: Installed, generation: nat, applied: nat)

  const FRESH := Shard(map[], 0, 0)

  /** The tail slice `ops[applied..]` the replay takes is within the log. */
  predicate InRange(s: Shard, j: Log)
  {
    s.generation == j.generation ==> s.applied <= |j.ops|
  }

  function Synced(s: Shard, j: Log): Shard
  {
    var from := if j.generation != s.generation then Shard(map[], j.generation, 0) else s;
    var tail := if from.applied <= |j.ops| then j.ops[from.applied..] else [];
    Shard(Fold(from.pipe, tail), j.generation, |j.ops|)
  }

  /** A shard that has folded in all of `j`. */
  function Caught(j: Log): Shard { Shard(Fold(map[], j.ops), j.generation, |j.ops|) }

  /** `later` extends `j`: same generation and a longer log, or a later generation. */
  predicate Extends(j: Log, later: Log)
  {
    j.generation < later.generation || (j.generation == later.generation && j.ops <= later.ops)
  }

  lemma WriteExtends(j: Log, w: Write)
    ensures Extends(j, Published(j, w))
  {
  }

  /** Replaying the tail, or rebuilding, brings a shard from any log to any log that extends it. */
  lemma SyncCatchesUp(j: Log, later: Log)
    requires Extends(j, later)
    ensures InRange(Caught(j), later) && Synced(Caught(j), later) == Caught(later)
  {
    if j.generation == later.generation {
      FoldAppend(map[], j.ops, later.ops[|j.ops|..]);
      assert later.ops == j.ops + later.ops[|j.ops|..];
    } else {
      assert later.ops[0..] == later.ops;
    }
  }

  // ---- every interleaving ----

  ghost predicate IsWrite(j: Log, later: Log)
  {
    exists w :: later == Published(j, w)
  }

  /** The journal published through `Shared`, each shard taking it in by replay. */
  ghost function JournalProtocol(): Pub.Protocol<Log, Shard>
  {
    Pub.Protocol(EMPTY, (j, later) => IsWrite(j, later), FRESH, (s, j) => Synced(s, j), false)
  }

  ghost predicate Written(history: seq<Log>)
  {
    && history != [] && history[0] == EMPTY
    && forall i :: 0 <= i < |history| - 1 ==> IsWrite(history[i], history[i + 1])
  }

  lemma {:induction false} HistoryOk(history: seq<Log>, i: nat)
    requires Written(history) && i < |history|
    ensures LogOk(history[i])
  {
    if i == 0 {
      AfterOk([]);
    } else {
      HistoryOk(history, i - 1);
      assert IsWrite(history[i - 1], history[i]);
      var w :| history[i] == Published(history[i - 1], w);
      WriteKeepsLogOk(history[i - 1], w);
    }
  }

  lemma {:induction false} HistoryExtends(history: seq<Log>, i: nat, k: nat)
    requires Written(history) && i <= k < |history|
    ensures Extends(history[i], history[k])
  {
    if i < k {
      HistoryExtends(history, i, k - 1);
      assert IsWrite(history[k - 1], history[k]);
      var w :| history[k] == Published(history[k - 1], w);
      WriteExtends(history[k - 1], w);
    }
  }

  ghost predicate Nondecreasing(loads: seq<nat>, history: seq<Log>)
  {
    && (forall i :: 0 <= i < |loads| ==> loads[i] < |history|)
    && (forall i, j :: 0 <= i < j < |loads| ==> loads[i] <= loads[j])
  }

  function Newest(loads: seq<nat>): nat { if loads == [] then 0 else loads[|loads| - 1] }

  /** Taking in published logs in publication order, skipping any, leaves a shard caught up with the newest. */
  lemma {:induction false} AbsorbedIsCaught(history: seq<Log>, loads: seq<nat>)
    requires Written(history) && Nondecreasing(loads, history)
    ensures Pub.Absorbed(JournalProtocol(), history, loads) == Caught(history[Newest(loads)])
  {
    if loads != [] {
      var front, k := loads[..|loads| - 1], loads[|loads| - 1];
      AbsorbedIsCaught(history, front);
      HistoryExtends(history, Newest(front), k);
      SyncCatchesUp(history[Newest(front)], history[k]);
    }
  }

  lemma InvWritten(s: Pub.State<Log, Shard>)
    requires Pub.Inv(JournalProtocol(), s)
    ensures Written(s.history)
  {
    forall i | 0 <= i < |s.history| - 1
      ensures IsWrite(s.history[i], s.history[i + 1])
    {
      assert JournalProtocol().legal(s.history[i], s.history[i + 1]);
    }
  }

  /** In every reachable state every shard is caught up with the newest journal it has loaded. */
  lemma ShardIsCaught(run: seq<Pub.State<Log, Shard>>, k: nat, r: Pub.ThreadId)
    requires Pub.IsRun(JournalProtocol(), run) && k < |run| && r in run[k].readers
    ensures var history, loads := run[k].history, run[k].readers[r].loads;
            && Written(history) && Nondecreasing(loads, history) && Newest(loads) < |history|
            && run[k].readers[r].view == Caught(history[Newest(loads)])
  {
    Pub.RunKeepsInv(JournalProtocol(), run, k);
    InvWritten(run[k]);
    assert Pub.ReaderOk(JournalProtocol(), run[k].history, run[k].version, run[k].readers[r]);
    AbsorbedIsCaught(run[k].history, run[k].readers[r].loads);
  }

  /** In every interleaving of writes, compactions and syncs, a completed sync leaves the shard's private table
      equal to the live set of the journal it loaded, one action per key; that journal is at least as new as
      every write published before the sync completed. */
  lemma SyncedShardShowsLiveSet(run: seq<Pub.State<Log, Shard>>, i: nat, k: nat, r: Pub.ThreadId)
    requires Pub.IsRun(JournalProtocol(), run) && i <= k && Pub.GetEnds(JournalProtocol(), run, k, r)
    ensures r in run[k + 1].readers
    ensures var shard, at := run[k + 1].readers[r].view, Pub.Index(run[k + 1].readers[r]);
            && run[i].version <= at < |run[k + 1].history|
            && LogOk(run[k + 1].history[at])
            && Shows(shard.pipe, run[k + 1].history[at].live)
  {
    Pub.GetIsFresh(JournalProtocol(), run, i, k, r);
    ShardIsCaught(run, k + 1, r);
    HistoryOk(run[k + 1].history, Newest(run[k + 1].readers[r].loads));
  }

  /** A published history is what some list of writes leaves, write by write. */
  ghost predicate LeftByWrites(history: seq<Log>, n: nat, ws: seq<Write>)
  {
    n < |history| && |ws| == n && forall i :: 0 <= i <= n ==> After(ws[..i]) == history[i]
  }

  lemma OneMoreLeft(history: seq<Log>, n: nat, front: seq<Write>, w: Write)
    requires 0 < n < |history| && LeftByWrites(history, n - 1, front) && history[n] == Published(history[n - 1], w)
    ensures LeftByWrites(history, n, front + [w])
  {
    var ws := front + [w];
    assert front[..n - 1] == front && ws[..n] == ws && ws[..n - 1] == front;
    assert After(ws) == Published(After(front), w);
    forall i | 0 <= i <= n
      ensures After(ws[..i]) == history[i]
    {
      if i < n { assert ws[..i] == front[..i]; }
    }
  }

  lemma {:induction false} HistoryIsWrites(history: seq<Log>, n: nat) returns (ws: seq<Write>)
    requires Written(history) && n < |history|
    ensures LeftByWrites(history, n, ws)
  {
    if n == 0 {
      ws := [];
    } else {
      var front := HistoryIsWrites(history, n - 1);
      assert IsWrite(history[n - 1], history[n]);
      var w :| history[n] == Published(history[n - 1], w);
      ws := front + [w];
      OneMoreLeft(history, n, front, w);
    }
  }

  /** In every interleaving, a completed sync leaves in the shard's private table, for each key, the action that the
      last write to settle it added, and nothing else, over a list of all the writes published so far or more. */
  lemma SyncedShardShowsWrites(run: seq<Pub.State<Log, Shard>>, i: nat, k: nat, r: Pub.ThreadId)
    returns (ws: seq<Write>)
    requires Pub.IsRun(JournalProtocol(), run) && i <= k && Pub.GetEnds(JournalProtocol(), run, k, r)
    ensures r in run[k + 1].readers && run[i].version <= |ws| && LeftByWrites(run[k + 1].history, |ws|, ws)
    ensures var pipe := run[k + 1].readers[r].view.pipe;
            && (forall id, act :: LastAdded(ws, id, act) <==> id in pipe && pipe[id] == {act})
            && (forall id :: id in pipe ==> exists act :: LastAdded(ws, id, act))
  {
    SyncedShardShowsLiveSet(run, i, k, r);
    ShardIsCaught(run, k + 1, r);
    var history, at := run[k + 1].history, Pub.Index(run[k + 1].readers[r]);
    ws := HistoryIsWrites(history, at);
    assert ws[..at] == ws;
    var pipe := run[k + 1].readers[r].view.pipe;
    forall id, act
      ensures LastAdded(ws, id, act) <==> id in pipe && pipe[id] == {act}
    {
      LiveIsLastAdded(ws, id, act);
      ShownEntry(pipe, history[at].live, id, act);
    }
    forall id | id in pipe
      ensures exists act :: LastAdded(ws, id, act)
    {
      var e :| e in history[at].live && e.id == id;
      LiveIsLastAdded(ws, id, e.act);
      assert e == Live(id, e.act);
      assert LastAdded(ws, id, e.act);
    }
  }

  lemma ShownEntry(pipe: Installed, live: seq<Live>, id: Id, act: Act)
    requires Shows(pipe, live)
    ensures Live(id, act) in live <==> id in pipe && pipe[id] == {act}
  {
    if id in pipe && pipe[id] == {act} {
      var e :| e in live && e.id == id;
      assert pipe[e.id] == {e.act};
      assert e.act in pipe[id];
    }
  }

  /** The slice of the log a sync replays is never out of range. */
  lemma SyncStaysInRange(run: seq<Pub.State<Log, Shard>>, k: nat, r: Pub.ThreadId)
    requires Pub.IsRun(JournalProtocol(), run) && k < |run|
    requires r in run[k].readers && run[k].history != []
    ensures InRange(run[k].readers[r].view, Pub.Current(run[k]))
  {
    var history, newest := run[k].history, Newest(run[k].readers[r].loads);
    ShardIsCaught(run, k, r);
    HistoryExtends(history, newest, |history| - 1);
    SyncCatchesUp(history[newest], history[|history| - 1]);
  }

  /** Two shards that loaded the same journal are equal, whenever each was minted and whichever journals each
      passed through on the way. */
  lemma ShardsConverge(run: seq<Pub.State<Log, Shard>>, k: nat, a: Pub.ThreadId, b: Pub.ThreadId)
    requires Pub.IsRun(JournalProtocol(), run) && k < |run|
    requires a in run[k].readers && b in run[k].readers
    requires Pub.Index(run[k].readers[a]) == Pub.Index(run[k].readers[b])
    ensures run[k].readers[a].view == run[k].readers[b].view
  {
    ShardIsCaught(run, k, a);
    ShardIsCaught(run, k, b);
  }

  /** Two shards whose journals have the same live set hold the same table, even at different points of the run, on
      different generations of the log. */
  lemma SameLiveSetSameTable(run: seq<Pub.State<Log, Shard>>, i: nat, k: nat, a: Pub.ThreadId, b: Pub.ThreadId)
    requires Pub.IsRun(JournalProtocol(), run) && i < |run| && k < |run|
    requires a in run[i].readers && b in run[k].readers
    requires LiveSetOf(run[i], a) == LiveSetOf(run[k], b)
    ensures run[i].readers[a].view.pipe == run[k].readers[b].view.pipe
  {
    ShardIsCaught(run, i, a);
    ShardIsCaught(run, k, b);
    HistoryOk(run[i].history, Newest(run[i].readers[a].loads));
    HistoryOk(run[k].history, Newest(run[k].readers[b].loads));
    UniqueShows(run[i].readers[a].view.pipe, run[k].readers[b].view.pipe, LiveSetOf(run[i], a));
  }

  /** The live set of the newest journal a shard has loaded. */
  function LiveSetOf(s: Pub.State<Log, Shard>, r: Pub.ThreadId): seq<Live>
    requires r in s.readers
  {
    var newest := Newest(s.readers[r].loads);
    if newest < |s.history| then s.history[newest].live else []
  }

  // ---- the objects ----

  /** The journal a writer clones, changes and publishes. */
  class JournalCell {
    var generation: nat
    var ops: seq<Op>
    var live: seq<Live>

    ghost function View(): Log
      reads this
    {
      Log(generation, ops, live)
    }

    constructor Clone(j: Log)
      ensures View() == j
    {
      generation, ops, live := j.generation, j.ops, j.live;
    }

    /** A log more than sixteen longer than twice the live set starts over under the next generation. */
    method Compact()
      modifies this
      ensures View() == if |old(ops)| > 2 * |old(live)| + 16
                        then Log(old(generation) + 1, Adds(old(live)), old(live))
                        else old(View())
    {
      if |ops| <= 2 * |live| + 16 {
        return;
      }
      ops := Adds(live);
      generation := generation + 1;
    }

    method TableAdd(id: Id, act: Act)
      modifies this
      ensures View() == Published(old(View()), Write.TableAdd(id, act))
    {
      var i := Find(live, id);
      if i < |live| {
        live := live[i := Live(id, act)];
      } else {
        live := live + [Live(id, act)];
      }
      ops := ops + [Op.Add(id, act)];
      Compact();
    }

    method TableRemove(id: Id)
      modifies this
      ensures View() == Published(old(View()), Write.TableRemove(id))
    {
      var i := Find(live, id);
      if i < |live| {
        live := live[..i] + live[i + 1..];
      }
      assert live == Dropped(old(live), id);
      ops := ops + [Op.Remove(id)];
      Compact();
    }

    method TableClear(table: string) returns (n: nat)
      modifies this
      ensures View() == Published(old(View()), Write.TableClear(table))
      ensures n == |old(live)| - |live|
    {
      var victims := Victims(live, table);
      n := |victims|;
      live := Retained(live, table);
      ops := ops + Removes(victims);
      Compact();
    }
  }

  /** One shard's private pipeline. */
  class X4cEngine {
    var pipe: Installed
    var generation: nat
    var applied: nat

    ghost function View(): Shard
      reads this
    {
      Shard(pipe, generation, applied)
    }

    constructor ()
      ensures View() == FRESH
    {
      pipe, generation, applied := map[], 0, 0;
    }

    /** Bring the pipeline up to a loaded journal: rebuild on a new generation, else replay the tail. The slice
        must be in range; `SyncStaysInRange` shows that it always is. */
    method Sync(j: Log, collide: (set<Act>, Act) -> set<Act>)
      requires InRange(View(), j)
      modifies this
      ensures View() == Synced(old(View()), j)
    {
      if j.generation != generation {
        pipe, generation, applied := map[], j.generation, 0;
      }
      ghost var from := pipe;
      var tail := j.ops[applied..];
      for k := 0 to |tail|
        invariant generation == j.generation
        invariant pipe == Fold(from, tail[..k])
      {
        AppliedIsEffect(collide, pipe, tail[k]);
        assert tail[..k + 1][..k] == tail[..k];
        pipe := Applied(collide, pipe, tail[k]);
      }
      assert tail[..|tail|] == tail;
      applied := |j.ops|;
    }
  }
}
