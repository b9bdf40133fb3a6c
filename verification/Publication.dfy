/** Publication of tables to shard threads (`Shared` and `Cached`, crates/up4-engine/src/table.rs), as an
    interleaving of the atomic steps of any number of writers and readers. A version load, a load of the value
    under the lock, a store and a version bump are separate steps; the orderings the code asks for make each of
    them appear at one point of one total order. */
module Publication {

  type ThreadId = nat

  /** The mutex around the current value, and how far its holder has come through `update`. */
  datatype Lock = Free | Held(writer: ThreadId, phase: Phase)

  datatype Phase = Acquired | Stored | Bumped

  /** Where a reader stands: between gets, in a get that has read the version but not yet the value, or in a
      value-first mint that has read the value but not yet the version. */
  datatype Pc = Idle | GotVersion(v: nat) | GotValue

  /** A shard-local view. `version` is -1 until one was read, standing for a version no update has.
      `loads` lists the published values taken so far, by position in the history. */
  datatype Reader<V> = Reader(pc: Pc, version: int, view: V, loads: seq<nat>)

  type Readers<V> = map<ThreadId, Reader<V>>

  /** `history` holds every value ever stored; the last is current. */
  datatype State<T, V> = State(history: seq<T>, version: nat, lock: Lock, readers: Readers<V>)

  datatype Step<T> =
    | Acquire(w: ThreadId) | Store(w: ThreadId, next: T) | Bump(w: ThreadId) | Release(w: ThreadId)
    | Mint(r: ThreadId) | FastGet(r: ThreadId) | ReadVersion(r: ThreadId) | Load(r: ThreadId)
    | MintValue(r: ThreadId) | MintVersion(r: ThreadId)

  /** What a protocol instance fixes: the value first published, which successors a writer may store, what a
      reader starts from and how it takes in a value, and whether readers are minted value first. */
  datatype Protocol<!T, !V> =
    Protocol(initial: T, legal: (T, T) -> bool, blank: V, absorb: (V, T) -> V, valueFirst: bool)

  ghost predicate Init<T, V>(p: Protocol<T, V>, s: State<T, V>)
  {
    s.history == [p.initial] && s.version == 0 && s.lock == Free && s.readers == map[]
  }

  ghost predicate NextStep<T, V>(p: Protocol<T, V>, s: State<T, V>, s': State<T, V>, step: Step<T>)
  {
    s.history != [] &&
    match step
    case Acquire(w) => s.lock == Free && s' == s.(lock := Held(w, Acquired))
    case Store(w, next) =>
      && s.lock == Held(w, Acquired) && p.legal(Current(s), next)
      && s' == s.(history := s.history + [next], lock := Held(w, Stored))
    case Bump(w) => s.lock == Held(w, Stored) && s' == s.(version := s.version + 1, lock := Held(w, Bumped))
    case Release(w) => s.lock == Held(w, Bumped) && s' == s.(lock := Free)
    case Mint(r) => !p.valueFirst && r !in s.readers && Becomes(s, s', r, Reader(Idle, -1, p.blank, []))
    case FastGet(r) =>
      r in s.readers && s.readers[r].pc == Idle && s.readers[r].version == s.version && s' == s
    case ReadVersion(r) =>
      && r in s.readers && s.readers[r].pc == Idle && s.readers[r].version != s.version
      && Becomes(s, s', r, s.readers[r].(pc := GotVersion(s.version)))
    case Load(r) =>
      r in s.readers && s.readers[r].pc.GotVersion? && s.lock == Free && Becomes(s, s', r, Loaded(p, s, s.readers[r]))
    case MintValue(r) =>
      && p.valueFirst && r !in s.readers && s.lock == Free
      && Becomes(s, s', r, Reader(GotValue, -1, p.absorb(p.blank, Current(s)), [|s.history| - 1]))
    case MintVersion(r) =>
      && r in s.readers && s.readers[r].pc == GotValue
      && Becomes(s, s', r, s.readers[r].(pc := Idle, version := s.version))
  }

  /** Only reader `r` moves. */
  ghost predicate Becomes<T, V>(s: State<T, V>, s': State<T, V>, r: ThreadId, reader: Reader<V>)
  {
    s' == s.(readers := s.readers[r := reader])
  }

  function Current<T, V>(s: State<T, V>): T
    requires s.history != []
  {
    s.history[|s.history| - 1]
  }

  function Loaded<T, V>(p: Protocol<T, V>, s: State<T, V>, r: Reader<V>): Reader<V>
    requires s.history != [] && r.pc.GotVersion?
  {
    Reader(Idle, r.pc.v, p.absorb(r.view, Current(s)), r.loads + [|s.history| - 1])
  }

  /** The `k`th step of a run is `step`. */
  ghost predicate StepAt<T, V>(p: Protocol<T, V>, run: seq<State<T, V>>, k: int, step: Step<T>)
  {
    0 <= k < |run| - 1 && NextStep(p, run[k], run[k + 1], step)
  }

  ghost predicate SomeStepAt<T(!new), V>(p: Protocol<T, V>, run: seq<State<T, V>>, k: int)
  {
    exists step :: StepAt(p, run, k, step)
  }

  ghost predicate IsRun<T(!new), V>(p: Protocol<T, V>, run: seq<State<T, V>>)
  {
    && run != [] && Init(p, run[0])
    && forall k {:trigger SomeStepAt(p, run, k)} :: 0 <= k < |run| - 1 ==> SomeStepAt(p, run, k)
  }

  // ---- what every step keeps ----

  /** The view after taking in the values at the given positions, oldest first. */
  function Absorbed<T, V>(p: Protocol<T, V>, history: seq<T>, loads: seq<nat>): V
    requires forall i :: 0 <= i < |loads| ==> loads[i] < |history|
  {
    if loads == [] then p.blank
    else p.absorb(Absorbed(p, history, loads[..|loads| - 1]), history[loads[|loads| - 1]])
  }

  /** The position of the newest value a reader has taken in. */
  function Index<V>(r: Reader<V>): int
  {
    if r.loads == [] then -1 else r.loads[|r.loads| - 1]
  }

  /** A view is the result of taking in published values in the order of their publication. */
  ghost predicate ViewOk<T, V>(p: Protocol<T, V>, history: seq<T>, r: Reader<V>)
  {
    && (forall i :: 0 <= i < |r.loads| ==> r.loads[i] < |history|)
    && (forall i, j :: 0 <= i < j < |r.loads| ==> r.loads[i] <= r.loads[j])
    && r.view == Absorbed(p, history, r.loads)
  }

  /** A reader's version promises no more than it has loaded; a value-first mint promises nothing until the reader
      has loaded once more. */
  ghost predicate VersionOk<T, V>(p: Protocol<T, V>, version: nat, r: Reader<V>)
  {
    && -1 <= r.version <= version
    && (r.pc.GotVersion? ==> r.pc.v <= version)
    && (r.pc == GotValue ==> p.valueFirst && |r.loads| == 1)
    && (p.valueFirst ==> r.loads != [])
    && (!p.valueFirst || |r.loads| > 1 ==> Index(r) >= r.version)
  }

  ghost predicate ReaderOk<T, V>(p: Protocol<T, V>, history: seq<T>, version: nat, r: Reader<V>)
  {
    ViewOk(p, history, r) && VersionOk(p, version, r)
  }

  ghost predicate ReadersOk<T, V>(p: Protocol<T, V>, history: seq<T>, version: nat, readers: Readers<V>)
  {
    forall r :: r in readers ==> ReaderOk(p, history, version, readers[r])
  }

  /** The lock says whether the value just stored has its version yet. */
  ghost predicate HistoryOk<T, V>(p: Protocol<T, V>, history: seq<T>, version: nat, lock: Lock)
  {
    && history != [] && history[0] == p.initial
    && |history| == version + 1 + (if lock.Held? && lock.phase == Stored then 1 else 0)
    && forall i :: 0 <= i < |history| - 1 ==> p.legal(history[i], history[i + 1])
  }

  ghost predicate Inv<T, V>(p: Protocol<T, V>, s: State<T, V>)
  {
    HistoryOk(p, s.history, s.version, s.lock) && ReadersOk(p, s.history, s.version, s.readers)
  }

  lemma {:induction false} AbsorbedStable<T, V>(p: Protocol<T, V>, h: seq<T>, h': seq<T>, loads: seq<nat>)
    requires forall i :: 0 <= i < |loads| ==> loads[i] < |h|
    requires h <= h'
    ensures Absorbed(p, h, loads) == Absorbed(p, h', loads)
  {
    if loads != [] {
      AbsorbedStable(p, h, h', loads[..|loads| - 1]);
    }
  }

  /** More values and a higher version do a reader no harm. */
  lemma ReadersStay<T, V>(p: Protocol<T, V>, h: seq<T>, h': seq<T>, v: nat, v': nat, readers: Readers<V>)
    requires ReadersOk(p, h, v, readers) && h <= h' && v <= v'
    ensures ReadersOk(p, h', v', readers)
  {
    forall r | r in readers
      ensures ReaderOk(p, h', v', readers[r])
    {
      assert ReaderOk(p, h, v, readers[r]);
      AbsorbedStable(p, h, h', readers[r].loads);
    }
  }

  lemma ReaderReplaced<T, V>(p: Protocol<T, V>, h: seq<T>, v: nat, readers: Readers<V>, r: ThreadId, reader: Reader<V>)
    requires ReadersOk(p, h, v, readers) && ReaderOk(p, h, v, reader)
    ensures ReadersOk(p, h, v, readers[r := reader])
  {
    var after := readers[r := reader];
    forall q | q in after
      ensures ReaderOk(p, h, v, after[q])
    {
      if q != r { assert ReaderOk(p, h, v, readers[q]); }
    }
  }

  lemma StoreKeepsInv<T, V>(p: Protocol<T, V>, s: State<T, V>, s': State<T, V>, w: ThreadId, next: T)
    requires Inv(p, s) && NextStep(p, s, s', Store(w, next))
    ensures Inv(p, s')
  {
    ReadersStay(p, s.history, s'.history, s.version, s.version, s.readers);
  }

  lemma BumpKeepsInv<T, V>(p: Protocol<T, V>, s: State<T, V>, s': State<T, V>, w: ThreadId)
    requires Inv(p, s) && NextStep(p, s, s', Bump(w))
    ensures Inv(p, s')
  {
    ReadersStay(p, s.history, s.history, s.version, s'.version, s.readers);
  }

  /** Loading under a free lock takes the newest value, which no earlier load can pass. */
  lemma LoadedOk<T, V>(p: Protocol<T, V>, s: State<T, V>, r: Reader<V>)
    requires s.history != [] && r.pc.GotVersion? && ReaderOk(p, s.history, s.version, r)
    requires |s.history| == s.version + 1
    ensures ReaderOk(p, s.history, s.version, Loaded(p, s, r))
  {
    var l := Loaded(p, s, r);
    assert l.loads[..|l.loads| - 1] == r.loads;
  }

  lemma LoadKeepsInv<T, V>(p: Protocol<T, V>, s: State<T, V>, s': State<T, V>, r: ThreadId)
    requires Inv(p, s) && NextStep(p, s, s', Load(r))
    ensures Inv(p, s')
  {
    assert ReaderOk(p, s.history, s.version, s.readers[r]);
    LoadedOk(p, s, s.readers[r]);
    ReaderReplaced(p, s.history, s.version, s.readers, r, Loaded(p, s, s.readers[r]));
  }

  lemma MintValueKeepsInv<T, V>(p: Protocol<T, V>, s: State<T, V>, s': State<T, V>, r: ThreadId)
    requires Inv(p, s) && NextStep(p, s, s', MintValue(r))
    ensures Inv(p, s')
  {
    var loads := [|s.history| - 1];
    assert loads[..0] == [];
    ReaderReplaced(p, s.history, s.version, s.readers, r, s'.readers[r]);
  }

  /** Minting, reading a version and finishing a value-first mint: one reader changes, and not what it has loaded. */
  lemma ReaderStepKeepsInv<T, V>(p: Protocol<T, V>, s: State<T, V>, s': State<T, V>, step: Step<T>)
    requires Inv(p, s) && NextStep(p, s, s', step) && (step.Mint? || step.ReadVersion? || step.MintVersion?)
    ensures Inv(p, s')
  {
    if step.r in s.readers { assert ReaderOk(p, s.history, s.version, s.readers[step.r]); }
    ReaderReplaced(p, s.history, s.version, s.readers, step.r, s'.readers[step.r]);
  }

  lemma StepKeepsInv<T, V>(p: Protocol<T, V>, s: State<T, V>, s': State<T, V>, step: Step<T>)
    requires Inv(p, s) && NextStep(p, s, s', step)
    ensures Inv(p, s')
  {
    match step
    case Store(w, next) => StoreKeepsInv(p, s, s', w, next);
    case Bump(w) => BumpKeepsInv(p, s, s', w);
    case Load(r) => LoadKeepsInv(p, s, s', r);
    case MintValue(r) => MintValueKeepsInv(p, s, s', r);
    case Mint(r) => ReaderStepKeepsInv(p, s, s', step);
    case ReadVersion(r) => ReaderStepKeepsInv(p, s, s', step);
    case MintVersion(r) => ReaderStepKeepsInv(p, s, s', step);
    case _ =>
  }

  lemma {:induction false} RunKeepsInv<T(!new), V>(p: Protocol<T, V>, run: seq<State<T, V>>, i: nat)
    requires IsRun(p, run) && i < |run|
    ensures Inv(p, run[i])
  {
    if i > 0 {
      RunKeepsInv(p, run, i - 1);
      assert SomeStepAt(p, run, i - 1);
      var step :| StepAt(p, run, i - 1, step);
      StepKeepsInv(p, run[i - 1], run[i], step);
    }
  }

  /** `s'` comes after `s`. */
  ghost predicate Grown<T, V>(s: State<T, V>, s': State<T, V>)
  {
    && s.history <= s'.history && s.version <= s'.version
    && forall r :: r in s.readers ==> r in s'.readers && s.readers[r].loads <= s'.readers[r].loads
  }

  lemma StepGrows<T, V>(p: Protocol<T, V>, s: State<T, V>, s': State<T, V>, step: Step<T>)
    requires NextStep(p, s, s', step)
    ensures Grown(s, s')
  {
  }

  lemma GrownFurther<T, V>(a: State<T, V>, b: State<T, V>, c: State<T, V>)
    requires Grown(a, b) && Grown(b, c)
    ensures Grown(a, c)
  {
  }

  /** Time only adds: values stay published, versions grow, a reader only loads more. */
  lemma {:induction false} RunGrows<T(!new), V>(p: Protocol<T, V>, run: seq<State<T, V>>, i: nat, j: nat)
    requires IsRun(p, run) && i <= j < |run|
    ensures Grown(run[i], run[j])
  {
    if i < j {
      RunGrows(p, run, i, j - 1);
      assert SomeStepAt(p, run, j - 1);
      var step :| StepAt(p, run, j - 1, step);
      StepGrows(p, run[j - 1], run[j], step);
      GrownFurther(run[i], run[j - 1], run[j]);
    }
  }

  // ---- what a get returns ----

  /** The `k`th step of a run completes a get of `r`: the version was current, or the value has been loaded. */
  ghost predicate GetEnds<T, V>(p: Protocol<T, V>, run: seq<State<T, V>>, k: int, r: ThreadId)
  {
    StepAt(p, run, k, FastGet(r)) || StepAt(p, run, k, Load(r))
  }

  /** At the moment a get completes, its reader has caught up, unless its version came from a value-first mint. */
  lemma GetCatchesUp<T, V>(p: Protocol<T, V>, run: seq<State<T, V>>, k: nat, r: ThreadId)
    requires GetEnds(p, run, k, r) && Inv(p, run[k])
    ensures r in run[k].readers && r in run[k + 1].readers && run[k + 1].version == run[k].version
    ensures Index(run[k + 1].readers[r]) < |run[k + 1].history|
    ensures StepAt(p, run, k, Load(r)) || !p.valueFirst || |run[k].readers[r].loads| > 1 ==>
              Index(run[k + 1].readers[r]) >= run[k].version
  {
    assert ReaderOk(p, run[k].history, run[k].version, run[k].readers[r]);
  }

  /** Every completed `get` returns the result of taking in published values in publication order, the last of
      them at least as new as every update published by the time it completes. */
  lemma GetIsFresh<T(!new), V>(p: Protocol<T, V>, run: seq<State<T, V>>, i: nat, k: nat, r: ThreadId)
    requires IsRun(p, run) && !p.valueFirst && i <= k && GetEnds(p, run, k, r)
    ensures r in run[k + 1].readers
    ensures var got := run[k + 1].readers[r];
            ViewOk(p, run[k + 1].history, got) && run[i].version <= Index(got) < |run[k + 1].history|
  {
    RunKeepsInv(p, run, k);
    RunKeepsInv(p, run, k + 1);
    RunGrows(p, run, i, k);
    GetCatchesUp(p, run, k, r);
    assert ReaderOk(p, run[k + 1].history, run[k + 1].version, run[k + 1].readers[r]);
  }

  /** Successive gets by one reader never go backwards, however it was minted. */
  lemma NeverBackwards<T(!new), V>(p: Protocol<T, V>, run: seq<State<T, V>>, i: nat, j: nat, r: ThreadId)
    requires IsRun(p, run) && i <= j && GetEnds(p, run, i, r) && GetEnds(p, run, j, r)
    ensures r in run[i + 1].readers && r in run[j + 1].readers
    ensures Index(run[i + 1].readers[r]) <= Index(run[j + 1].readers[r])
  {
    RunGrows(p, run, i + 1, j + 1);
    RunKeepsInv(p, run, j + 1);
    var early, late := run[i + 1].readers[r], run[j + 1].readers[r];
    assert early.loads <= late.loads;
    assert ReaderOk(p, run[j + 1].history, run[j + 1].version, late);
    IndexGrows(p, run[j + 1].history, early, late);
  }

  lemma IndexGrows<T, V>(p: Protocol<T, V>, history: seq<T>, early: Reader<V>, late: Reader<V>)
    requires early.loads <= late.loads && ViewOk(p, history, late)
    ensures Index(early) <= Index(late)
  {
    if early.loads != [] {
      var last := |early.loads| - 1;
      assert late.loads[last] == early.loads[last];
    }
  }

  // ---- the plain cached view ----

  /** `Cached`: taking in a value replaces the view, and a writer may store anything. */
  function CachedProtocol<T>(initial: T): Protocol<T, T>
  {
    Protocol(initial, (_, _) => true, initial, (_, t) => t, false)
  }

  /** What `Cached::get` hands out is one whole published value, at least as new as every update published
      before it returned. */
  lemma CachedGet<T(!new)>(initial: T, run: seq<State<T, T>>, i: nat, k: nat, r: ThreadId)
    requires IsRun(CachedProtocol(initial), run) && i <= k && GetEnds(CachedProtocol(initial), run, k, r)
    ensures r in run[k + 1].readers
    ensures var got := run[k + 1].readers[r];
            && run[i].version <= Index(got) < |run[k + 1].history|
            && got.view == run[k + 1].history[Index(got)]
  {
    GetIsFresh(CachedProtocol(initial), run, i, k, r);
  }

  /** A run of a version-first reader: its first get takes in the value published before it, and after an update its
      next takes in the new one. */
  lemma VersionFirstGets() returns (run: seq<State<int, int>>)
    ensures IsRun(CachedProtocol(7), run) && |run| == 11
    ensures GetEnds(CachedProtocol(7), run, 2, 1) && 1 in run[3].readers && run[3].readers[1].view == 7
    ensures GetEnds(CachedProtocol(7), run, 9, 1) && 1 in run[10].readers && run[10].readers[1].view == 8
  {
    var p := CachedProtocol(7);
    run := FirstGet();
    var s3 := run[3];
    var s4 := s3.(lock := Held(0, Acquired));
    run := OneStepMore(p, run, s4, Acquire(0));
    var s5 := s4.(history := s4.history + [8], lock := Held(0, Stored));
    run := OneStepMore(p, run, s5, Store(0, 8));
    var s6 := s5.(version := 1, lock := Held(0, Bumped));
    run := OneStepMore(p, run, s6, Bump(0));
    var s7 := s6.(lock := Free);
    run := OneStepMore(p, run, s7, Release(0));
    var reader := Reader(Idle, 0, 7, [0]);
    var s8 := s7.(readers := s7.readers[1 := reader.(pc := GotVersion(1))]);
    run := OneStepMore(p, run, s8, ReadVersion(1));
    assert Loaded(p, s8, s8.readers[1]).loads == [0, 1];
    run := OneStepMore(p, run, s8.(readers := s8.readers[1 := Reader(Idle, 1, 8, [0, 1])]), Load(1));
    run := OneStepMore(p, run, run[9], FastGet(1));
  }

  lemma FirstGet() returns (run: seq<State<int, int>>)
    ensures IsRun(CachedProtocol(7), run) && |run| == 4 && GetEnds(CachedProtocol(7), run, 2, 1)
    ensures run[3] == State([7], 0, Free, map[1 := Reader(Idle, 0, 7, [0])])
  {
    var p := CachedProtocol(7);
    var s0: State<int, int> := State([7], 0, Free, map[]);
    var s1 := s0.(readers := s0.readers[1 := Reader(Idle, -1, 7, [])]);
    var s2 := s1.(readers := s1.readers[1 := Reader(GotVersion(0), -1, 7, [])]);
    var s3 := s2.(readers := s2.readers[1 := Reader(Idle, 0, 7, [0])]);
    run := [s0];
    run := OneStepMore(p, run, s1, Mint(1));
    run := OneStepMore(p, run, s2, ReadVersion(1));
    assert Loaded(p, s2, s2.readers[1]).loads == [0];
    run := OneStepMore(p, run, s3, Load(1));
    assert s3.readers == map[1 := Reader(Idle, 0, 7, [0])];
  }

  // ---- minting value first ----

  /** The uBPF engine: it holds a whole table set like `Cached`, but its mint loads the value and then the version. */
  function UbpfProtocol<T>(initial: T): Protocol<T, T>
  {
    CachedProtocol(initial).(valueFirst := true)
  }

  /** Some update is published between two points of a run. */
  ghost predicate UpdateBetween<T, V>(p: Protocol<T, V>, run: seq<State<T, V>>, a: nat, b: nat)
  {
    exists k, w :: a <= k < b && StepAt(p, run, k, Bump(w))
  }

  /** Reader `r` loads some value between two points of a run. */
  ghost predicate LoadBetween<T, V>(p: Protocol<T, V>, run: seq<State<T, V>>, a: nat, b: nat, r: ThreadId)
  {
    exists k :: a <= k < b && StepAt(p, run, k, Load(r))
  }

  lemma {:induction false} VersionCountsUpdates<T(!new), V>(p: Protocol<T, V>, run: seq<State<T, V>>, a: nat, b: nat)
    requires IsRun(p, run) && a <= b < |run|
    ensures run[a].version != run[b].version <==> UpdateBetween(p, run, a, b)
  {
    if a < b {
      VersionCountsUpdates(p, run, a, b - 1);
      RunGrows(p, run, a, b - 1);
      assert SomeStepAt(p, run, b - 1);
      var step :| StepAt(p, run, b - 1, step);
      if step.Bump? {
        assert StepAt(p, run, b - 1, Bump(step.w));
      } else {
        assert forall w :: !StepAt(p, run, b - 1, Bump(w));
      }
    }
  }

  /** Between the two reads of its mint nothing moves the reader. */
  lemma {:induction false} StillMinting<T(!new), V>(p: Protocol<T, V>, run: seq<State<T, V>>,
                                                    a: nat, b: nat, r: ThreadId)
    requires IsRun(p, run) && a < b < |run| && StepAt(p, run, a, MintValue(r))
    requires r in run[b].readers && run[b].readers[r].pc == GotValue
    ensures run[b].readers[r] == run[a + 1].readers[r]
  {
    if a + 1 < b {
      RunGrows(p, run, a + 1, b - 1);
      assert SomeStepAt(p, run, b - 1);
      var step :| StepAt(p, run, b - 1, step);
      StillMinting(p, run, a, b - 1, r);
    }
  }

  /** A reader that loads nothing keeps its version, its view and what it has loaded. */
  lemma {:induction false} Unmoved<T(!new), V>(p: Protocol<T, V>, run: seq<State<T, V>>, a: nat, b: nat, r: ThreadId)
    requires IsRun(p, run) && a <= b < |run| && r in run[a].readers && run[a].readers[r].pc != GotValue
    requires !LoadBetween(p, run, a, b, r)
    ensures r in run[b].readers && run[b].readers[r] == run[a].readers[r].(pc := run[b].readers[r].pc)
    ensures run[b].readers[r].pc != GotValue
  {
    if a < b {
      assert !LoadBetween(p, run, a, b - 1, r) by {
        assert forall k :: a <= k < b - 1 ==> !StepAt(p, run, k, Load(r));
      }
      Unmoved(p, run, a, b - 1, r);
      assert SomeStepAt(p, run, b - 1);
      var step :| StepAt(p, run, b - 1, step);
      assert step == Load(r) ==> StepAt(p, run, b - 1, Load(r));
    }
  }

  /** A reader minted value first that has loaded since has loaded at least twice. */
  lemma LoadedSince<T(!new), V>(p: Protocol<T, V>, run: seq<State<T, V>>, k: nat, j: nat, r: ThreadId)
    requires IsRun(p, run) && p.valueFirst && k < j < |run| && StepAt(p, run, k, Load(r))
    ensures r in run[j].readers && |run[j].readers[r].loads| > 1
  {
    RunKeepsInv(p, run, k);
    assert ReaderOk(p, run[k].history, run[k].version, run[k].readers[r]);
    RunGrows(p, run, k + 1, j);
  }

  /** What a value-first mint leaves: the value current at its first read, the version current at its second. */
  lemma MintedAs<T(!new), V>(p: Protocol<T, V>, run: seq<State<T, V>>, a: nat, b: nat, r: ThreadId)
    requires IsRun(p, run) && a < b && StepAt(p, run, a, MintValue(r)) && StepAt(p, run, b, MintVersion(r))
    ensures r in run[b + 1].readers && run[b + 1].readers[r].pc == Idle
    ensures Index(run[b + 1].readers[r]) == run[a].version && run[b + 1].readers[r].version == run[b].version
  {
    RunKeepsInv(p, run, a);
    StillMinting(p, run, a, b, r);
  }

  /** Freshness of a reader minted value first, at every get it ever completes: it is as new as the version current
      at that get if and only if no update was published between the two reads of its mint, or it has loaded since.
      Until it loads, it serves the value of its mint. */
  lemma ValueFirstGet<T(!new), V>(p: Protocol<T, V>, run: seq<State<T, V>>, a: nat, b: nat, k: nat, r: ThreadId)
    requires IsRun(p, run) && p.valueFirst && a < b < k
    requires StepAt(p, run, a, MintValue(r)) && StepAt(p, run, b, MintVersion(r)) && GetEnds(p, run, k, r)
    ensures r in run[k + 1].readers
    ensures Index(run[k + 1].readers[r]) >= run[k].version <==>
              !UpdateBetween(p, run, a, b) || LoadBetween(p, run, b + 1, k + 1, r)
    ensures !LoadBetween(p, run, b + 1, k + 1, r) ==> Index(run[k + 1].readers[r]) == run[a].version
  {
    MintedAs(p, run, a, b, r);
    VersionCountsUpdates(p, run, a, b);
    RunGrows(p, run, a, b);
    RunKeepsInv(p, run, k);
    GetCatchesUp(p, run, k, r);
    if LoadBetween(p, run, b + 1, k + 1, r) {
      var l :| b + 1 <= l < k + 1 && StepAt(p, run, l, Load(r));
      if l < k { LoadedSince(p, run, l, k, r); }
    } else {
      Unmoved(p, run, b + 1, k + 1, r);
    }
  }

  /** A stale engine serves the tables of its mint, under a version that counts a later update, at every get until
      it loads. */
  lemma StaleUntilItLoads<T(!new)>(initial: T, run: seq<State<T, T>>, a: nat, b: nat, k: nat, r: ThreadId)
    requires IsRun(UbpfProtocol(initial), run) && a < b < k
    requires StepAt(UbpfProtocol(initial), run, a, MintValue(r))
    requires StepAt(UbpfProtocol(initial), run, b, MintVersion(r))
    requires GetEnds(UbpfProtocol(initial), run, k, r) && UpdateBetween(UbpfProtocol(initial), run, a, b)
    requires !LoadBetween(UbpfProtocol(initial), run, b + 1, k + 1, r)
    ensures r in run[k + 1].readers && run[a].version < run[k].version && run[a].version < |run[k + 1].history|
    ensures run[k + 1].readers[r].view == run[k + 1].history[run[a].version]
  {
    var p := UbpfProtocol(initial);
    ValueFirstGet(p, run, a, b, k, r);
    RunKeepsInv(p, run, k + 1);
    assert ReaderOk(p, run[k + 1].history, run[k + 1].version, run[k + 1].readers[r]);
  }

  /** The next update repairs a stale reader: a get that completes after one is fresh again. */
  lemma NextUpdateRepairs<T(!new), V>(p: Protocol<T, V>, run: seq<State<T, V>>, a: nat, b: nat, k: nat, r: ThreadId)
    requires IsRun(p, run) && p.valueFirst && a < b < k
    requires StepAt(p, run, a, MintValue(r)) && StepAt(p, run, b, MintVersion(r)) && GetEnds(p, run, k, r)
    requires UpdateBetween(p, run, b, k)
    ensures r in run[k + 1].readers && Index(run[k + 1].readers[r]) >= run[k].version
  {
    ValueFirstGet(p, run, a, b, k, r);
    VersionCountsUpdates(p, run, b, k);
    MintedAs(p, run, a, b, r);
    if !LoadBetween(p, run, b + 1, k + 1, r) {
      assert !StepAt(p, run, k, Load(r));
      Unmoved(p, run, b + 1, k + 1, r);
    }
  }

  /** A run of real steps in which an update falls between the two reads, and the engine then serves the old value
      as current. */
  lemma ValueFirstMintCanBeStale() returns (run: seq<State<int, int>>)
    ensures IsRun(UbpfProtocol(7), run) && |run| == 8 && GetEnds(UbpfProtocol(7), run, 6, 1)
    ensures 1 in run[7].readers && run[7].readers[1].view == 7
    ensures run[7].history != [] && Current(run[7]) == 8 && run[7].readers[1].version == run[7].version
  {
    var p := UbpfProtocol(7);
    var s0: State<int, int> := State([7], 0, Free, map[]);
    var minting := Reader(GotValue, -1, 7, [0]);
    var s1 := s0.(readers := s0.readers[1 := minting]);
    var s2 := s1.(lock := Held(0, Acquired));
    var s3 := s2.(history := s2.history + [8], lock := Held(0, Stored));
    var s4 := s3.(version := 1, lock := Held(0, Bumped));
    var s5 := s4.(lock := Free);
    var s6 := s5.(readers := s5.readers[1 := minting.(pc := Idle, version := 1)]);
    run := [s0];
    run := OneStepMore(p, run, s1, MintValue(1));
    run := OneStepMore(p, run, s2, Acquire(0));
    run := OneStepMore(p, run, s3, Store(0, 8));
    run := OneStepMore(p, run, s4, Bump(0));
    run := OneStepMore(p, run, s5, Release(0));
    run := OneStepMore(p, run, s6, MintVersion(1));
    run := OneStepMore(p, run, s6, FastGet(1));
  }

  lemma OneStepMore<T(!new), V>(p: Protocol<T, V>, run: seq<State<T, V>>, s: State<T, V>, step: Step<T>)
    returns (longer: seq<State<T, V>>)
    requires IsRun(p, run) && NextStep(p, run[|run| - 1], s, step)
    ensures longer == run + [s] && IsRun(p, longer) && StepAt(p, longer, |run| - 1, step)
  {
    longer := run + [s];
    forall k | 0 <= k < |longer| - 1
      ensures SomeStepAt(p, longer, k)
    {
      if k < |run| - 1 {
        assert SomeStepAt(p, run, k);
        var earlier :| StepAt(p, run, k, earlier);
        assert StepAt(p, longer, k, earlier);
      } else {
        assert StepAt(p, longer, k, step);
      }
    }
  }
}
