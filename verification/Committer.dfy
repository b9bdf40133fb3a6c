/** The committer of regenerated artifacts (scripts/ci/commit-generated.py) against a branch that others may move
    at any moment. The server is a store of commits and a branch head; commits are named by their place in it, and
    every commit but the first names an older one as its parent. */
module Committer {
  import opened Buckets

  type Path = string
  type Blob = nat
  type Tree = map<Path, Blob>

  datatype Change = Write(blob: Blob) | Delete

  type Changes = map<Path, Change>

  datatype Commit = Commit(tree: Tree, parent: nat)

  const MAX_ATTEMPTS: nat := 3
  const FULL_PAGE: nat := 300

  // ---- paths ----

  const X4C_GENERATED: Path := "crates/up4-x4c/src/generated/"
  const UBPF_GENERATED: Path := "crates/up4-ubpf/src/generated/"
  const LOCK: Path := "p4/generated.lock"

  predicate StartsWith(path: Path, prefix: Path) { prefix <= path }

  /** The paths a regeneration reads. */
  predicate IsInput(path: Path)
  {
    || StartsWith(path, "p4/") || StartsWith(path, "xtask/")
    || StartsWith(path, X4C_GENERATED) || StartsWith(path, UBPF_GENERATED)
  }

  lemma StartsWithIt(prefix: Path, rest: Path)
    ensures StartsWith(prefix + rest, prefix)
  {
  }

  /** The sources, the tool and both generated directories are inputs, and nothing else is. */
  lemma InputsAre(path: Path, rest: Path)
    ensures IsInput("p4/" + rest) && IsInput("xtask/" + rest)
    ensures IsInput("crates/up4-x4c/src/generated/" + rest) && IsInput("crates/up4-ubpf/src/generated/" + rest)
    ensures IsInput(path) ==>
              "p4/" <= path || "xtask/" <= path || "crates/up4-x4c/src/generated/" <= path
              || "crates/up4-ubpf/src/generated/" <= path
  {
    StartsWithIt("p4/", rest);
    StartsWithIt("xtask/", rest);
    StartsWithIt(X4C_GENERATED, rest);
    StartsWithIt(UBPF_GENERATED, rest);
  }

  /** The components of a path. */
  function Parts(path: Path): (r: seq<Path>)
    ensures |r| > 0
  {
    if path == [] then [[]] else WithChar(path[0], Parts(path[1..]))
  }

  /** The paths the committer may write. */
  predicate Admitted(path: Path)
  {
    && path != "" && path[0] != '/' && '\\' !in path && ".." !in Parts(path)
    && (path == LOCK || StartsWith(path, X4C_GENERATED) || StartsWith(path, UBPF_GENERATED))
  }

  /** Whatever may be written is also read: a landed commit shows up as moved inputs. */
  lemma AdmittedIsInput(path: Path)
    requires Admitted(path)
    ensures IsInput(path)
  {
    assert LOCK[..3] == "p4/";
  }

  lemma {:induction false} PartsOfPlain(name: Path)
    requires '/' !in name
    ensures Parts(name) == [name]
  {
    if name != [] {
      PartsOfPlain(name[1..]);
      assert name == [name[0]] + name[1..];
    } else {
      assert name == [];
    }
  }

  lemma {:induction false} PartsJoin(dir: Path, name: Path)
    ensures Parts(dir + ['/'] + name) == Parts(dir) + Parts(name)
  {
    var all := dir + ['/'] + name;
    if dir == [] {
      assert all[1..] == name && all[0] == '/';
    } else {
      PartsJoin(dir[1..], name);
      assert all[1..] == dir[1..] + ['/'] + name && all[0] == dir[0];
      OneMoreChar(dir[0], Parts(dir[1..]), Parts(name));
    }
  }

  /** The components once a character is put in front. */
  function WithChar(c: char, parts: seq<Path>): (r: seq<Path>)
    requires |parts| > 0
    ensures |r| > 0
  {
    if c == '/' then [[]] + parts else [[c] + parts[0]] + parts[1..]
  }

  lemma OneMoreChar(c: char, a: seq<Path>, b: seq<Path>)
    requires |a| > 0
    ensures WithChar(c, a + b) == WithChar(c, a) + b
  {
  }

  /** A path that climbs is refused wherever it climbs. */
  lemma ClimbingRefused(dir: Path, rest: Path)
    ensures !Admitted(dir + "/../" + rest) && !Admitted(dir + "/..")
  {
    assert ".."[..] == "..";
    PartsOfPlain("..");
    assert dir + "/../" + rest == (dir + ['/'] + "..") + ['/'] + rest;
    PartsJoin(dir + ['/'] + "..", rest);
    PartsJoin(dir, "..");
    assert dir + "/.." == dir + ['/'] + "..";
    assert Parts(dir + ['/'] + "..")[|Parts(dir)|] == "..";
  }

  /** What may be written: the lock and what lies in the two generated directories, unless it climbs or has a
      backslash. */
  lemma AdmittedAre(path: Path)
    ensures Admitted(path) <==>
              && '\\' !in path && ".." !in Parts(path)
              && (path == "p4/generated.lock" || "crates/up4-x4c/src/generated/" <= path
                  || "crates/up4-ubpf/src/generated/" <= path)
  {
    assert "p4/generated.lock"[0] == 'p' && X4C_GENERATED[0] == 'c' && UBPF_GENERATED[0] == 'c';
  }

  // ---- trees ----

  function At(t: Tree, p: Path): Option<Blob> { if p in t then Some(t[p]) else None }

  function Apply(t: Tree, ch: Changes): Tree
  {
    map p | p in t.Keys + ch.Keys && !(p in ch && ch[p].Delete?) :: if p in ch then ch[p].blob else t[p]
  }

  lemma ApplyAt(t: Tree, ch: Changes, p: Path)
    ensures At(Apply(t, ch), p) ==
            if p !in ch then At(t, p) else if ch[p].Delete? then None else Some(ch[p].blob)
  {
  }

  /** Two trees hold the same at every path a regeneration reads. */
  ghost predicate SameInputs(t: Tree, u: Tree)
  {
    forall p :: IsInput(p) ==> At(t, p) == At(u, p)
  }

  /** One file of a comparison: its path at the head, and the path it was renamed from. */
  datatype Entry = Entry(filename: Path, previous: Option<Path>)

  predicate NamedBy(e: Entry, p: Path) { e.filename == p || e.previous == Some(p) }

  /** Every path at which two trees differ is the new or the old name of an entry. */
  predicate NamesAll(files: seq<Entry>, t: Tree, u: Tree)
  {
    forall p :: p in t.Keys + u.Keys && At(t, p) != At(u, p) ==> exists i :: 0 <= i < |files| && NamedBy(files[i], p)
  }

  /** An old name is given only where the file is gone from it. */
  predicate RenamesTrue(files: seq<Entry>, t: Tree, u: Tree)
  {
    forall i :: 0 <= i < |files| && files[i].previous.Some? ==>
      At(t, files[i].previous.value) != None && At(u, files[i].previous.value) == None
  }

  /** A path files were renamed away from. */
  predicate GoneFrom(files: seq<Entry>, p: Path)
  {
    exists i :: 0 <= i < |files| && files[i].previous == Some(p)
  }

  /** Some input was renamed away: it stands in the listing as an old name alone. */
  predicate HidesInput(files: seq<Entry>)
  {
    exists i :: 0 <= i < |files| && files[i].previous.Some? && IsInput(files[i].previous.value)
  }

  /** With no input among the new names, the inputs of the two trees are the same but for those renamed away. */
  lemma UnnamedInputs(files: seq<Entry>, t: Tree, u: Tree, p: Path)
    requires NamesAll(files, t, u) && RenamesTrue(files, t, u) && IsInput(p)
    requires forall i :: 0 <= i < |files| ==> !IsInput(files[i].filename)
    ensures GoneFrom(files, p) ==> At(t, p) != None
    ensures At(u, p) == if GoneFrom(files, p) then None else At(t, p)
  {
    assert p in t.Keys + u.Keys || (At(t, p) == None && At(u, p) == None);
  }

  // ---- history ----

  ghost predicate Rooted(store: seq<Commit>)
  {
    store != [] && forall i :: 0 < i < |store| ==> store[i].parent < i
  }

  /** The commit at which two lines of history meet, where a three-dot comparison starts. */
  function MergeBase(store: seq<Commit>, a: nat, b: nat): (m: nat)
    requires Rooted(store) && a < |store| && b < |store|
    ensures m <= a && m <= b
    decreases a + b
  {
    if a == b then a
    else if a > b then MergeBase(store, store[a].parent, b)
    else MergeBase(store, a, store[b].parent)
  }

  /** `a` is on the way from `b` back to the root. */
  predicate Ancestor(store: seq<Commit>, a: nat, b: nat)
    requires Rooted(store) && a < |store| && b < |store|
    decreases b
  {
    a == b || (a < b && Ancestor(store, a, store[b].parent))
  }

  /** Both lines pass through the merge base, and every commit both pass through is an ancestor of it. */
  lemma {:induction false} MergeBaseIsCommon(store: seq<Commit>, a: nat, b: nat)
    requires Rooted(store) && a < |store| && b < |store|
    ensures Ancestor(store, MergeBase(store, a, b), a) && Ancestor(store, MergeBase(store, a, b), b)
    ensures forall c: nat :: c < |store| && Ancestor(store, c, a) && Ancestor(store, c, b) ==>
              Ancestor(store, c, MergeBase(store, a, b))
    decreases a + b
  {
    if a > b {
      MergeBaseIsCommon(store, store[a].parent, b);
    } else if a < b {
      MergeBaseIsCommon(store, a, store[b].parent);
    }
  }

  /** A commit that has not left the branch is its own merge base with the head. */
  lemma {:induction false} AncestorIsMergeBase(store: seq<Commit>, a: nat, b: nat)
    requires Rooted(store) && a < |store| && b < |store| && Ancestor(store, a, b)
    ensures MergeBase(store, a, b) == a
    decreases b
  {
    if a != b {
      AncestorIsMergeBase(store, a, store[b].parent);
    }
  }

  lemma {:induction false} MergeBaseStays(store: seq<Commit>, more: seq<Commit>, a: nat, b: nat)
    requires Rooted(store) && Rooted(more) && store <= more && a < |store| && b < |store|
    ensures MergeBase(more, a, b) == MergeBase(store, a, b)
    decreases a + b
  {
    if a > b {
      MergeBaseStays(store, more, store[a].parent, b);
    } else if a < b {
      MergeBaseStays(store, more, a, store[b].parent);
    }
  }

  // ---- the server ----

  /** A commit the committer landed, and the listing that let its parent pass; the base passes on none. */
  datatype Landing = Landing(commit: nat, passed: seq<Entry>)

  /** The commits, the branch, and, for the record, what the committer itself landed, in order. */
  datatype Server = Server(store: seq<Commit>, head: nat, landed: seq<Landing>)

  ghost predicate ServerOk(s: Server)
  {
    Rooted(s.store) && s.head < |s.store|
  }

  /** What others do to the branch: push a commit made on any commit, or force the branch to any commit. */
  datatype Move = Push(parent: nat, tree: Tree) | Force(to: nat)

  function Moved(s: Server, m: Move): Server
  {
    match m
    case Push(parent, tree) =>
      if parent < |s.store| then s.(store := s.store + [Commit(tree, parent)], head := |s.store|) else s
    case Force(to) => if to < |s.store| then s.(head := to) else s
  }

  function MovedAll(s: Server, ms: seq<Move>): Server
  {
    if ms == [] then s else Moved(MovedAll(s, ms[..|ms| - 1]), ms[|ms| - 1])
  }

  /** `createCommitOnBranch`: an atomic compare-and-swap on the head. */
  function Swapped(s: Server, expected: nat, passed: seq<Entry>, ch: Changes): Server
  {
    if s.head == expected < |s.store|
    then Server(s.store + [Commit(Apply(s.store[s.head].tree, ch), s.head)], |s.store|,
                s.landed + [Landing(|s.store|, passed)])
    else s
  }

  /** Everything that can befall one attempt: what others do before it and before its answer, whether the request and
      its answer come through, whether the branch can be located, and what the comparison lists. */
  datatype Weather = Weather(before: seq<Move>, delivered: bool, between: seq<Move>, heard: bool, located: bool,
                             listing: Option<seq<Entry>>)

  /** A full page may leave anything out; any other listing covers every path that differs between the merge base and
      the head, and its renames are real. */
  predicate Truthful(store: seq<Commit>, base: nat, tip: nat, files: seq<Entry>)
    requires Rooted(store) && base < |store| && tip < |store|
  {
    var from, to := store[MergeBase(store, base, tip)].tree, store[tip].tree;
    |files| >= FULL_PAGE || (NamesAll(files, from, to) && RenamesTrue(files, from, to))
  }

  /** What the comparison answers: some truthful listing, or nothing. */
  function Answer(store: seq<Commit>, base: nat, tip: nat, listing: Option<seq<Entry>>): Option<seq<Entry>>
    requires Rooted(store) && base < |store| && tip < |store|
  {
    if listing.Some? && Truthful(store, base, tip, listing.value) then listing else None
  }

  lemma {:induction false} MovesKeepOk(s: Server, ms: seq<Move>)
    requires ServerOk(s)
    ensures ServerOk(MovedAll(s, ms)) && s.store <= MovedAll(s, ms).store && MovedAll(s, ms).landed == s.landed
  {
    if ms != [] {
      MovesKeepOk(s, ms[..|ms| - 1]);
    }
  }

  // ---- one attempt, and the loop ----

  datatype Outcome = Committed | Raced(head: nat) | Failed

  datatype Exit = Done | Stale | Busy | Error

  /** A listing that says an input moved, or is missing or a full page. Old names are not looked at. */
  predicate Suspicious(got: Option<seq<Entry>>)
  {
    got.None? || |got.value| >= FULL_PAGE || exists i :: 0 <= i < |got.value| && IsInput(got.value[i].filename)
  }

  /** The server after one attempt. */
  function AfterPost(s: Server, expected: nat, passed: seq<Entry>, ch: Changes, w: Weather): Server
  {
    var asked := MovedAll(s, w.before);
    MovedAll(if w.delivered then Swapped(asked, expected, passed, ch) else asked, w.between)
  }

  /** How an attempt is classified: by its answer, and failing that by where the branch is. */
  function PostOutcome(s: Server, expected: nat, passed: seq<Entry>, ch: Changes, w: Weather): Outcome
  {
    var now := AfterPost(s, expected, passed, ch, w).head;
    if w.delivered && MovedAll(s, w.before).head == expected && w.heard then Committed
    else if w.located && now != expected then Raced(now)
    else Failed
  }

  /** A source, a file of the tool, or a generated file. */
  predicate RegenerationReads(path: Path, rest: Path)
  {
    || path == "p4/" + rest || path == "xtask/" + rest
    || path == "crates/up4-x4c/src/generated/" + rest || path == "crates/up4-ubpf/src/generated/" + rest
  }

  /** Which answers keep the committer from going on: none, three hundred entries, or a new name that is an input. */
  lemma SuspiciousAre(files: seq<Entry>, i: nat, rest: Path)
    ensures Suspicious(None)
    ensures |files| >= 300 ==> Suspicious(Some(files))
    ensures |files| < 300 && (forall j :: 0 <= j < |files| ==> !IsInput(files[j].filename)) ==> !Suspicious(Some(files))
    ensures i < |files| && RegenerationReads(files[i].filename, rest) ==> Suspicious(Some(files))
  {
    InputsAre("", rest);
  }

  lemma PostKeepsOk(s: Server, expected: nat, passed: seq<Entry>, ch: Changes, w: Weather)
    requires ServerOk(s)
    ensures var t := AfterPost(s, expected, passed, ch, w);
            ServerOk(t) && s.store <= t.store && |s.landed| <= |t.landed|
  {
    MovesKeepOk(s, w.before);
    var asked := MovedAll(s, w.before);
    MovesKeepOk(if w.delivered then Swapped(asked, expected, passed, ch) else asked, w.between);
  }

  /** The retry loop from its `n`th attempt on. */
  function Reconciled(s: Server, base: nat, expected: nat, passed: seq<Entry>, ch: Changes,
                      script: nat -> Weather, n: nat): (Server, Exit)
    requires ServerOk(s) && base < |s.store|
    decreases MAX_ATTEMPTS - n
  {
    if n >= MAX_ATTEMPTS then (s, Busy)
    else
      PostKeepsOk(s, expected, passed, ch, script(n));
      var s1 := AfterPost(s, expected, passed, ch, script(n));
      match PostOutcome(s, expected, passed, ch, script(n))
      case Committed => (s1, Done)
      case Failed => (s1, Error)
      case Raced(head) =>
        var got := Answer(s1.store, base, head, script(n).listing);
        if Suspicious(got) then (s1, Stale) else Reconciled(s1, base, head, got.value, ch, script, n + 1)
  }

  /** A moved input ends the run: if the branch is not where an attempt expects it, and the comparison names a source,
      the tool or a generated file as new, nothing lands from then on, and the run ends stale. */
  lemma MovedInputEndsStale(s: Server, base: nat, expected: nat, passed: seq<Entry>, ch: Changes,
                            script: nat -> Weather, n: nat, i: nat, rest: Path)
    requires ServerOk(s) && base < |s.store| && n < 3
    requires MovedAll(s, script(n).before).head != expected && script(n).located
    requires AfterPost(s, expected, passed, ch, script(n)).head != expected
    requires script(n).listing.Some? && i < |script(n).listing.value|
    requires RegenerationReads(script(n).listing.value[i].filename, rest)
    ensures var (t, exit) := Reconciled(s, base, expected, passed, ch, script, n);
            exit == Stale && t.landed == s.landed
  {
    var w := script(n);
    SuspiciousAre(w.listing.value, i, rest);
    MovesKeepOk(s, w.before);
    var asked := MovedAll(s, w.before);
    assert Swapped(asked, expected, passed, ch) == asked;
    MovesKeepOk(asked, w.between);
    PostKeepsOk(s, expected, passed, ch, w);
  }

  /** On a branch still where it is expected, an attempt that comes through lands the change set there, and the run
      reports it. */
  lemma QuietAttemptLands(s: Server, base: nat, expected: nat, passed: seq<Entry>, ch: Changes,
                          script: nat -> Weather, n: nat)
    requires ServerOk(s) && base < |s.store| && n < 3 && s.head == expected
    requires script(n).before == [] && script(n).delivered && script(n).heard
    ensures var (t, exit) := Reconciled(s, base, expected, passed, ch, script, n);
            && exit == Done && t.landed == s.landed + [Landing(|s.store|, passed)] && s.store < t.store
            && t.store[|s.store|] == Commit(Apply(s.store[expected].tree, ch), expected)
  {
    var w := script(n);
    assert MovedAll(s, []) == s;
    var landed := Swapped(s, expected, passed, ch);
    MovesKeepOk(landed, w.between);
    PostKeepsOk(s, expected, passed, ch, w);
  }

  /** An attempt that gets no good answer, and then finds the branch where it expected it or not at all, ends the run in
      an error. */
  lemma LostAttemptEndsInError(s: Server, base: nat, expected: nat, passed: seq<Entry>, ch: Changes,
                               script: nat -> Weather, n: nat)
    requires ServerOk(s) && base < |s.store| && n < 3
    requires var w := script(n);
             && !(w.delivered && w.heard && MovedAll(s, w.before).head == expected)
             && (!w.located || AfterPost(s, expected, passed, ch, w).head == expected)
    ensures Reconciled(s, base, expected, passed, ch, script, n) ==
            (AfterPost(s, expected, passed, ch, script(n)), Error)
  {
    PostKeepsOk(s, expected, passed, ch, script(n));
  }

  /** Someone moves the branch before an attempt, which finds it elsewhere and the listing unsuspicious; the next one,
      if it comes through, lands the change set on the new head. */
  lemma RetargetsAndLands(s: Server, base: nat, passed: seq<Entry>, ch: Changes, script: nat -> Weather, n: nat,
                          m: Move, files: seq<Entry>)
    requires ServerOk(s) && base < |s.store| && n < 2 && script(n).before == [m] && script(n).between == []
    requires script(n).located && script(n).listing == Some(files) && !Suspicious(Some(files))
    requires var now := Moved(s, m);
             ServerOk(now) && s.store <= now.store && now.head != s.head
             && Truthful(now.store, base, now.head, files)
    requires script(n + 1).before == [] && script(n + 1).delivered && script(n + 1).heard
    ensures var now := Moved(s, m);
            var (t, exit) := Reconciled(s, base, s.head, passed, ch, script, n);
            && exit == Done && t.landed == s.landed + [Landing(|now.store|, files)] && now.store < t.store
            && t.store[|now.store|] == Commit(Apply(now.store[now.head].tree, ch), now.head)
  {
    var w, now := script(n), Moved(s, m);
    assert [m][..0] == [];
    assert MovedAll(s, []) == s && MovedAll(now, []) == now;
    assert MovedAll(s, [m]) == now;
    assert AfterPost(s, s.head, passed, ch, w) == now && PostOutcome(s, s.head, passed, ch, w) == Raced(now.head);
    QuietAttemptLands(now, base, now.head, files, ch, script, n + 1);
  }

  /** A push during the build that names no input is not lost: the artifacts land on top of it. */
  lemma OvertakenLandsOnTop(s: Server, base: nat, passed: seq<Entry>, ch: Changes, script: nat -> Weather, n: nat,
                            tree: Tree, files: seq<Entry>)
    requires ServerOk(s) && base < |s.store| && n < 2
    requires script(n).before == [Push(s.head, tree)] && script(n).between == []
    requires script(n).located && script(n).listing == Some(files) && |files| < 300
    requires forall j :: 0 <= j < |files| ==> !IsInput(files[j].filename)
    requires Truthful(s.store + [Commit(tree, s.head)], base, |s.store|, files)
    requires script(n + 1).before == [] && script(n + 1).delivered && script(n + 1).heard
    ensures var (t, exit) := Reconciled(s, base, s.head, passed, ch, script, n);
            && exit == Done && t.landed == s.landed + [Landing(|s.store| + 1, files)] && |t.store| > |s.store| + 1
            && t.store[|s.store|] == Commit(tree, s.head)
            && t.store[|s.store| + 1] == Commit(Apply(tree, ch), |s.store|)
  {
    RetargetsAndLands(s, base, passed, ch, script, n, Push(s.head, tree), files);
  }

  // ---- what every run keeps ----

  /** `x` is the change set committed on top of `parent`. */
  ghost predicate Lands(store: seq<Commit>, x: nat, parent: nat, ch: Changes)
  {
    parent < x < |store| && store[x] == Commit(Apply(store[parent].tree, ch), parent)
  }

  /** A head passes: it is the base itself, or a truthful listing from the merge base names no input. */
  ghost predicate Passes(store: seq<Commit>, base: nat, tip: nat, passed: seq<Entry>)
    requires Rooted(store) && base < |store| && tip < |store|
  {
    if tip == base && passed == [] then true
    else Truthful(store, base, tip, passed) && !Suspicious(Some(passed))
  }

  /** A landed commit is the change set on a head that passed. */
  ghost predicate LandedRight(store: seq<Commit>, l: Landing, base: nat, ch: Changes)
    requires Rooted(store) && base < |store|
  {
    && l.commit < |store| && Lands(store, l.commit, store[l.commit].parent, ch)
    && Passes(store, base, store[l.commit].parent, l.passed)
  }

  ghost predicate AllLandedRight(s: Server, base: nat, ch: Changes)
    requires ServerOk(s) && base < |s.store|
  {
    forall i :: 0 <= i < |s.landed| ==> LandedRight(s.store, s.landed[i], base, ch)
  }

  lemma PassesStays(store: seq<Commit>, more: seq<Commit>, base: nat, tip: nat, passed: seq<Entry>)
    requires Rooted(store) && Rooted(more) && store <= more && base < |store| && tip < |store|
    requires Passes(store, base, tip, passed)
    ensures Passes(more, base, tip, passed)
  {
    MergeBaseStays(store, more, base, tip);
  }

  lemma LandedRightStays(store: seq<Commit>, more: seq<Commit>, l: Landing, base: nat, ch: Changes)
    requires Rooted(store) && Rooted(more) && store <= more && base < |store| && LandedRight(store, l, base, ch)
    ensures LandedRight(more, l, base, ch)
  {
    PassesStays(store, more, base, store[l.commit].parent, l.passed);
  }

  lemma MovesKeepLanded(s: Server, ms: seq<Move>, base: nat, ch: Changes)
    requires ServerOk(s) && base < |s.store| && AllLandedRight(s, base, ch)
    ensures ServerOk(MovedAll(s, ms)) && base < |MovedAll(s, ms).store| && AllLandedRight(MovedAll(s, ms), base, ch)
  {
    MovesKeepOk(s, ms);
    var t := MovedAll(s, ms);
    forall i | 0 <= i < |t.landed|
      ensures LandedRight(t.store, t.landed[i], base, ch)
    {
      LandedRightStays(s.store, t.store, t.landed[i], base, ch);
    }
  }

  lemma SwapLandsRight(s: Server, expected: nat, passed: seq<Entry>, ch: Changes, base: nat)
    requires ServerOk(s) && base < |s.store| && expected < |s.store| && Passes(s.store, base, expected, passed)
    requires AllLandedRight(s, base, ch)
    ensures var t := Swapped(s, expected, passed, ch);
            ServerOk(t) && AllLandedRight(t, base, ch) && |t.landed| <= |s.landed| + 1
  {
    var t := Swapped(s, expected, passed, ch);
    if s.head == expected {
      PassesStays(s.store, t.store, base, expected, passed);
      forall i | 0 <= i < |t.landed|
        ensures LandedRight(t.store, t.landed[i], base, ch)
      {
        if i < |s.landed| { LandedRightStays(s.store, t.store, t.landed[i], base, ch); }
      }
    }
  }

  /** One attempt on a head that passed lands at most one commit, and lands it right, heard or not. */
  lemma PostLandsRight(s: Server, expected: nat, passed: seq<Entry>, ch: Changes, w: Weather, base: nat)
    requires ServerOk(s) && base < |s.store| && expected < |s.store| && Passes(s.store, base, expected, passed)
    requires AllLandedRight(s, base, ch)
    ensures var t := AfterPost(s, expected, passed, ch, w);
            && ServerOk(t) && s.store <= t.store && AllLandedRight(t, base, ch) && |t.landed| <= |s.landed| + 1
            && (PostOutcome(s, expected, passed, ch, w) == Committed ==> |t.landed| == |s.landed| + 1)
  {
    var asked := MovedAll(s, w.before);
    MovesKeepOk(s, w.before);
    MovesKeepLanded(s, w.before, base, ch);
    PassesStays(s.store, asked.store, base, expected, passed);
    SwapLandsRight(asked, expected, passed, ch, base);
    var answered := if w.delivered then Swapped(asked, expected, passed, ch) else asked;
    MovesKeepOk(answered, w.between);
    MovesKeepLanded(answered, w.between, base, ch);
  }

  /** From `s` at most `left` commits were landed to reach `t`, all of them right, and success was not reported for
      nothing. */
  ghost predicate EndsRight(s: Server, t: Server, exit: Exit, base: nat, ch: Changes, left: int)
    requires ServerOk(s) && base < |s.store|
  {
    && ServerOk(t) && s.store <= t.store && AllLandedRight(t, base, ch)
    && |s.landed| <= |t.landed| <= |s.landed| + left && (exit == Done ==> |t.landed| > |s.landed|)
  }

  lemma EndsRightEarlier(s: Server, s1: Server, t: Server, exit: Exit, base: nat, ch: Changes, left: int)
    requires ServerOk(s) && ServerOk(s1) && base < |s.store|
    requires EndsRight(s, s1, Error, base, ch, 1) && EndsRight(s1, t, exit, base, ch, left)
    ensures EndsRight(s, t, exit, base, ch, left + 1)
  {
  }

  /** What an attempt came to, as the end of a run. */
  lemma AttemptEndsRight(s: Server, expected: nat, passed: seq<Entry>, ch: Changes, w: Weather, base: nat, exit: Exit,
                         left: int)
    requires ServerOk(s) && base < |s.store| && expected < |s.store| && Passes(s.store, base, expected, passed)
    requires AllLandedRight(s, base, ch) && left >= 1
    requires exit == Done ==> PostOutcome(s, expected, passed, ch, w) == Committed
    ensures EndsRight(s, AfterPost(s, expected, passed, ch, w), exit, base, ch, left)
  {
    PostLandsRight(s, expected, passed, ch, w, base);
    PostKeepsOk(s, expected, passed, ch, w);
  }

  /** An attempt is overtaken, and nothing says that an input moved. */
  ghost predicate Retargets(s: Server, base: nat, expected: nat, passed: seq<Entry>, ch: Changes, w: Weather)
    requires ServerOk(s) && base < |s.store|
  {
    PostKeepsOk(s, expected, passed, ch, w);
    var s1 := AfterPost(s, expected, passed, ch, w);
    PostOutcome(s, expected, passed, ch, w).Raced? && !Suspicious(Answer(s1.store, base, s1.head, w.listing))
  }

  /** It is then followed by another, on the new head, which passed. */
  lemma GoesOn(s: Server, base: nat, expected: nat, passed: seq<Entry>, ch: Changes, script: nat -> Weather, n: nat)
    returns (got: seq<Entry>)
    requires ServerOk(s) && base < |s.store| && n < MAX_ATTEMPTS
    requires Retargets(s, base, expected, passed, ch, script(n))
    ensures var s1 := AfterPost(s, expected, passed, ch, script(n));
            && ServerOk(s1) && s.store <= s1.store && Passes(s1.store, base, s1.head, got)
            && Reconciled(s, base, expected, passed, ch, script, n)
               == Reconciled(s1, base, s1.head, got, ch, script, n + 1)
  {
    PostKeepsOk(s, expected, passed, ch, script(n));
    var s1 := AfterPost(s, expected, passed, ch, script(n));
    got := Answer(s1.store, base, s1.head, script(n).listing).value;
  }

  /** Otherwise it is the last, and done only if it was committed. */
  lemma Stops(s: Server, base: nat, expected: nat, passed: seq<Entry>, ch: Changes, script: nat -> Weather, n: nat)
    returns (exit: Exit)
    requires ServerOk(s) && base < |s.store| && n < MAX_ATTEMPTS
    requires !Retargets(s, base, expected, passed, ch, script(n))
    ensures Reconciled(s, base, expected, passed, ch, script, n) ==
            (AfterPost(s, expected, passed, ch, script(n)), exit)
    ensures exit == Done ==> PostOutcome(s, expected, passed, ch, script(n)) == Committed
  {
    PostKeepsOk(s, expected, passed, ch, script(n));
    exit := Reconciled(s, base, expected, passed, ch, script, n).1;
  }

  /** Whatever others do, whatever is lost: at most three commits land, each of them on a head that passed, and a run
      that reports success has landed one. */
  lemma {:induction false} EveryRunLandsRight(s: Server, base: nat, expected: nat, passed: seq<Entry>, ch: Changes,
                                              script: nat -> Weather, n: nat)
    requires ServerOk(s) && base < |s.store| && expected < |s.store| && n <= MAX_ATTEMPTS
    requires Passes(s.store, base, expected, passed) && AllLandedRight(s, base, ch)
    ensures var (t, exit) := Reconciled(s, base, expected, passed, ch, script, n);
            EndsRight(s, t, exit, base, ch, MAX_ATTEMPTS - n)
    decreases MAX_ATTEMPTS - n
  {
    var left := MAX_ATTEMPTS - n;
    if left == 0 {
      assert EndsRight(s, s, Busy, base, ch, left);
      return;
    }
    var w, s1 := script(n), AfterPost(s, expected, passed, ch, script(n));
    PostKeepsOk(s, expected, passed, ch, w);
    if Retargets(s, base, expected, passed, ch, w) {
      AttemptEndsRight(s, expected, passed, ch, w, base, Error, 1);
      var got := GoesOn(s, base, expected, passed, ch, script, n);
      EveryRunLandsRight(s1, base, s1.head, got, ch, script, n + 1);
      var (t, exit) := Reconciled(s1, base, s1.head, got, ch, script, n + 1);
      EndsRightEarlier(s, s1, t, exit, base, ch, left - 1);
    } else {
      var exit := Stops(s, base, expected, passed, ch, script, n);
      AttemptEndsRight(s, expected, passed, ch, w, base, exit, left);
    }
  }


  // ---- what landing means ----

  /** What a head that passed holds at an input: what the merge base holds, unless the listing renames it away. */
  lemma PassedInput(store: seq<Commit>, base: nat, tip: nat, passed: seq<Entry>, p: Path)
    requires Rooted(store) && base < |store| && tip < |store| && Passes(store, base, tip, passed) && IsInput(p)
    ensures var from := store[MergeBase(store, base, tip)].tree;
            && (GoneFrom(passed, p) ==> At(from, p) != None)
            && At(store[tip].tree, p) == if GoneFrom(passed, p) then None else At(from, p)
  {
    if tip != base || passed != [] {
      UnnamedInputs(passed, store[MergeBase(store, base, tip)].tree, store[tip].tree, p);
    }
  }

  /** At an input, the base holds what the head that passed does. */
  predicate Foreseen(store: seq<Commit>, base: nat, tip: nat, passed: seq<Entry>, p: Path)
    requires Rooted(store) && base < |store| && tip < |store|
  {
    At(store[base].tree, p) == if GoneFrom(passed, p) then None else At(store[MergeBase(store, base, tip)].tree, p)
  }

  /** When a head that passed has the inputs the artifacts were built from: exactly when the merge base has them, after
      what the listing renames away. */
  lemma RightInputsExactly(store: seq<Commit>, base: nat, tip: nat, passed: seq<Entry>)
    requires Rooted(store) && base < |store| && tip < |store| && Passes(store, base, tip, passed)
    ensures SameInputs(store[base].tree, store[tip].tree) <==>
            forall p :: IsInput(p) ==> Foreseen(store, base, tip, passed, p)
  {
    forall p | IsInput(p)
      ensures At(store[base].tree, p) == At(store[tip].tree, p) <==> Foreseen(store, base, tip, passed, p)
    {
      PassedInput(store, base, tip, passed, p);
    }
    if SameInputs(store[base].tree, store[tip].tree) {
      forall p | IsInput(p)
        ensures Foreseen(store, base, tip, passed, p)
      {
        assert At(store[base].tree, p) == At(store[tip].tree, p);
      }
    } else {
      var p :| IsInput(p) && At(store[base].tree, p) != At(store[tip].tree, p);
      assert !Foreseen(store, base, tip, passed, p);
    }
  }

  /** As long as the branch has not been forced off the base, a head that passed has the base's inputs if and only if
      the listing has no input among its old names. */
  lemma OnBranchExactly(store: seq<Commit>, base: nat, tip: nat, passed: seq<Entry>)
    requires Rooted(store) && base < |store| && tip < |store| && Passes(store, base, tip, passed)
    requires Ancestor(store, base, tip)
    ensures SameInputs(store[base].tree, store[tip].tree) <==> !HidesInput(passed)
  {
    AncestorIsMergeBase(store, base, tip);
    if HidesInput(passed) {
      var i :| 0 <= i < |passed| && passed[i].previous.Some? && IsInput(passed[i].previous.value);
      var p := passed[i].previous.value;
      assert GoneFrom(passed, p);
      PassedInput(store, base, tip, passed, p);
      assert At(store[base].tree, p) != At(store[tip].tree, p);
    } else {
      forall p | IsInput(p)
        ensures At(store[base].tree, p) == At(store[tip].tree, p)
      {
        PassedInput(store, base, tip, passed, p);
      }
    }
  }

  /** A change set that does not leave a tree as it was. */
  ghost predicate Effective(t: Tree, ch: Changes)
  {
    exists p :: p in ch && At(Apply(t, ch), p) != At(t, p)
  }

  /** Every commit landed on the right inputs holds, at every path a regeneration reads or writes, exactly what the
      build made of its base. */
  lemma LandedIsTheBuild(base: Tree, parent: Tree, ch: Changes)
    requires SameInputs(base, parent)
    ensures SameInputs(Apply(base, ch), Apply(parent, ch))
  {
    forall p | IsInput(p)
      ensures At(Apply(base, ch), p) == At(Apply(parent, ch), p)
    {
      ApplyAt(base, ch, p);
      ApplyAt(parent, ch, p);
    }
  }

  /** A head that still shows an effective change set at its paths does not pass for the base: the committer lands
      a second time only where someone took the first away. */
  lemma NeverOnTopOfItself(base: Tree, tip: Tree, ch: Changes)
    requires Effective(base, ch) && forall p :: p in ch ==> Admitted(p)
    requires forall p :: p in ch ==> At(tip, p) == At(Apply(base, ch), p)
    ensures !SameInputs(base, tip)
  {
    var p :| p in ch && At(Apply(base, ch), p) != At(base, p);
    AdmittedIsInput(p);
  }

  /** Where inputs agree, a change set that changes one tree changes the other. */
  lemma EffectiveThereToo(base: Tree, tip: Tree, ch: Changes)
    requires Effective(base, ch) && SameInputs(base, tip) && forall p :: p in ch ==> Admitted(p)
    ensures Effective(tip, ch)
  {
    if !Effective(tip, ch) {
      forall p | p in ch
        ensures At(tip, p) == At(Apply(base, ch), p)
      {
        ApplyAt(base, ch, p);
        ApplyAt(tip, ch, p);
      }
      NeverOnTopOfItself(base, tip, ch);
    }
  }

  /** What a landed commit amounts to when the branch was not forced off the base and no input was renamed away: its
      parent has the base's inputs, it is the build's result there, and it really changes its parent, so it is never on
      top of itself. */
  ghost predicate Sound(store: seq<Commit>, l: Landing, base: nat, ch: Changes)
    requires Rooted(store) && base < |store| && l.commit < |store| && store[l.commit].parent < |store|
  {
    var parent := store[l.commit].parent;
    Ancestor(store, base, parent) && !HidesInput(l.passed) ==>
      && SameInputs(store[base].tree, store[parent].tree)
      && SameInputs(Apply(store[base].tree, ch), store[l.commit].tree)
      && (Effective(store[base].tree, ch) ==> Effective(store[parent].tree, ch))
  }

  lemma LandedRightIsSound(store: seq<Commit>, l: Landing, base: nat, ch: Changes)
    requires Rooted(store) && base < |store| && LandedRight(store, l, base, ch)
    requires forall p :: p in ch ==> Admitted(p)
    ensures Sound(store, l, base, ch)
  {
    var parent := store[l.commit].parent;
    if Ancestor(store, base, parent) && !HidesInput(l.passed) {
      OnBranchExactly(store, base, parent, l.passed);
      LandedIsTheBuild(store[base].tree, store[parent].tree, ch);
      if Effective(store[base].tree, ch) { EffectiveThereToo(store[base].tree, store[parent].tree, ch); }
    }
  }

  // ---- two ways to land on other inputs ----

  const SOURCE: Path := "p4/l3fwd.p4"
  const ATTIC: Path := "attic/l3fwd.p4"

  /** Nothing is lost, and nobody else moves but once, before the first attempt; the comparison answers with the given
      listing. */
  function OneMove(m: Move, files: seq<Entry>): nat -> Weather
  {
    n => Weather(if n == 0 then [m] else [], true, [], true, true, Some(files))
  }

  /** Two commits, the second a change to an input. */
  const CHANGED: Server := Server([Commit(map[SOURCE := 1], 0), Commit(map[SOURCE := 2], 0)], 1, [])

  /** Artifacts built from the second commit land on the first, whose input is another, when the branch is forced back
      to it: from a merge base that is the head itself, a three-dot comparison sees no change. */
  lemma ForcedBackLandsWrong(ch: Changes)
    ensures ServerOk(CHANGED) && MergeBase(CHANGED.store, 1, 0) == 0
    ensures var (t, exit) := Reconciled(CHANGED, 1, 1, [], ch, OneMove(Force(0), []), 0);
            exit == Done && t.landed == [Landing(2, [])] && |t.store| > 2 && t.store[2].parent == 0
    ensures !SameInputs(CHANGED.store[1].tree, CHANGED.store[0].tree)
  {
    var s := CHANGED;
    assert s.store[0].parent == 0 && s.store[1].parent == 0;
    assert MergeBase(s.store, 0, 0) == 0 && MergeBase(s.store, 1, 0) == 0;
    RetargetsAndLands(s, 1, [], ch, OneMove(Force(0), []), 0, Force(0), []);
    SourceIsInput();
    assert At(s.store[1].tree, SOURCE) != At(s.store[0].tree, SOURCE);
  }

  /** One commit, with one input. */
  const FIRST: Server := Server([Commit(map[SOURCE := 1], 0)], 0, [])

  /** Someone pushes a commit that renames the input away, and the artifacts land on it: the listing shows the file
      under its new name, which is no input, and its old name is not looked at. */
  lemma RenamedInputLandsWrong(ch: Changes)
    ensures var files, away := [Entry(ATTIC, Some(SOURCE))], map[ATTIC := 1];
            && ServerOk(FIRST) && HidesInput(files)
            && var (t, exit) := Reconciled(FIRST, 0, 0, [], ch, OneMove(Push(0, away), files), 0);
               exit == Done && t.landed == [Landing(2, files)] && |t.store| > 2 && t.store[2].parent == 1
               && t.store[1] == Commit(away, 0)
    ensures !SameInputs(FIRST.store[0].tree, map[ATTIC := 1])
  {
    var s, files, away := FIRST, [Entry(ATTIC, Some(SOURCE))], map[ATTIC := 1];
    var store := s.store + [Commit(away, 0)];
    assert store[0].parent == 0 && store[1].parent == 0;
    assert MergeBase(store, 0, 0) == 0 && MergeBase(store, 0, 1) == 0;
    SourceIsInput();
    assert files[0].previous == Some(SOURCE) && NamedBy(files[0], SOURCE) && NamedBy(files[0], ATTIC);
    assert Truthful(store, 0, 1, files);
    RetargetsAndLands(s, 0, [], ch, OneMove(Push(0, away), files), 0, Push(0, away), files);
    assert At(s.store[0].tree, SOURCE) != At(away, SOURCE);
  }

  lemma SourceIsInput()
    ensures IsInput(SOURCE) && !IsInput(ATTIC) && SOURCE != ATTIC
  {
    assert SOURCE[..3] == "p4/";
    assert ATTIC[0] == 'a';
    assert "p4/"[0] == 'p' && "xtask/"[0] == 'x' && X4C_GENERATED[0] == 'c' && UBPF_GENERATED[0] == 'c';
  }

  // ---- the program ----

  class Remote {
    var s: Server

    constructor (s: Server)
      ensures this.s == s
    {
      this.s := s;
    }

    /** `passed` only goes on record. */
    method CreateCommit(expected: nat, passed: seq<Entry>, ch: Changes, w: Weather) returns (ok: bool)
      modifies this
      ensures s == AfterPost(old(s), expected, passed, ch, w)
      ensures ok <==> w.delivered && MovedAll(old(s), w.before).head == expected && w.heard
    {
      s := MovedAll(s, w.before);
      ok := w.delivered && s.head == expected && w.heard;
      s := if w.delivered then Swapped(s, expected, passed, ch) else s;
      s := MovedAll(s, w.between);
    }

    method BranchHead(w: Weather) returns (now: Option<nat>)
      ensures now == if w.located then Some(s.head) else None
    {
      now := if w.located then Some(s.head) else None;
    }

    method Compare(base: nat, tip: nat, w: Weather) returns (files: Option<seq<Entry>>)
      requires ServerOk(s) && base < |s.store| && tip < |s.store|
      ensures files == Answer(s.store, base, tip, w.listing)
    {
      files := Answer(s.store, base, tip, w.listing);
    }
  }

  /** Whether some input may have moved. Unknown counts as moved. */
  method InputsMoved(r: Remote, base: nat, tip: nat, w: Weather) returns (moved: bool, got: Option<seq<Entry>>)
    requires ServerOk(r.s) && base < |r.s.store| && tip < |r.s.store|
    ensures got == Answer(r.s.store, base, tip, w.listing) && (moved <==> Suspicious(got))
    ensures !moved ==> Passes(r.s.store, base, tip, got.value)
  {
    got := r.Compare(base, tip, w);
    if got.None? || |got.value| >= FULL_PAGE {
      return true, got;
    }
    for i := 0 to |got.value|
      invariant forall j :: 0 <= j < i ==> !IsInput(got.value[j].filename)
    {
      if IsInput(got.value[i].filename) {
        return true, got;
      }
    }
    return false, got;
  }

  /** A compare-and-swap and, if no good answer comes, a look at the branch. */
  method Post(r: Remote, expected: nat, passed: seq<Entry>, ch: Changes, w: Weather) returns (out: Outcome)
    modifies r
    ensures r.s == AfterPost(old(r.s), expected, passed, ch, w)
    ensures out == PostOutcome(old(r.s), expected, passed, ch, w)
  {
    var ok := r.CreateCommit(expected, passed, ch, w);
    if ok {
      return Committed;
    }
    var now := r.BranchHead(w);
    if now.Some? && now.value != expected {
      return Raced(now.value);
    }
    return Failed;
  }

  /** The retry loop. At most three attempts; every commit it lands, lost answers included, is the change set on a head
      that passed. */
  method Reconcile(r: Remote, base: nat, ch: Changes, script: nat -> Weather) returns (exit: Exit)
    requires ServerOk(r.s) && base < |r.s.store| && r.s.landed == [] && forall p :: p in ch ==> Admitted(p)
    modifies r
    ensures (r.s, exit) == Reconciled(old(r.s), base, base, [], ch, script, 0)
    ensures ServerOk(r.s) && old(r.s.store) <= r.s.store && AllLandedRight(r.s, base, ch)
    ensures |r.s.landed| <= 3 && (exit == Done ==> r.s.landed != [])
    ensures forall i :: 0 <= i < |r.s.landed| ==> Sound(r.s.store, r.s.landed[i], base, ch)
  {
    ghost var first := r.s;
    EveryRunLandsRight(first, base, base, [], ch, script, 0);
    exit := Attempts(r, base, ch, script);
    forall i | 0 <= i < |r.s.landed|
      ensures Sound(r.s.store, r.s.landed[i], base, ch)
    {
      assert LandedRight(r.s.store, r.s.landed[i], base, ch);
      LandedRightIsSound(r.s.store, r.s.landed[i], base, ch);
    }
  }

  method Attempts(r: Remote, base: nat, ch: Changes, script: nat -> Weather) returns (exit: Exit)
    requires ServerOk(r.s) && base < |r.s.store|
    modifies r
    ensures (r.s, exit) == Reconciled(old(r.s), base, base, [], ch, script, 0)
  {
    ghost var first := r.s;
    var expected: nat, passed: seq<Entry> := base, [];
    for n := 0 to MAX_ATTEMPTS
      invariant ServerOk(r.s) && base < |r.s.store|
      invariant Reconciled(r.s, base, expected, passed, ch, script, n) ==
                Reconciled(first, base, base, [], ch, script, 0)
    {
      PostKeepsOk(r.s, expected, passed, ch, script(n));
      var out := Post(r, expected, passed, ch, script(n));
      if out.Committed? {
        return Done;
      } else if out.Failed? {
        return Error;
      }
      var moved, got := InputsMoved(r, base, out.head, script(n));
      if moved {
        return Stale;
      }
      expected, passed := out.head, got.value;
    }
    return Busy;
  }
}
