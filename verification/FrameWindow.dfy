/** `FrameCtx` (crates/up4-engine/src/frame.rs): the window a pipeline gets on the front part of a receive slot. */
module FrameWindow {
  import opened Bits
  import opened Buckets

  const MIN_HEADROOM: nat := 64

  /** What a pipeline can do to a frame. */
  datatype FrameOp =
    | Store(at: nat, value: byte)       // through `frame_mut`
    | SetLen(n: nat)
    | Truncate(n: nat)
    | PushFront(n: nat)                 // the bytes exposed stay as they are
    | PopFront(n: nat)

  /** What a window's operations can reach: the bytes below its limit, and where the frame lies in them. */
  datatype Reach = Reach(bytes: seq<byte>, headroom: nat, len: nat)

  predicate Fits(w: Reach) { w.headroom + w.len <= |w.bytes| }

  function FrameOf(w: Reach): (f: seq<byte>)
    requires Fits(w)
    ensures |f| == w.len
  {
    w.bytes[w.headroom..w.headroom + w.len]
  }

  /** One operation; one that does not fit changes nothing. */
  function Step(w: Reach, op: FrameOp): (r: Reach)
    requires Fits(w)
    ensures Fits(r) && |r.bytes| == |w.bytes|
  {
    match op
    case Store(at, value) => if at < w.len then w.(bytes := w.bytes[w.headroom + at := value]) else w
    case SetLen(n) => if n <= |w.bytes| - w.headroom then w.(len := n) else w
    case Truncate(n) => if n < w.len then w.(len := n) else w
    case PushFront(n) => if n <= w.headroom then w.(headroom := w.headroom - n, len := w.len + n) else w
    case PopFront(n) => if n <= w.len then w.(headroom := w.headroom + n, len := w.len - n) else w
  }

  function Effect(w: Reach, ops: seq<FrameOp>): (r: Reach)
    requires Fits(w)
    ensures Fits(r) && |r.bytes| == |w.bytes|
  {
    if ops == [] then w else Step(Effect(w, ops[..|ops| - 1]), ops[|ops| - 1])
  }

  // ---- what lies in front of the frame ----

  /** Two windows that agree from the frame on, and perhaps nowhere before it. */
  ghost predicate SameBehind(v: Reach, w: Reach)
  {
    && Fits(v) && Fits(w) && |v.bytes| == |w.bytes| && v.headroom == w.headroom && v.len == w.len
    && forall i :: w.headroom <= i < |w.bytes| ==> v.bytes[i] == w.bytes[i]
  }

  function Below(n: nat): (s: set<nat>)
    ensures forall i: nat :: i in s <==> i < n
  {
    if n == 0 then {} else Below(n - 1) + {n - 1}
  }

  /** The places in front of the frame that a pipeline has not stored to. No byte of the window matters here. */
  function Unwritten(w: Reach, ops: seq<FrameOp>): (u: set<nat>)
    requires Fits(w)
    ensures forall i :: i in u ==> i < w.headroom
  {
    if ops == [] then Below(w.headroom)
    else
      var front, op := ops[..|ops| - 1], ops[|ops| - 1];
      var before := Effect(w, front);
      Unwritten(w, front) - if op.Store? && op.at < before.len then {before.headroom + op.at} else {}
  }

  /** Some place of the frame the pipeline leaves was exposed by encapsulation and never stored to. */
  ghost predicate Exposes(w: Reach, ops: seq<FrameOp>)
    requires Fits(w)
  {
    exists i :: i in Unwritten(w, ops) && InFrame(Effect(w, ops), i)
  }

  predicate InFrame(w: Reach, i: nat) { w.headroom <= i < w.headroom + w.len }

  /** What was never stored to is still there. */
  lemma {:induction false} UnwrittenStays(w: Reach, ops: seq<FrameOp>, i: nat)
    requires Fits(w) && i in Unwritten(w, ops)
    ensures i < |w.bytes| && Effect(w, ops).bytes[i] == w.bytes[i]
  {
    if ops != [] {
      UnwrittenStays(w, ops[..|ops| - 1], i);
    }
  }

  /** Windows of one shape that agree outside `hidden` still do after a step, which hides nothing more. */
  lemma AlikeAfterStep(v: Reach, w: Reach, op: FrameOp, hidden: set<nat>)
    requires Fits(v) && Fits(w) && |v.bytes| == |w.bytes| && v.headroom == w.headroom && v.len == w.len
    requires forall i: nat :: i < |w.bytes| && i !in hidden ==> v.bytes[i] == w.bytes[i]
    ensures Step(v, op).headroom == Step(w, op).headroom && Step(v, op).len == Step(w, op).len
    ensures forall i: nat ::
              i < |w.bytes| && (i !in hidden || (op.Store? && op.at < w.len && i == w.headroom + op.at)) ==>
              Step(v, op).bytes[i] == Step(w, op).bytes[i]
  {
  }

  /** Windows alike but for what lies in front develop alike but for what was never stored to. */
  lemma {:induction false} AlikeElsewhere(v: Reach, w: Reach, ops: seq<FrameOp>)
    requires SameBehind(v, w)
    ensures Unwritten(v, ops) == Unwritten(w, ops)
    ensures Effect(v, ops).headroom == Effect(w, ops).headroom && Effect(v, ops).len == Effect(w, ops).len
    ensures forall i: nat :: i < |w.bytes| && i !in Unwritten(w, ops) ==>
              Effect(v, ops).bytes[i] == Effect(w, ops).bytes[i]
  {
    if ops != [] {
      var front, op := ops[..|ops| - 1], ops[|ops| - 1];
      AlikeElsewhere(v, w, front);
      AlikeAfterStep(Effect(v, front), Effect(w, front), op, Unwritten(w, front));
    }
  }

  /** A different byte in an exposed place shows in the frame. */
  lemma ExposedShows(w: Reach, ops: seq<FrameOp>, i: nat) returns (v: Reach)
    requires Fits(w) && i in Unwritten(w, ops) && InFrame(Effect(w, ops), i)
    ensures SameBehind(v, w) && FrameOf(Effect(v, ops)) != FrameOf(Effect(w, ops))
  {
    v := w.(bytes := w.bytes[i := if w.bytes[i] == 0 then 1 else 0]);
    AlikeElsewhere(v, w, ops);
    UnwrittenStays(v, ops, i);
    UnwrittenStays(w, ops, i);
    FrameAt(Effect(v, ops), i);
    FrameAt(Effect(w, ops), i);
  }

  lemma FrameAt(w: Reach, i: nat)
    requires Fits(w) && InFrame(w, i)
    ensures FrameOf(w)[i - w.headroom] == w.bytes[i]
  {
  }

  lemma HiddenStays(v: Reach, w: Reach, ops: seq<FrameOp>)
    requires SameBehind(v, w) && !Exposes(w, ops)
    ensures FrameOf(Effect(v, ops)) == FrameOf(Effect(w, ops))
  {
    AlikeElsewhere(v, w, ops);
    var a, b := Effect(v, ops), Effect(w, ops);
    forall i: nat | InFrame(b, i)
      ensures a.bytes[i] == b.bytes[i]
    {
      assert i !in Unwritten(w, ops);
    }
    SameFrame(a, b);
  }

  /** The frame a pipeline leaves is the same whatever lies in front of the frame it was given if and only if the
      pipeline stores to every exposed place it leaves in the frame. */
  lemma HeadroomShowsExactly(w: Reach, ops: seq<FrameOp>)
    requires Fits(w)
    ensures (forall v :: SameBehind(v, w) ==> FrameOf(Effect(v, ops)) == FrameOf(Effect(w, ops))) <==> !Exposes(w, ops)
  {
    if Exposes(w, ops) {
      var i :| i in Unwritten(w, ops) && InFrame(Effect(w, ops), i);
      var v := ExposedShows(w, ops, i);
    } else {
      forall v | SameBehind(v, w)
        ensures FrameOf(Effect(v, ops)) == FrameOf(Effect(w, ops))
      {
        HiddenStays(v, w, ops);
      }
    }
  }

  lemma SameFrame(v: Reach, w: Reach)
    requires Fits(v) && Fits(w) && |v.bytes| == |w.bytes| && v.headroom == w.headroom && v.len == w.len
    requires forall i: nat :: InFrame(w, i) ==> v.bytes[i] == w.bytes[i]
    ensures FrameOf(v) == FrameOf(w)
  {
    forall k | 0 <= k < w.len
      ensures FrameOf(v)[k] == FrameOf(w)[k]
    {
      assert InFrame(w, w.headroom + k);
    }
  }

  /** At any window with bytes in front, a pipeline that encapsulates one byte and stores nothing sends what was
      there. */
  lemma UnfilledHeadroomShows(front: seq<byte>, frame: seq<byte>)
    requires front != []
    ensures var w := Reach(front + frame, |front|, |frame|);
            && Exposes(w, [PushFront(1)])
            && FrameOf(Effect(w, [PushFront(1)])) == [front[|front| - 1]] + frame
  {
    var w, ops := Reach(front + frame, |front|, |frame|), [PushFront(1)];
    assert ops[..0] == [];
    assert Effect(w, ops) == Step(w, PushFront(1));
    PushFrontOnFrame(w, 1);
    assert |front| - 1 in Unwritten(w, []) && |front| - 1 in Unwritten(w, ops);
    assert InFrame(Effect(w, ops), |front| - 1);
  }

  // ---- pipelines that choose as they go ----

  /** What a pipeline can see of its window: the frame, and how far it could grow either way. */
  datatype View = View(frame: seq<byte>, headroom: nat, capacity: nat)

  function ViewOf(w: Reach): View
    requires Fits(w)
  {
    View(FrameOf(w), w.headroom, |w.bytes| - w.headroom)
  }

  /** Everything seen on the way: the window as given, and after each operation. */
  function Views(w: Reach, ops: seq<FrameOp>): (vs: seq<View>)
    requires Fits(w)
    ensures |vs| == |ops| + 1
  {
    if ops == [] then [ViewOf(w)] else Views(w, ops[..|ops| - 1]) + [ViewOf(Effect(w, ops))]
  }

  /** The next operation, or none, from the occasion and everything seen so far. */
  type Strategy = (nat, seq<View>) -> Option<FrameOp>

  /** What a strategy does within `n` operations. */
  function Chosen(w: Reach, next: Strategy, k: nat, n: nat): (ops: seq<FrameOp>)
    requires Fits(w)
    ensures |ops| <= n
  {
    if n == 0 then []
    else
      var ops := Chosen(w, next, k, n - 1);
      var op := if |ops| < n - 1 then None else next(k, Views(w, ops));
      if op.None? then ops else ops + [op.value]
  }

  /** What a strategy leaves of a window. */
  function LeftBy(w: Reach, next: Strategy, k: nat, n: nat): (r: Reach)
    requires Fits(w)
    ensures Fits(r) && |r.bytes| == |w.bytes|
  {
    Effect(w, Chosen(w, next, k, n))
  }

  /** A view with the places never stored to left blank. */
  datatype Glimpse = Glimpse(frame: seq<Option<byte>>, headroom: nat, capacity: nat)

  function GlimpseOf(w: Reach, hidden: set<nat>): Glimpse
    requires Fits(w)
  {
    Glimpse(seq(w.len, i requires 0 <= i < w.len =>
              if w.headroom + i in hidden then None else Some(w.bytes[w.headroom + i])),
            w.headroom, |w.bytes| - w.headroom)
  }

  function Glimpses(w: Reach, ops: seq<FrameOp>): (gs: seq<Glimpse>)
    requires Fits(w)
    ensures |gs| == |ops| + 1
  {
    var g := GlimpseOf(Effect(w, ops), Unwritten(w, ops));
    if ops == [] then [g] else Glimpses(w, ops[..|ops| - 1]) + [g]
  }

  /** A choice that does not depend on bytes exposed and never stored to. */
  ghost predicate LooksOnlyAtWritten<R(!new)>(choice: (nat, seq<View>) -> R)
  {
    forall k, v, w, a, b {:trigger choice(k, Views(v, a)), choice(k, Views(w, b))} ::
      Fits(v) && Fits(w) && Glimpses(v, a) == Glimpses(w, b) ==> choice(k, Views(v, a)) == choice(k, Views(w, b))
  }

  lemma GlimpseAlike(v: Reach, w: Reach, hidden: set<nat>)
    requires Fits(v) && Fits(w) && |v.bytes| == |w.bytes| && v.headroom == w.headroom && v.len == w.len
    requires forall i: nat :: i < |w.bytes| && i !in hidden ==> v.bytes[i] == w.bytes[i]
    ensures GlimpseOf(v, hidden) == GlimpseOf(w, hidden)
  {
    assert GlimpseOf(v, hidden).frame == GlimpseOf(w, hidden).frame;
  }

  lemma {:induction false} GlimpsesAlike(v: Reach, w: Reach, ops: seq<FrameOp>)
    requires SameBehind(v, w)
    ensures Glimpses(v, ops) == Glimpses(w, ops)
  {
    AlikeElsewhere(v, w, ops);
    GlimpseAlike(Effect(v, ops), Effect(w, ops), Unwritten(w, ops));
    if ops != [] {
      GlimpsesAlike(v, w, ops[..|ops| - 1]);
    }
  }

  lemma NextAlike(v: Reach, w: Reach, next: Strategy, k: nat, ops: seq<FrameOp>)
    requires SameBehind(v, w) && LooksOnlyAtWritten(next)
    ensures next(k, Views(v, ops)) == next(k, Views(w, ops))
  {
    GlimpsesAlike(v, w, ops);
  }

  /** Two windows at which a strategy always chooses alike. */
  lemma {:induction false} ChosenAlike(v: Reach, w: Reach, next: Strategy, k: nat, n: nat)
    requires Fits(v) && Fits(w)
    requires forall ops {:trigger Views(v, ops)} :: next(k, Views(v, ops)) == next(k, Views(w, ops))
    ensures Chosen(v, next, k, n) == Chosen(w, next, k, n)
  {
    if n > 0 {
      ChosenAlike(v, w, next, k, n - 1);
      var ops := Chosen(w, next, k, n - 1);
      assert next(k, Views(v, ops)) == next(k, Views(w, ops));
    }
  }

  /** A strategy that looks only at written places does the same whatever lies in front of its frame. */
  lemma WrittenDecides(v: Reach, w: Reach, next: Strategy, k: nat, n: nat)
    requires SameBehind(v, w) && LooksOnlyAtWritten(next)
    ensures Chosen(v, next, k, n) == Chosen(w, next, k, n)
  {
    forall ops
      ensures next(k, Views(v, ops)) == next(k, Views(w, ops))
    {
      NextAlike(v, w, next, k, ops);
    }
    ChosenAlike(v, w, next, k, n);
  }

  /** The frame such a strategy leaves is the same whatever lies in front of its own if and only if it stores to every
      exposed place it leaves in the frame. */
  lemma StrategyShowsExactly(w: Reach, next: Strategy, k: nat, n: nat)
    requires Fits(w) && LooksOnlyAtWritten(next)
    ensures (forall v :: SameBehind(v, w) ==> FrameOf(LeftBy(v, next, k, n)) == FrameOf(LeftBy(w, next, k, n)))
            <==> !Exposes(w, Chosen(w, next, k, n))
  {
    var ops := Chosen(w, next, k, n);
    forall v | SameBehind(v, w)
      ensures LeftBy(v, next, k, n) == Effect(v, ops)
    {
      WrittenDecides(v, w, next, k, n);
    }
    HeadroomShowsExactly(w, ops);
    if !Exposes(w, ops) {
      forall v | SameBehind(v, w)
        ensures FrameOf(LeftBy(v, next, k, n)) == FrameOf(LeftBy(w, next, k, n))
      {
        HiddenStays(v, w, ops);
      }
    } else {
      var v :| SameBehind(v, w) && FrameOf(Effect(v, ops)) != FrameOf(Effect(w, ops));
      assert LeftBy(v, next, k, n) == Effect(v, ops);
    }
  }

  /** A strategy that encapsulates one byte and stops. */
  function PushesOne(k: nat, seen: seq<View>): Option<FrameOp>
  {
    if |seen| == 1 then Some(PushFront(1)) else None
  }

  lemma PushedOne(w: Reach, k: nat)
    requires Fits(w)
    ensures Chosen(w, PushesOne, k, 1) == [PushFront(1)]
  {
    assert Chosen(w, PushesOne, k, 0) == [] && |Views(w, [])| == 1;
  }

  /** A strategy that encapsulates one byte, reads it and stores it back. */
  function ReadsBack(k: nat, seen: seq<View>): Option<FrameOp>
  {
    if |seen| == 1 then Some(PushFront(1))
    else if |seen| == 2 && seen[1].frame != [] then Some(Store(0, seen[1].frame[0]))
    else None
  }

  lemma StoredBack(front: seq<byte>, frame: seq<byte>)
    requires front != []
    ensures var w, x := Reach(front + frame, |front|, |frame|), front[|front| - 1];
            var ops := [PushFront(1), Store(0, x)];
            !Exposes(w, ops) && FrameOf(Effect(w, ops)) == [x] + frame
  {
    var w, x := Reach(front + frame, |front|, |frame|), front[|front| - 1];
    var one, two := [PushFront(1)], [PushFront(1), Store(0, x)];
    assert one[..0] == [] && two[..1] == one;
    UnfilledHeadroomShows(front, frame);
    var pushed := Effect(w, one);
    assert pushed == Step(w, PushFront(1)) && Effect(w, two) == Step(pushed, Store(0, x));
    StoreSame(pushed, x);
    assert pushed.headroom == |front| - 1 && Unwritten(w, one) == Unwritten(w, []);
    assert Unwritten(w, two) == Unwritten(w, one) - {|front| - 1};
  }

  lemma StoreSame(w: Reach, x: byte)
    requires Fits(w) && w.len > 0 && FrameOf(w)[0] == x
    ensures Step(w, Store(0, x)) == w
  {
    assert w.bytes[w.headroom] == x;
    assert w.bytes[w.headroom := x] == w.bytes;
  }

  lemma ReadBackChosen(front: seq<byte>, frame: seq<byte>, k: nat)
    requires front != []
    ensures Chosen(Reach(front + frame, |front|, |frame|), ReadsBack, k, 2) ==
            [PushFront(1), Store(0, front[|front| - 1])]
  {
    var w, one := Reach(front + frame, |front|, |frame|), [PushFront(1)];
    assert one[..0] == [];
    UnfilledHeadroomShows(front, frame);
    assert Chosen(w, ReadsBack, k, 0) == [] && Views(w, []) == [ViewOf(w)];
    assert Chosen(w, ReadsBack, k, 1) == one && Views(w, one) == [ViewOf(w), ViewOf(Effect(w, one))];
  }

  /** Filling is not enough for a strategy that reads what it exposes: this one stores to every place it exposes, and
      sends the byte that lay in front all the same. */
  lemma ReadHeadroomShows(front: seq<byte>, frame: seq<byte>, k: nat)
    requires front != []
    ensures var w := Reach(front + frame, |front|, |frame|);
            && !Exposes(w, Chosen(w, ReadsBack, k, 2))
            && FrameOf(LeftBy(w, ReadsBack, k, 2)) == [front[|front| - 1]] + frame
  {
    ReadBackChosen(front, frame, k);
    StoredBack(front, frame);
  }

  /** So it does not look only at written places. */
  lemma ReadsBackLooks()
    ensures !LooksOnlyAtWritten(ReadsBack)
  {
    var v, w := Reach([1] + [], 1, 0), Reach([2] + [], 1, 0);
    ReadHeadroomShows([1], [], 0);
    ReadHeadroomShows([2], [], 0);
    assert SameBehind(v, w);
    assert FrameOf(LeftBy(v, ReadsBack, 0, 2))[0] != FrameOf(LeftBy(w, ReadsBack, 0, 2))[0];
    if LooksOnlyAtWritten(ReadsBack) {
      StrategyShowsExactly(w, ReadsBack, 0, 2);
    }
  }

  class FrameCtx {
    /** The slot; this window may touch `[0, limit)` and nothing past it. */
    const buf: array<byte>
    const limit: nat
    var headroom: nat
    var len: nat

    ghost predicate Valid()
      reads this
    {
      limit <= buf.Length && headroom + len <= limit
    }

    ghost function Now(): (w: Reach)
      requires Valid()
      reads this, buf
      ensures Fits(w)
    {
      Reach(buf[..limit], headroom, len)
    }

    constructor (buf: array<byte>, limit: nat, headroom: nat, len: nat)
      requires limit <= buf.Length && headroom + len <= limit
      ensures Valid() && this.buf == buf && this.limit == limit && Now() == Reach(buf[..limit], headroom, len)
    {
      this.buf, this.limit, this.headroom, this.len := buf, limit, headroom, len;
    }

    method Store(at: nat, value: byte) returns (ok: bool)
      requires Valid()
      modifies buf
      ensures Valid() && buf[limit..] == old(buf[limit..])
      ensures ok <==> at < len
      ensures Now() == Step(old(Now()), FrameOp.Store(at, value))
    {
      ok := at < len;
      if ok {
        buf[headroom + at] := value;
      }
    }

    method SetLen(n: nat) returns (ok: bool)
      requires Valid()
      modifies this
      ensures Valid()
      ensures ok <==> n <= limit - headroom
      ensures Now() == Step(old(Now()), FrameOp.SetLen(n))
    {
      ok := n <= limit - headroom;
      if ok {
        len := n;
      }
    }

    method Truncate(n: nat)
      requires Valid()
      modifies this
      ensures Valid()
      ensures Now() == Step(old(Now()), FrameOp.Truncate(n))
    {
      if n < len {
        len := n;
      }
    }

    method PushFront(n: nat) returns (ok: bool)
      requires Valid()
      modifies this
      ensures Valid()
      ensures ok <==> n <= old(headroom)
      ensures Now() == Step(old(Now()), FrameOp.PushFront(n))
    {
      ok := n <= headroom;
      if ok {
        headroom, len := headroom - n, len + n;
      }
    }

    method PopFront(n: nat) returns (ok: bool)
      requires Valid()
      modifies this
      ensures Valid()
      ensures ok <==> n <= old(len)
      ensures Now() == Step(old(Now()), FrameOp.PopFront(n))
    {
      ok := n <= len;
      if ok {
        headroom, len := headroom + n, len - n;
      }
    }

    /** One operation, whichever it is. */
    method Apply(op: FrameOp)
      requires Valid()
      modifies this, buf
      ensures Valid() && buf[limit..] == old(buf[limit..])
      ensures Now() == Step(old(Now()), op)
    {
      match op {
        case Store(at, value) => var _ := Store(at, value);
        case SetLen(n) => var _ := SetLen(n);
        case Truncate(n) => Truncate(n);
        case PushFront(n) => var _ := PushFront(n);
        case PopFront(n) => var _ := PopFront(n);
      }
    }

    method Look() returns (v: View)
      requires Valid()
      ensures v == ViewOf(Now())
    {
      assert buf[..limit][headroom..headroom + len] == buf[headroom..headroom + len];
      v := View(buf[headroom..headroom + len], headroom, limit - headroom);
    }

    /** Whatever a pipeline chooses to do stays inside the window's limit, and leaves what its operations say. */
    method Perform(next: Strategy, k: nat, n: nat) returns (seen: seq<View>)
      requires Valid()
      modifies this, buf
      ensures Valid() && buf[limit..] == old(buf[limit..])
      ensures Now() == LeftBy(old(Now()), next, k, n)
      ensures seen == Views(old(Now()), Chosen(old(Now()), next, k, n))
    {
      ghost var w, ops := Now(), [];
      var first := Look();
      seen := [first];
      for i := 0 to n
        invariant Valid() && buf[limit..] == old(buf[limit..])
        invariant ops == Chosen(w, next, k, i) && |ops| == i
        invariant Now() == Effect(w, ops) && seen == Views(w, ops)
      {
        var op := next(k, seen);
        if op.None? {
          ChosenStops(w, next, k, i, n);
          return;
        }
        Apply(op.value);
        assert (ops + [op.value])[..i] == ops;
        ops := ops + [op.value];
        var now := Look();
        seen := seen + [now];
      }
    }
  }

  /** Once a strategy stops it has stopped. */
  lemma {:induction false} ChosenStops(w: Reach, next: Strategy, k: nat, i: nat, n: nat)
    requires Fits(w) && i < n && |Chosen(w, next, k, i)| == i && next(k, Views(w, Chosen(w, next, k, i))).None?
    ensures Chosen(w, next, k, n) == Chosen(w, next, k, i)
  {
    if i + 1 < n {
      ChosenStops(w, next, k, i, n - 1);
    }
  }

  lemma Shorter(s: seq<byte>, h: nat, len: nat, n: nat)
    requires n <= len && h + len <= |s|
    ensures s[h..h + len][..n] == s[h..h + n] && s[h..h + len][n..] == s[h + n..h + len]
  {
  }

  /** The operations that shorten a frame, on the frame alone. */
  lemma ShorteningOnFrame(w: Reach, n: nat)
    requires Fits(w) && n <= w.len
    ensures FrameOf(Step(w, SetLen(n))) == FrameOf(w)[..n]
    ensures FrameOf(Step(w, Truncate(n))) == FrameOf(w)[..n]
    ensures FrameOf(Step(w, PopFront(n))) == FrameOf(w)[n..]
  {
    Shorter(w.bytes, w.headroom, w.len, n);
  }

  /** Storing changes one byte of the frame. */
  lemma StoreOnFrame(w: Reach, at: nat, value: byte)
    requires Fits(w) && at < w.len
    ensures FrameOf(Step(w, Store(at, value))) == FrameOf(w)[at := value]
  {
    var after := Step(w, Store(at, value));
    forall i | 0 <= i < w.len
      ensures FrameOf(after)[i] == FrameOf(w)[at := value][i]
    {
      FrameAt(after, w.headroom + i);
      FrameAt(w, w.headroom + i);
    }
  }

  /** Lengthening shows the bytes behind the frame. */
  lemma GrowingOnFrame(w: Reach, n: nat)
    requires Fits(w) && w.len <= n && w.headroom + n <= |w.bytes|
    ensures FrameOf(Step(w, SetLen(n))) == FrameOf(w) + w.bytes[w.headroom + w.len..w.headroom + n]
  {
  }

  /** What does not fit is refused and changes nothing; truncating to more is no change. */
  lemma RefusedOnFrame(w: Reach, n: nat, value: byte)
    requires Fits(w)
    ensures n >= w.len ==> Step(w, Store(n, value)) == w && Step(w, Truncate(n)) == w
    ensures n > w.len ==> Step(w, PopFront(n)) == w
    ensures n > w.headroom ==> Step(w, PushFront(n)) == w
    ensures w.headroom + n > |w.bytes| ==> Step(w, SetLen(n)) == w
  {
  }

  /** Encapsulation puts the bytes that lay in front of the frame into it and keeps the rest. */
  lemma PushFrontOnFrame(w: Reach, n: nat)
    requires Fits(w) && n <= w.headroom
    ensures FrameOf(Step(w, PushFront(n))) == w.bytes[w.headroom - n..w.headroom] + FrameOf(w)
  {
  }
}
