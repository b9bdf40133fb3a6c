/** Per-flow sequence accounting (crates/up4-wire/src/seq.rs). */
module Sequence {
  import opened Bits
  import opened Buckets

  const REORDER_WINDOW: nat := 1024
  const HALF: int := 0x8000_0000

  function Successor(s: u32): u32 { (s as int + 1) % WORD }

  /** The wrapped difference read as a signed 32-bit number. */
  function Delta(a: u32, b: u32): int
  {
    var d := (a as int - b) % WORD;
    if d >= HALF then d - WORD else d
  }

  datatype SeqEvent = InOrder | Gap(missing: nat) | Reorder

  /** How a number is classified, and the expectation it leaves. */
  function Classify(expected: Option<u32>, s: u32): (SeqEvent, u32)
  {
    if expected.None? then (InOrder, Successor(s))
    else
      var d := Delta(s, expected.value);
      if d == 0 then (InOrder, Successor(s))
      else if d > 0 then (Gap(d), Successor(s))
      else if -d <= REORDER_WINDOW then (Reorder, expected.value)
      else (Reorder, Successor(s))
  }

  class SeqTracker {
    var expected: Option<u32>

    constructor ()
      ensures expected == None
    {
      expected := None;
    }

    method Observe(s: u32) returns (event: SeqEvent)
      modifies this
      ensures expected.Some? && (event, expected.value) == Classify(old(expected), s)
    {
      if expected.None? {
        expected := Some(Successor(s));
        return InOrder;
      }
      var d := Delta(s, expected.value);
      if d == 0 {
        expected := Some(Successor(s));
        return InOrder;
      } else if d > 0 {
        expected := Some(Successor(s));
        return Gap(d);
      } else if -d <= REORDER_WINDOW {
        return Reorder;
      } else {
        expected := Some(Successor(s));
        return Reorder;
      }
    }
  }

  // ---- accounting over a whole flow ----

  /** A number before it wraps onto the wire. */
  function Wire(n: int): u32 { n % WORD }

  /** The receiver's counters after a stream of arrivals. */
  datatype Account = Account(expected: Option<u32>, gapTotal: nat, reorders: nat)

  function Tally(stream: seq<int>): Account
  {
    if stream == [] then Account(None, 0, 0)
    else
      var a := Tally(stream[..|stream| - 1]);
      var (event, expected) := Classify(a.expected, Wire(stream[|stream| - 1]));
      match event
      case InOrder => Account(Some(expected), a.gapTotal, a.reorders)
      case Gap(n) => Account(Some(expected), a.gapTotal + n, a.reorders)
      case Reorder => Account(Some(expected), a.gapTotal, a.reorders + 1)
  }

  /** One past the highest number seen. */
  function Highest(stream: seq<int>): int
    requires stream != []
  {
    var x := stream[|stream| - 1];
    if |stream| == 1 || x >= Highest(stream[..|stream| - 1]) then x + 1 else Highest(stream[..|stream| - 1])
  }

  /** The number the tracker expects, unwrapped: it follows arrivals forward, stays for one a little late, and starts
      over from one that is later than that. */
  function Tracked(stream: seq<int>): int
    requires stream != []
  {
    var x := stream[|stream| - 1];
    if |stream| == 1 then x + 1
    else
      var e := Tracked(stream[..|stream| - 1]);
      if x >= e || x < e - REORDER_WINDOW then x + 1 else e
  }

  /** Every arrival is nearer to the expectation than half the number space: on the wire, no other reading exists. */
  predicate Near(stream: seq<int>)
  {
    |stream| <= 1 ||
    (Near(stream[..|stream| - 1]) &&
     var e, x := Tracked(stream[..|stream| - 1]), stream[|stream| - 1];
     e - HALF <= x < e + HALF)
  }

  /** Numbers between the first and the highest that have not arrived. */
  ghost function Missing(stream: seq<int>): set<int>
    requires stream != []
  {
    set n: int | stream[0] <= n < Highest(stream) && n !in stream
  }

  /** Arrivals that cannot fill a hole: repeats, and numbers from before the first. */
  function Superfluous(stream: seq<int>): nat
  {
    if stream == [] then 0
    else
      var front, x := stream[..|stream| - 1], stream[|stream| - 1];
      Superfluous(front) + if x in front || x < stream[0] then 1 else 0
  }

  /** Numbers the tracker passes a second time: after it started over it is behind the highest number, and moving
      forward it counts the same ground again. */
  function Recounted(stream: seq<int>): int
  {
    if |stream| <= 1 then 0
    else
      var front, x := stream[..|stream| - 1], stream[|stream| - 1];
      var e, h := Tracked(front), Highest(front);
      Recounted(front) + if x >= h then h - e else if x >= e then x + 1 - e else 0
  }

  /** What the tracker makes of a number, by its true distance to the expectation. */
  lemma ClassifiedByDistance(e: int, x: int)
    requires e - 0x8000_0000 <= x < e + 0x8000_0000
    ensures Classify(Some(Wire(e)), Wire(x)) ==
            if x == e then (InOrder, Wire(x + 1))
            else if x > e then (Gap(x - e), Wire(x + 1))
            else if x >= e - 1024 then (Reorder, Wire(e))
            else (Reorder, Wire(x + 1))
    ensures Classify(None, Wire(x)) == (InOrder, Wire(x + 1))
  {
    DeltaUnwraps(x, e);
    SuccessorUnwraps(x);
  }

  /** The counters depend on the wire numbers alone. */
  lemma {:induction false} TallyOfWire(a: seq<int>, b: seq<int>)
    requires |a| == |b| && forall i :: 0 <= i < |a| ==> Wire(a[i]) == Wire(b[i])
    ensures Tally(a) == Tally(b)
  {
    if a != [] {
      TallyOfWire(a[..|a| - 1], b[..|b| - 1]);
    }
  }

  lemma DeltaUnwraps(x: int, e: int)
    requires e - HALF <= x < e + HALF
    ensures Delta(Wire(x), Wire(e)) == x - e
  {
  }

  lemma SuccessorUnwraps(x: int)
    ensures Successor(Wire(x)) == Wire(x + 1)
  {
  }

  lemma {:induction false} BelowHighest(stream: seq<int>, k: nat)
    requires k < |stream|
    ensures stream[k] < Highest(stream)
  {
    if k < |stream| - 1 {
      BelowHighest(stream[..|stream| - 1], k);
    }
  }

  /** The tracker classifies the last arrival by its true distance to the expectation. */
  lemma {:induction false} TallyTracks(stream: seq<int>)
    requires stream != [] && Near(stream)
    ensures Tally(stream).expected == Some(Wire(Tracked(stream)))
    ensures |stream| > 1 ==>
              var before, e, x := Tally(stream[..|stream| - 1]), Tracked(stream[..|stream| - 1]), stream[|stream| - 1];
              && Tally(stream).gapTotal == before.gapTotal + (if x > e then x - e else 0)
              && Tally(stream).reorders == before.reorders + (if x < e then 1 else 0)
  {
    var front, x := stream[..|stream| - 1], stream[|stream| - 1];
    SuccessorUnwraps(x);
    if front != [] {
      TallyTracks(front);
      DeltaUnwraps(x, Tracked(front));
    }
  }

  /** On every stream, across any number of wraps and however late an arrival: the gap total less the reorder count
      is the number still missing, corrected for superfluous arrivals and for ground counted twice. */
  lemma {:induction false} GapsCountLosses(stream: seq<int>)
    requires stream != [] && Near(stream)
    ensures Tally(stream).gapTotal - Tally(stream).reorders + Superfluous(stream) ==
            |Missing(stream)| + Recounted(stream)
  {
    var front, x := stream[..|stream| - 1], stream[|stream| - 1];
    TallyTracks(stream);
    if front == [] {
      OneArrival(x);
      assert stream == [x];
    } else {
      GapsCountLosses(front);
      TrackedBelowHighest(front);
      assert stream == front + [x];
      if x >= Highest(front) {
        MissingAhead(front, x);
      } else {
        MissingBehind(front, x);
      }
    }
  }

  lemma OneArrival(x: int)
    ensures Tally([x]).gapTotal == 0 == Tally([x]).reorders && Superfluous([x]) == 0 && Missing([x]) == {}
  {
    assert [x][..0] == [];
    assert Tally([]) == Account(None, 0, 0) && Superfluous([]) == 0;
  }

  lemma {:induction false} TrackedBelowHighest(stream: seq<int>)
    requires stream != []
    ensures Tracked(stream) <= Highest(stream)
  {
    if |stream| > 1 {
      TrackedBelowHighest(stream[..|stream| - 1]);
    }
  }

  lemma ArrivedBelow(stream: seq<int>, n: int)
    requires n in stream
    ensures n < Highest(stream)
  {
    var k :| 0 <= k < |stream| && stream[k] == n;
    BelowHighest(stream, k);
  }

  /** A number past the highest opens a hole for everything it skipped. */
  lemma MissingAhead(front: seq<int>, x: int)
    requires front != [] && x >= Highest(front)
    ensures |Missing(front + [x])| == |Missing(front)| + x - Highest(front)
    ensures x !in front && x >= front[0]
  {
    var h, stream := Highest(front), front + [x];
    assert stream[..|stream| - 1] == front;
    BelowHighest(front, 0);
    forall n: int | n in front
      ensures n < h
    {
      ArrivedBelow(front, n);
    }
    var hole := Span(h, x);
    forall n: int
      ensures n in Missing(stream) <==> n in Missing(front) || n in hole
    {
      assert n in stream <==> n in front || n == x;
    }
    assert Missing(stream) == Missing(front) + hole && Missing(front) !! hole;
  }

  /** A number below the highest fills its hole, if it has one. */
  lemma MissingBehind(front: seq<int>, x: int)
    requires front != [] && x < Highest(front)
    ensures |Missing(front + [x])| == |Missing(front)| - (if x in front || x < front[0] then 0 else 1)
  {
    var stream := front + [x];
    assert stream[..|stream| - 1] == front;
    assert Missing(stream) == Missing(front) - {x};
  }

  /** The numbers in `[lo, hi)`, of which there are `hi - lo`. */
  ghost function Span(lo: int, hi: int): (s: set<int>)
    requires lo <= hi
    ensures forall n: int :: n in s <==> lo <= n < hi
    ensures |s| == hi - lo
    decreases hi - lo
  {
    if lo == hi then {} else Span(lo, hi - 1) + {hi - 1}
  }

  /** The counters alone count the losses exactly when what was superfluous and what was counted twice cancel. */
  lemma ExactCount(stream: seq<int>)
    requires stream != [] && Near(stream)
    ensures Tally(stream).gapTotal - Tally(stream).reorders == |Missing(stream)| <==>
              Superfluous(stream) == Recounted(stream)
  {
    GapsCountLosses(stream);
  }

  // ---- any stream of wire numbers ----

  /** Wire numbers, each read as the nearest number to the expectation. */
  function Unwrapped(ws: seq<u32>): (us: seq<int>)
    ensures |us| == |ws|
  {
    if ws == [] then []
    else
      var front, w := Unwrapped(ws[..|ws| - 1]), ws[|ws| - 1];
      front + [Nearest(front, w)]
  }

  /** The number a wire number stands for after `front`. */
  function Nearest(front: seq<int>, w: u32): int
  {
    if front == [] then w else Tracked(front) + Delta(w, Wire(Tracked(front)))
  }

  lemma NearestReads(front: seq<int>, w: u32)
    requires Near(front)
    ensures Wire(Nearest(front, w)) == w && Near(front + [Nearest(front, w)])
  {
    if front == [] { WireTwice(w); } else { WireOfNearest(w, Tracked(front)); }
    NearGrows(front, Nearest(front, w));
  }

  lemma WireOfNearest(w: u32, e: int)
    ensures Wire(e + Delta(w, Wire(e))) == w && -HALF <= Delta(w, Wire(e)) < HALF
  {
  }

  lemma NearGrows(front: seq<int>, x: int)
    requires Near(front) && (front != [] ==> Tracked(front) - HALF <= x < Tracked(front) + HALF)
    ensures Near(front + [x])
  {
    assert (front + [x])[..|front|] == front;
  }

  lemma {:induction false} UnwrappedReads(ws: seq<u32>)
    ensures ReadsNear(ws, Unwrapped(ws))
  {
    if ws == [] {
      assert Unwrapped(ws) == [];
    } else {
      var before, w := ws[..|ws| - 1], ws[|ws| - 1];
      var front := Unwrapped(before);
      UnwrappedReads(before);
      OneMoreRead(before, front, w);
      assert ws == before + [w] && Unwrapped(ws) == front + [Nearest(front, w)];
    }
  }

  lemma OneMoreRead(ws: seq<u32>, us: seq<int>, w: u32)
    requires ReadsNear(ws, us)
    ensures ReadsNear(ws + [w], us + [Nearest(us, w)])
  {
    NearestReads(us, w);
    ReadsAsGrows(ws, us, w, Nearest(us, w));
  }

  /** The wire form of the numbers `us`. */
  ghost predicate ReadsAs(ws: seq<u32>, us: seq<int>)
  {
    |ws| == |us| && forall i :: 0 <= i < |ws| ==> Wire(us[i]) == ws[i]
  }

  ghost predicate ReadsNear(ws: seq<u32>, us: seq<int>) { Near(us) && ReadsAs(ws, us) }

  lemma ReadsAsGrows(ws: seq<u32>, us: seq<int>, w: u32, x: int)
    requires ReadsAs(ws, us) && Wire(x) == w
    ensures ReadsAs(ws + [w], us + [x])
  {
  }

  lemma WireTwice(w: u32)
    ensures Wire(w) == w
  {
  }

  /** The law of `GapsCountLosses` holds of every stream of 32-bit numbers the tracker can be given, with no condition
      on it, when the numbers are read as the tracker reads them. */
  lemma EveryStreamCounts(ws: seq<u32>)
    requires ws != []
    ensures var us := Unwrapped(ws);
            && Tally(ws) == Tally(us)
            && Tally(ws).gapTotal - Tally(ws).reorders + Superfluous(us) == |Missing(us)| + Recounted(us)
  {
    UnwrappedReads(ws);
    forall i | 0 <= i < |ws|
      ensures Wire(ws[i]) == Wire(Unwrapped(ws)[i])
    {
      WireTwice(ws[i]);
    }
    TallyOfWire(ws, Unwrapped(ws));
    GapsCountLosses(Unwrapped(ws));
  }

  // ---- steady streams ----

  /** Every arrival after the first is less than 2^31 ahead of, and at most the window behind, the highest. */
  predicate Steady(stream: seq<int>)
  {
    |stream| <= 1 ||
    (Steady(stream[..|stream| - 1]) &&
     var h, x := Highest(stream[..|stream| - 1]), stream[|stream| - 1];
     h - REORDER_WINDOW <= x < h + HALF)
  }

  /** On a steady stream the tracker never starts over, so nothing is counted twice. */
  lemma {:induction false} SteadyRecountsNothing(stream: seq<int>)
    requires stream != [] && Steady(stream)
    ensures Near(stream) && Tracked(stream) == Highest(stream) && Recounted(stream) == 0
  {
    if |stream| > 1 {
      SteadyRecountsNothing(stream[..|stream| - 1]);
    }
  }

  /** A steady stream's counters alone count its losses exactly when no arrival was superfluous. */
  lemma ExactWhenNothingSuperfluous(stream: seq<int>)
    requires stream != [] && Steady(stream)
    ensures Tally(stream).gapTotal - Tally(stream).reorders == |Missing(stream)| <==> Superfluous(stream) == 0
  {
    SteadyRecountsNothing(stream);
    ExactCount(stream);
  }

  /** Nothing is superfluous exactly when the numbers are distinct and none precedes the first. */
  lemma {:induction false} SuperfluousMeaning(stream: seq<int>)
    ensures Superfluous(stream) == 0 <==>
              && (forall i, j :: 0 <= i < j < |stream| ==> stream[i] != stream[j])
              && (forall i :: 0 <= i < |stream| ==> stream[0] <= stream[i])
  {
    if stream != [] {
      var front := stream[..|stream| - 1];
      SuperfluousMeaning(front);
    }
  }

  /** A stream on which the counters overstate the losses: distinct numbers, none before the first, one of them far
      enough behind to make the tracker start over. */
  lemma StartingOverOverstates()
    ensures var stream := [0, 5000, 1, 5001];
            && Near(stream) && Superfluous(stream) == 0 && Recounted(stream) == 4999
            && Tally(stream).gapTotal - Tally(stream).reorders == |Missing(stream)| + 4999
  {
    var a, b, c, d := [0], [0, 5000], [0, 5000, 1], [0, 5000, 1, 5001];
    assert b[..1] == a && c[..2] == b && d[..3] == c;
    assert Tracked(a) == 1 == Highest(a);
    assert Tracked(b) == 5001 == Highest(b);
    assert Tracked(c) == 2 && Highest(c) == 5001;
    assert Near(a) && Near(b) && Near(c) && Near(d);
    assert Recounted(a) == 0 && Recounted(b) == 0 && Recounted(c) == 0;
    SuperfluousMeaning(d);
    GapsCountLosses(d);
  }
}
