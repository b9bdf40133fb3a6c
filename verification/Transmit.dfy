/** Transmit staging and its partition into segmented writes (crates/up4-io/src/tx.rs). */
module Transmit {
  import opened Bits
  import opened Buckets
  import opened Overlay

  const TX_BATCH: nat := 64
  const GSO_MAX_BYTES: nat := 65535 - 20 - 8

  type Segment = seq<byte>

  function Sum(lens: seq<nat>): nat
  {
    if lens == [] then 0 else Sum(lens[..|lens| - 1]) + lens[|lens| - 1]
  }

  lemma {:induction false} SumAppend(a: seq<nat>, b: seq<nat>)
    ensures Sum(a + b) == Sum(a) + Sum(b)
  {
    if b == [] {
      assert a + b == a;
    } else {
      SumAppend(a, b[..|b| - 1]);
      assert (a + b)[..|a + b| - 1] == a + b[..|b| - 1];
    }
  }

  lemma SumSlice(lens: seq<nat>, i: nat, j: nat)
    requires i <= j <= |lens|
    ensures Sum(lens[..j]) == Sum(lens[..i]) + Sum(lens[i..j])
  {
    SumAppend(lens[..i], lens[i..j]);
    assert lens[..j] == lens[..i] + lens[i..j];
  }

  // ---- runs ----

  /** Bounds on one segmented write: how many segments, how many bytes. */
  datatype Limits = Limits(maxSegments: nat, maxBytes: nat)

  /** What one segmented write may carry: equal lengths with an optional shorter last, at most the segment
      limit, at most the byte limit unless it is a single segment. */
  predicate Legal(r: seq<nat>, lim: Limits)
  {
    && 0 < |r| <= lim.maxSegments
    && (forall i :: 0 <= i < |r| - 1 ==> r[i] == r[0])
    && r[|r| - 1] <= r[0]
    && (|r| == 1 || Sum(r) <= lim.maxBytes)
  }

  /** A write of `k` equal segments and a last one that may be shorter. */
  lemma UniformLegal(n: nat, k: nat, last: nat, lim: Limits)
    requires k > 0
    ensures Legal(seq(k, _ => n) + [last], lim) <==> k < lim.maxSegments && last <= n && k * n + last <= lim.maxBytes
  {
    var r := seq(k, _ => n) + [last];
    SumUniform(n, k);
    assert r[..k] == seq(k, _ => n);
  }

  lemma {:induction false} SumUniform(n: nat, k: nat)
    ensures Sum(seq(k, _ => n)) == k * n
  {
    if k > 0 {
      SumUniform(n, k - 1);
      assert seq(k, _ => n)[..k - 1] == seq(k - 1, _ => n);
      assert k * n == (k - 1) * n + n;
    }
  }

  /** A longer or an early shorter segment ends a write, and a lone segment of any length is one. */
  lemma UnevenIllegal(a: nat, b: nat, c: nat, lim: Limits)
    ensures Legal([a], lim) <==> lim.maxSegments > 0
    ensures a < b ==> !Legal([a, b], lim)
    ensures b < a ==> !Legal([a, b, c], lim)
  {
    var r := [a, b, c];
    assert r[0] == a && r[1] == b;
  }

  lemma LegalPrefix(r: seq<nat>, m: nat, lim: Limits)
    requires Legal(r, lim) && 0 < m <= |r|
    ensures Legal(r[..m], lim)
  {
    SumSlice(r, m, |r|);
    assert r[..|r|] == r;
  }

  lemma LegalSuffix(r: seq<nat>, m: nat, lim: Limits)
    requires Legal(r, lim) && m < |r|
    ensures Legal(r[m..], lim)
  {
    SumSlice(r, m, |r|);
    assert r[..|r|] == r && r[m..|r|] == r[m..];
  }

  /** The write between two consecutive cut points is legal. */
  ghost predicate WriteAt(lens: seq<nat>, cuts: seq<nat>, lim: Limits, k: nat)
    requires k + 1 < |cuts|
  {
    cuts[k] < cuts[k + 1] <= |lens| && Legal(lens[cuts[k]..cuts[k + 1]], lim)
  }

  /** Cut points of a partition of `lens` into legal writes. */
  ghost predicate IsPartition(lens: seq<nat>, cuts: seq<nat>, lim: Limits)
  {
    && cuts != [] && cuts[0] == 0 && cuts[|cuts| - 1] == |lens|
    && forall k: nat :: k + 1 < |cuts| ==> WriteAt(lens, cuts, lim, k)
  }

  /** No legal write starting at `from` reaches past `to`. */
  ghost predicate Furthest(lens: seq<nat>, from: nat, to: nat, lim: Limits)
  {
    forall m :: to < m <= |lens| && from < m ==> !Legal(lens[from..m], lim)
  }

  ghost predicate Greedy(lens: seq<nat>, cuts: seq<nat>, lim: Limits)
  {
    && IsPartition(lens, cuts, lim)
    && forall k: nat :: k + 1 < |cuts| ==> Furthest(lens, cuts[k], cuts[k + 1], lim)
  }

  /** A legal write that starts no later than a furthest-reaching one ends no later. */
  lemma CannotOvertake(lens: seq<nat>, a: nat, b: nat, from: nat, to: nat, lim: Limits)
    requires a < b <= |lens| && Legal(lens[a..b], lim)
    requires a <= from <= to <= |lens| && Furthest(lens, from, to, lim)
    ensures b <= to
  {
    if from < b {
      LegalSuffix(lens[a..b], from - a, lim);
      assert lens[a..b][from - a..] == lens[from..b];
    }
  }

  lemma {:induction false} GreedyStaysAhead(lens: seq<nat>, g: seq<nat>, q: seq<nat>, lim: Limits, k: nat)
    requires Greedy(lens, g, lim) && IsPartition(lens, q, lim)
    requires k < |g| && k < |q|
    ensures q[k] <= g[k]
  {
    if k > 0 {
      GreedyStaysAhead(lens, g, q, lim, k - 1);
      assert WriteAt(lens, q, lim, k - 1) && WriteAt(lens, g, lim, k - 1);
      CannotOvertake(lens, q[k - 1], q[k], g[k - 1], g[k], lim);
    }
  }

  lemma EndIsLast(lens: seq<nat>, cuts: seq<nat>, lim: Limits, k: nat)
    requires IsPartition(lens, cuts, lim) && k < |cuts|
    ensures cuts[k] <= |lens|
    ensures cuts[k] == |lens| ==> k == |cuts| - 1
  {
    if k + 1 < |cuts| {
      assert WriteAt(lens, cuts, lim, k);
    }
  }

  /** The greedy partition uses the fewest writes of any legal partition. */
  lemma GreedyIsOptimal(lens: seq<nat>, g: seq<nat>, q: seq<nat>, lim: Limits)
    requires Greedy(lens, g, lim) && IsPartition(lens, q, lim)
    ensures |g| <= |q|
  {
    if |q| <= |g| {
      GreedyStaysAhead(lens, g, q, lim, |q| - 1);
      EndIsLast(lens, g, lim, |q| - 1);
    }
  }

  /** When a uniform run may take one more segment. */
  lemma OneMore(lens: seq<nat>, first: nat, next: nat, lim: Limits)
    requires first <= next < |lens| && next - first < lim.maxSegments
    requires forall i :: first <= i < next ==> lens[i] == lens[first]
    ensures Sum(lens[..next + 1]) == Sum(lens[..next]) + lens[next]
    ensures Sum(lens[..next + 1]) >= Sum(lens[..first])
    ensures Legal(lens[first..next + 1], lim) <==>
              && lens[next] <= lens[first]
              && (next == first || Sum(lens[..next + 1]) - Sum(lens[..first]) <= lim.maxBytes)
  {
    assert lens[..next + 1][..next] == lens[..next];
    SumSlice(lens, first, next + 1);
    var r := lens[first..next + 1];
    assert r[0] == lens[first] && r[|r| - 1] == lens[next];
    assert forall i :: 0 <= i < |r| - 1 ==> r[i] == lens[first + i];
  }

  /** A shorter segment ends the run it joins. */
  lemma ShortEnds(lens: seq<nat>, first: nat, next: nat, lim: Limits)
    requires first < next < |lens| && lens[next - 1] != lens[first]
    ensures !Legal(lens[first..next + 1], lim)
  {
    var r := lens[first..next + 1];
    assert r[next - 1 - first] != r[0];
  }

  /** If one more segment makes a write illegal, so do more. */
  lemma NothingFurther(lens: seq<nat>, from: nat, to: nat, lim: Limits)
    requires from < to < |lens| && !Legal(lens[from..to + 1], lim)
    ensures Furthest(lens, from, to, lim)
  {
    forall m | to < m <= |lens|
      ensures !Legal(lens[from..m], lim)
    {
      assert lens[from..m][..to + 1 - from] == lens[from..to + 1];
      if Legal(lens[from..m], lim) {
        LegalPrefix(lens[from..m], to + 1 - from, lim);
      }
    }
  }

  /** One span of a staging buffer. */
  datatype Run = Run(start: nat, end: nat, count: nat, segmentSize: nat)

  /** Grow a run from `first`, starting at byte `start`, until a limit or a length stops it. */
  method TakeRun(lens: seq<nat>, lim: Limits, first: nat, start: nat) returns (next: nat, offset: nat)
    requires first < |lens| && lim.maxSegments > 0 && start == Sum(lens[..first])
    ensures first < next <= |lens| && offset == Sum(lens[..next])
    ensures Legal(lens[first..next], lim) && Furthest(lens, first, next, lim)
  {
    next, offset := first, start;
    var segmentSize := lens[first];
    var count := 0;
    while count < lim.maxSegments
      invariant first <= next <= |lens| && next == first + count && count <= lim.maxSegments
      invariant offset == Sum(lens[..next])
      invariant forall i :: first <= i < next ==> lens[i] == segmentSize
      invariant count > 0 ==> Legal(lens[first..next], lim)
    {
      if next == |lens| {
        break;
      }
      var len := lens[next];
      OneMore(lens, first, next, lim);
      if count > 0 && offset - start + len > lim.maxBytes {
        NothingFurther(lens, first, next, lim);
        break;
      }
      if len > segmentSize {
        NothingFurther(lens, first, next, lim);
        break;
      }
      offset := offset + len;
      next := next + 1;
      count := count + 1;
      if len < segmentSize {
        if next < |lens| {
          ShortEnds(lens, first, next, lim);
          NothingFurther(lens, first, next, lim);
        }
        break;
      }
    }
  }

  class Runs {
    const lens: seq<nat>
    const lim: Limits
    var next: nat
    var offset: nat

    ghost predicate Valid()
      reads this
    {
      lim.maxSegments > 0 && next <= |lens| && offset == Sum(lens[..next])
    }

    constructor (lens: seq<nat>, maxSegments: nat)
      ensures Valid() && next == 0 && this.lens == lens
      ensures lim == Limits(if maxSegments == 0 then 1 else maxSegments, GSO_MAX_BYTES)
    {
      this.lens, lim := lens, Limits(if maxSegments == 0 then 1 else maxSegments, GSO_MAX_BYTES);
      next, offset := 0, 0;
    }

    /** The next span: a legal write that cannot be extended. */
    method Next() returns (run: Option<Run>)
      requires Valid()
      modifies this
      ensures Valid()
      ensures run.None? <==> old(next) == |lens|
      ensures run.None? ==> next == old(next)
      ensures run.Some? ==>
                && next == old(next) + run.value.count <= |lens|
                && Legal(lens[old(next)..next], lim) && Furthest(lens, old(next), next, lim)
                && run.value.start == old(offset) && run.value.end == offset
                && run.value.segmentSize == lens[old(next)]
    {
      if next == |lens| {
        return None;
      }
      var first, start := next, offset;
      next, offset := TakeRun(lens, lim, first, start);
      return Some(Run(start, offset, next - first, lens[first]));
    }
  }

  // ---- bytes and segments ----

  function Flatten<T>(segs: seq<seq<T>>): seq<T>
  {
    if segs == [] then [] else Flatten(segs[..|segs| - 1]) + segs[|segs| - 1]
  }

  function Lengths(segs: seq<Segment>): (lens: seq<nat>)
    ensures |lens| == |segs|
  {
    seq(|segs|, i requires 0 <= i < |segs| => |segs[i]|)
  }

  lemma {:induction false} FlattenAppend<T>(a: seq<seq<T>>, b: seq<seq<T>>)
    ensures Flatten(a + b) == Flatten(a) + Flatten(b)
  {
    if b == [] {
      assert a + b == a;
    } else {
      FlattenAppend(a, b[..|b| - 1]);
      assert (a + b)[..|a + b| - 1] == a + b[..|b| - 1];
    }
  }

  lemma {:induction false} FlattenLength(segs: seq<Segment>)
    ensures |Flatten(segs)| == Sum(Lengths(segs))
  {
    if segs != [] {
      FlattenLength(segs[..|segs| - 1]);
      assert Lengths(segs)[..|segs| - 1] == Lengths(segs[..|segs| - 1]);
    }
  }

  /** The bytes between two segment boundaries are those segments. */
  lemma FlattenSlice(segs: seq<Segment>, i: nat, j: nat)
    requires i <= j <= |segs|
    ensures Sum(Lengths(segs)[..i]) <= Sum(Lengths(segs)[..j]) <= |Flatten(segs)|
    ensures Flatten(segs)[Sum(Lengths(segs)[..i])..Sum(Lengths(segs)[..j])] == Flatten(segs[i..j])
  {
    assert segs == segs[..i] + segs[i..j] + segs[j..];
    FlattenAppend(segs[..i], segs[i..j]);
    FlattenAppend(segs[..i] + segs[i..j], segs[j..]);
    FlattenLength(segs[..i]);
    FlattenLength(segs[..i] + segs[i..j]);
    assert Lengths(segs[..i]) == Lengths(segs)[..i];
    assert segs[..i] + segs[i..j] == segs[..j];
    assert Lengths(segs[..j]) == Lengths(segs)[..j];
  }

  /** How a receiver cuts a read back into segments: `stride` bytes each, the last what is left. */
  function Walk(bytes: seq<byte>, stride: nat): seq<Segment>
    requires stride > 0
  {
    if bytes == [] then []
    else if |bytes| <= stride then [bytes]
    else [bytes[..stride]] + Walk(bytes[stride..], stride)
  }

  /** Walking the bytes of a legal write with its segment size gives back its segments. */
  lemma {:induction false} WalkUndoesFlatten(segs: seq<Segment>, stride: nat)
    requires segs != [] && stride > 0
    requires forall i :: 0 <= i < |segs| - 1 ==> |segs[i]| == stride
    requires 0 < |segs[|segs| - 1]| <= stride
    ensures Walk(Flatten(segs), stride) == segs
  {
    FlattenAppend(segs[..1], segs[1..]);
    assert segs[..1] + segs[1..] == segs;
    assert Flatten(segs[..1]) == segs[0] by { assert segs[..1][..0] == []; }
    if |segs| == 1 {
      assert Flatten(segs[1..]) == [];
    } else {
      WalkUndoesFlatten(segs[1..], stride);
      FlattenLength(segs[1..]);
      NonemptyFlatten(segs[1..]);
      var bytes := Flatten(segs);
      assert bytes[..stride] == segs[0] && bytes[stride..] == Flatten(segs[1..]);
    }
  }

  lemma NonemptyFlatten(segs: seq<Segment>)
    requires segs != [] && |segs[|segs| - 1]| > 0
    ensures Flatten(segs) != []
  {
  }

  // ---- the queue ----

  class TxQueue {
    const buf: array<byte>
    const segLen: nat
    var lens: seq<nat>
    var used: nat
    ghost var staged: seq<Segment>

    ghost predicate Valid()
      reads this, buf
    {
      && RoomLeft(0, 0, segLen, buf.Length) && RoomLeft(|lens|, used, segLen, buf.Length)
      && LaidOut(buf[..used], lens, staged, segLen)
    }

    constructor (innerMtu: nat)
      ensures Valid() && staged == [] && segLen == OVERLAY_HDR_LEN + innerMtu && fresh(buf)
    {
      segLen := OVERLAY_HDR_LEN + innerMtu;
      buf := new byte[TX_BATCH * (OVERLAY_HDR_LEN + innerMtu)];
      lens, used, staged := [], 0, [];
      RoomInBatch(0, OVERLAY_HDR_LEN + innerMtu);
    }

    method IsFull() returns (full: bool)
      requires Valid()
      ensures full <==> |staged| >= 64
    {
      full := |lens| >= TX_BATCH;
    }

    /** Copy bytes into the buffer. */
    method Copy(src: seq<byte>, at: nat)
      requires at + |src| <= buf.Length
      modifies buf
      ensures buf[..at + |src|] == old(buf[..at]) + src
    {
      forall i | 0 <= i < |src| {
        buf[at + i] := src[i];
      }
    }

    method CopyBoth(hdr: seq<byte>, frame: seq<byte>, at: nat)
      requires at + |hdr| + |frame| <= buf.Length
      modifies buf
      ensures buf[..at + |hdr + frame|] == old(buf[..at]) + (hdr + frame)
    {
      ghost var before := buf[..at];
      Copy(hdr, at);
      Copy(frame, at + |hdr|);
      assert (before + hdr) + frame == before + (hdr + frame);
    }

    /** Stage one segment behind the others, or leave the queue as it was. */
    method Push(hdr: seq<byte>, frame: seq<byte>) returns (ok: bool)
      requires Valid() && |hdr| == OVERLAY_HDR_LEN
      modifies this, buf
      ensures Valid()
      ensures ok <==> |old(staged)| < 64 && |hdr + frame| <= segLen && |hdr + frame| <= 0xFFFF
      ensures staged == if ok then old(staged) + [hdr + frame] else old(staged)
    {
      var len: nat := OVERLAY_HDR_LEN + |frame|;
      ok := |lens| < TX_BATCH && len <= segLen && len <= 0xFFFF;
      if ok {
        Append(hdr, frame, len);
      }
    }

    method Append(hdr: seq<byte>, frame: seq<byte>, len: nat)
      requires Valid() && |lens| < TX_BATCH && OVERLAY_HDR_LEN <= |hdr + frame| == len <= segLen
      modifies this, buf
      ensures Valid() && staged == old(staged) + [hdr + frame]
    {
      ghost var s := hdr + frame;
      RoomLeftBelow(|lens| + 1, used + segLen, used + len, segLen, buf.Length);
      ghost var before := buf[..used];
      LaidOutOneMore(before, lens, staged, s, segLen);
      CopyBoth(hdr, frame, used);
      used, lens, staged := used + len, lens + [len], staged + [s];
      assert buf[..used] == before + s;
    }

    method Clear()
      requires Valid()
      modifies this
      ensures Valid() && staged == []
    {
      used, lens, staged := 0, [], [];
    }

    /** Inner bytes staged, without the overlay headers. */
    method InnerBytes() returns (n: nat)
      requires Valid()
      ensures n == Sum(Lengths(staged)) - OVERLAY_HDR_LEN * |staged|
    {
      FlattenLength(staged);
      AtLeastHeaders(staged);
      n := used - |lens| * OVERLAY_HDR_LEN;
    }
  }

  /** These bytes, of these lengths, are the staged segments back to back. */
  ghost predicate LaidOut(bytes: seq<byte>, lens: seq<nat>, staged: seq<Segment>, segLen: nat)
  {
    lens == Lengths(staged) && bytes == Flatten(staged) && AllFit(staged, segLen)
  }

  lemma LaidOutOneMore(bytes: seq<byte>, lens: seq<nat>, staged: seq<Segment>, s: Segment, segLen: nat)
    requires LaidOut(bytes, lens, staged, segLen) && OVERLAY_HDR_LEN <= |s| <= segLen
    ensures LaidOut(bytes + s, lens + [|s|], staged + [s], segLen)
  {
    assert (staged + [s])[..|staged|] == staged;
  }

  lemma {:induction false} AtLeastHeaders(segs: seq<Segment>)
    requires forall s :: s in segs ==> |s| >= OVERLAY_HDR_LEN
    ensures Sum(Lengths(segs)) >= OVERLAY_HDR_LEN * |segs|
  {
    if segs != [] {
      AtLeastHeaders(segs[..|segs| - 1]);
      assert segs[|segs| - 1] in segs;
      assert Lengths(segs)[..|segs| - 1] == Lengths(segs[..|segs| - 1]);
    }
  }

  ghost predicate AllFit(staged: seq<Segment>, segLen: nat)
  {
    forall s :: s in staged ==> OVERLAY_HDR_LEN <= |s| <= segLen
  }

  lemma AllFitOneMore(staged: seq<Segment>, s: Segment, segLen: nat)
    requires AllFit(staged, segLen) && OVERLAY_HDR_LEN <= |s| <= segLen
    ensures AllFit(staged + [s], segLen)
  {
  }

  /** Behind `used` bytes there is room for every segment the queue may still take. */
  ghost predicate RoomLeft(n: nat, used: nat, segLen: nat, capacity: nat)
    decreases TX_BATCH - n
  {
    n <= TX_BATCH && used <= capacity && (n < TX_BATCH ==> RoomLeft(n + 1, used + segLen, segLen, capacity))
  }

  /** A shorter segment leaves more room. */
  lemma {:induction false} RoomLeftBelow(n: nat, used: nat, less: nat, segLen: nat, capacity: nat)
    requires RoomLeft(n, used, segLen, capacity) && less <= used
    ensures RoomLeft(n, less, segLen, capacity)
    decreases TX_BATCH - n
  {
    if n < TX_BATCH {
      RoomLeftBelow(n + 1, used + segLen, less + segLen, segLen, capacity);
    }
  }

  lemma {:induction false} RoomInBatch(n: nat, segLen: nat)
    requires n <= TX_BATCH
    ensures n * segLen <= TX_BATCH * segLen && RoomLeft(n, n * segLen, segLen, TX_BATCH * segLen)
    decreases TX_BATCH - n
  {
    assert n * segLen + (TX_BATCH - n) * segLen == TX_BATCH * segLen;
    if n < TX_BATCH {
      RoomInBatch(n + 1, segLen);
      assert (n + 1) * segLen == n * segLen + segLen;
    }
  }

  // ---- flushing ----

  /** One write handed to the kernel: its bytes, and the segment size when it holds more than one. */
  datatype Datagram = Datagram(contents: seq<byte>, segmentSize: Option<nat>)

  /** What the peer sees of a write, walking it as `receive` does. */
  function Arrives(d: Datagram): seq<Segment>
  {
    var stride := if d.segmentSize.Some? then d.segmentSize.value else |d.contents|;
    if stride == 0 then [] else Walk(d.contents, stride)
  }

  function Arrivals(ds: seq<Datagram>): (a: seq<seq<Segment>>)
    ensures |a| == |ds|
  {
    seq(|ds|, i requires 0 <= i < |ds| => Arrives(ds[i]))
  }

  /** What the peer sees of a sequence of writes. */
  function ArriveAll(ds: seq<Datagram>): seq<Segment>
  {
    Flatten(Arrivals(ds))
  }

  lemma ArriveAllAppend(a: seq<Datagram>, b: seq<Datagram>)
    ensures ArriveAll(a + b) == ArriveAll(a) + ArriveAll(b)
  {
    FlattenAppend(Arrivals(a), Arrivals(b));
    assert Arrivals(a + b) == Arrivals(a) + Arrivals(b);
  }

  function Contents(ds: seq<Datagram>): (c: seq<Segment>)
    ensures |c| == |ds|
  {
    seq(|ds|, i requires 0 <= i < |ds| => ds[i].contents)
  }

  /** A run's bytes arrive as the segments that were staged in it. */
  lemma RunArrives(staged: seq<Segment>, i: nat, j: nat, lim: Limits, d: Datagram)
    requires i < j <= |staged| && Legal(Lengths(staged)[i..j], lim)
    requires forall s :: s in staged ==> |s| > 0
    requires d.contents == Flatten(staged[i..j])
    requires d.segmentSize == if j - i > 1 then Some(|staged[i]|) else None
    ensures Arrives(d) == staged[i..j]
  {
    var r, lens := staged[i..j], Lengths(staged)[i..j];
    assert forall k :: 0 <= k < |r| ==> lens[k] == |r[k]| && r[k] in staged;
    if j - i == 1 {
      assert Flatten(r) == r[0] by { assert r[..0] == []; }
    }
    WalkUndoesFlatten(r, |staged[i]|);
  }

  ghost predicate FewestWrites(lens: seq<nat>, lim: Limits, writes: nat)
  {
    forall cuts :: IsPartition(lens, cuts, lim) ==> writes + 1 <= |cuts|
  }

  /** The limits `runs` works under: at least one segment, and the most one write can carry. */
  function GsoLimits(maxGsoSegments: nat): Limits
  {
    Limits(if maxGsoSegments == 0 then 1 else maxGsoSegments, GSO_MAX_BYTES)
  }

  /** A socket without segmentation writes segments singly; with it a write carries up to 65507 bytes. */
  lemma LimitsAre(maxGsoSegments: nat)
    ensures GsoLimits(0) == Limits(1, 65507)
    ensures maxGsoSegments > 0 ==> GsoLimits(maxGsoSegments) == Limits(maxGsoSegments, 65507)
  {
  }

  /** The first `n` segments have been cut into furthest-reaching writes at `cuts`. */
  ghost predicate GreedySoFar(lens: seq<nat>, cuts: seq<nat>, lim: Limits, n: nat)
  {
    && cuts != [] && cuts[0] == 0 && cuts[|cuts| - 1] == n
    && (forall k: nat :: k + 1 < |cuts| ==> WriteAt(lens, cuts, lim, k))
    && (forall k: nat :: k + 1 < |cuts| ==> Furthest(lens, cuts[k], cuts[k + 1], lim))
  }

  lemma GreedyGrows(lens: seq<nat>, cuts: seq<nat>, lim: Limits, n: nat, m: nat)
    requires GreedySoFar(lens, cuts, lim, n) && n < m <= |lens|
    requires Legal(lens[n..m], lim) && Furthest(lens, n, m, lim)
    ensures GreedySoFar(lens, cuts + [m], lim, m)
  {
    var c := cuts + [m];
    forall k: nat | k + 1 < |c|
      ensures WriteAt(lens, c, lim, k) && Furthest(lens, c[k], c[k + 1], lim)
    {
      if k + 1 < |cuts| {
        assert WriteAt(lens, cuts, lim, k) && Furthest(lens, cuts[k], cuts[k + 1], lim);
      }
    }
  }

  lemma GreedyIsFewest(lens: seq<nat>, cuts: seq<nat>, lim: Limits)
    requires GreedySoFar(lens, cuts, lim, |lens|)
    ensures FewestWrites(lens, lim, |cuts| - 1)
  {
    forall q | IsPartition(lens, q, lim)
      ensures |cuts| <= |q|
    {
      GreedyIsOptimal(lens, cuts, q, lim);
    }
  }

  /** One more run of bytes adds exactly its segments to what arrives. */
  lemma RunExtends(staged: seq<Segment>, ds: seq<Datagram>, from: nat, to: nat, lim: Limits, d: Datagram)
    requires from < to <= |staged| && Legal(Lengths(staged)[from..to], lim)
    requires forall s :: s in staged ==> |s| > 0
    requires ArriveAll(ds) == staged[..from]
    requires d.contents == Flatten(staged[from..to])
    requires d.segmentSize == if to - from > 1 then Some(|staged[from]|) else None
    ensures ArriveAll(ds + [d]) == staged[..to] && |Arrives(d)| == to - from
  {
    RunArrives(staged, from, to, lim, d);
    assert Arrivals(ds + [d])[..|ds|] == Arrivals(ds);
    assert staged[..to] == staged[..from] + staged[from..to];
  }

  lemma ContentsExtend(bytes: seq<byte>, ds: seq<Datagram>, start: nat, end: nat, d: Datagram)
    requires start <= end <= |bytes| && d.contents == bytes[start..end]
    requires Flatten(Contents(ds)) == bytes[..start]
    ensures Flatten(Contents(ds + [d])) == bytes[..end]
  {
    assert Contents(ds + [d])[..|ds|] == Contents(ds);
    assert bytes[..end] == bytes[..start] + bytes[start..end];
  }

  /** How many segments each write holds. */
  ghost predicate Counted(ds: seq<Datagram>, counts: seq<nat>)
  {
    |counts| == |ds| && forall i :: 0 <= i < |ds| ==> counts[i] == |Arrives(ds[i])|
  }

  lemma CountedOneMore(ds: seq<Datagram>, counts: seq<nat>, d: Datagram, n: nat)
    requires Counted(ds, counts) && n == |Arrives(d)|
    ensures Counted(ds + [d], counts + [n])
  {
  }

  /** The first `n` staged segments, `end` bytes of them, have been cut into `ds`. */
  ghost predicate SplitSoFar(staged: seq<Segment>, cuts: seq<nat>, lim: Limits, ds: seq<Datagram>, counts: seq<nat>,
                             n: nat, end: nat)
  {
    && n <= |staged| && |cuts| == |ds| + 1 && GreedySoFar(Lengths(staged), cuts, lim, n)
    && ArriveAll(ds) == staged[..n] && Counted(ds, counts)
    && end <= |Flatten(staged)| && Flatten(Contents(ds)) == Flatten(staged)[..end]
  }

  lemma SplitOneMore(staged: seq<Segment>, cuts: seq<nat>, lim: Limits, ds: seq<Datagram>, counts: seq<nat>,
                     from: nat, to: nat, run: Run, d: Datagram)
    requires SplitSoFar(staged, cuts, lim, ds, counts, from, run.start) && from < to == from + run.count <= |staged|
    requires forall s :: s in staged ==> |s| > 0
    requires Legal(Lengths(staged)[from..to], lim) && Furthest(Lengths(staged), from, to, lim)
    requires run.start == Sum(Lengths(staged)[..from]) && run.end == Sum(Lengths(staged)[..to])
    requires run.start <= run.end <= |Flatten(staged)| && d.contents == Flatten(staged)[run.start..run.end]
    requires d.segmentSize == if run.count > 1 then Some(|staged[from]|) else None
    ensures SplitSoFar(staged, cuts + [to], lim, ds + [d], counts + [run.count], to, run.end)
  {
    FlattenSlice(staged, from, to);
    RunExtends(staged, ds, from, to, lim, d);
    ContentsExtend(Flatten(staged), ds, run.start, run.end, d);
    GreedyGrows(Lengths(staged), cuts, lim, from, to);
    CountedOneMore(ds, counts, d, run.count);
  }

  /** Cut staged bytes into segmented writes. The peer gets back exactly the staged segments in order, and no
      other cut into legal writes needs fewer. */
  method Split(bytes: seq<byte>, lens: seq<nat>, maxGsoSegments: nat, ghost staged: seq<Segment>)
    returns (ds: seq<Datagram>, counts: seq<nat>)
    requires lens == Lengths(staged) && bytes == Flatten(staged)
    requires forall s :: s in staged ==> |s| > 0
    ensures ArriveAll(ds) == staged && Flatten(Contents(ds)) == bytes && Counted(ds, counts)
    ensures FewestWrites(lens, GsoLimits(maxGsoSegments), |ds|)
  {
    var runs := new Runs(lens, maxGsoSegments);
    ghost var lim, cuts := runs.lim, [0];
    ds, counts := [], [];
    while true
      invariant fresh(runs) && runs.Valid() && runs.lens == lens && runs.lim == lim
      invariant SplitSoFar(staged, cuts, lim, ds, counts, runs.next, runs.offset)
      decreases |lens| - runs.next
    {
      ghost var from := runs.next;
      var next := runs.Next();
      if next.None? {
        break;
      }
      var run := next.value;
      FlattenSlice(staged, from, runs.next);
      var d := Datagram(bytes[run.start..run.end], if run.count > 1 then Some(run.segmentSize) else None);
      SplitOneMore(staged, cuts, lim, ds, counts, from, runs.next, run, d);
      ds, counts, cuts := ds + [d], counts + [run.count], cuts + [runs.next];
    }
    SplitDone(staged, cuts, lim, ds, counts, runs.offset);
  }

  lemma SplitDone(staged: seq<Segment>, cuts: seq<nat>, lim: Limits, ds: seq<Datagram>, counts: seq<nat>, end: nat)
    requires SplitSoFar(staged, cuts, lim, ds, counts, |staged|, end) && end == Sum(Lengths(staged)[..|staged|])
    ensures ArriveAll(ds) == staged && Flatten(Contents(ds)) == Flatten(staged)
    ensures FewestWrites(Lengths(staged), lim, |ds|)
  {
    assert staged[..|staged|] == staged && Lengths(staged)[..|staged|] == Lengths(staged);
    FlattenLength(staged);
    GreedyIsFewest(Lengths(staged), cuts, lim);
  }

  // ---- sending ----

  /** What the socket answers to one send. */
  datatype Reply = Accepted | WouldBlock | Refused

  /** The socket's answers, in the order in which it is asked. */
  type Socket = nat -> Reply

  /** A write and whether the socket took it. */
  datatype Handed = Handed(write: Datagram, ok: bool)

  /** Node-wide send counters. */
  datatype SendTally = SendTally(syscalls: nat, wouldBlock: nat, sendErrors: nat)

  const NOTHING_SENT := SendTally(0, 0, 0)

  /** The use made of the socket so far: how often it was asked, what became of each write, and the counters. */
  datatype Use = Use(asked: nat, fates: seq<bool>, tally: SendTally)

  const UNUSED := Use(0, [], NOTHING_SENT)

  /** One more write: the socket is asked, and asked again if it would block. */
  function Asked(u: Use, socket: Socket): Use
  {
    var t := u.tally;
    match socket(u.asked)
    case Accepted => Use(u.asked + 1, u.fates + [true], t.(syscalls := t.syscalls + 1))
    case Refused => Use(u.asked + 1, u.fates + [false], t.(sendErrors := t.sendErrors + 1))
    case WouldBlock =>
      if socket(u.asked + 1) == Accepted then Use(u.asked + 2, u.fates + [true], t.(syscalls := t.syscalls + 1))
      else Use(u.asked + 2, u.fates + [false], t.(wouldBlock := t.wouldBlock + 1))
  }

  /** `n` more writes, each put to the socket whatever became of those before it. */
  function AskedFor(u: Use, socket: Socket, n: nat): (v: Use)
    ensures |v.fates| == |u.fates| + n && u.fates <= v.fates
  {
    if n == 0 then u else Asked(AskedFor(u, socket, n - 1), socket)
  }

  lemma {:induction false} AskedForMore(u: Use, socket: Socket, m: nat, n: nat)
    ensures AskedFor(AskedFor(u, socket, m), socket, n) == AskedFor(u, socket, m + n)
  {
    if n > 0 {
      AskedForMore(u, socket, m, n - 1);
    }
  }

  lemma {:induction false} FatesStay(u: Use, socket: Socket, i: nat, n: nat)
    requires i <= n
    ensures AskedFor(u, socket, i).fates <= AskedFor(u, socket, n).fates
  {
    if i < n {
      FatesStay(u, socket, i, n - 1);
    }
  }

  /** Every write is put to the socket once, or twice if it would block at first, right behind the write before it,
      whatever became of that; it is taken if and only if the socket accepts it then; exactly one counter says so. */
  lemma EveryWriteIsAsked(u: Use, socket: Socket, n: nat, i: nat)
    requires i < n
    ensures var before, after := AskedFor(u, socket, i), AskedFor(u, socket, i + 1);
            var blocked, taken := socket(before.asked) == WouldBlock, AskedFor(u, socket, n).fates[|u.fates| + i];
            && after.asked == before.asked + (if blocked then 2 else 1)
            && (taken <==> socket(before.asked) == Accepted || (blocked && socket(before.asked + 1) == Accepted))
            && after.tally.syscalls == before.tally.syscalls + (if taken then 1 else 0)
            && after.tally.wouldBlock == before.tally.wouldBlock + (if blocked && !taken then 1 else 0)
            && after.tally.sendErrors == before.tally.sendErrors + (if !blocked && !taken then 1 else 0)
  {
    FatesStay(u, socket, i + 1, n);
  }

  /** What became of each write. */
  function Fates(hs: seq<Handed>): (f: seq<bool>)
    ensures |f| == |hs|
  {
    seq(|hs|, i requires 0 <= i < |hs| => hs[i].ok)
  }

  function Writes(hs: seq<Handed>): (ds: seq<Datagram>)
    ensures |ds| == |hs|
  {
    seq(|hs|, i requires 0 <= i < |hs| => hs[i].write)
  }

  /** The segments that left: those of the writes the socket took. */
  function Reached(hs: seq<Handed>): seq<Segment>
  {
    if hs == [] then []
    else
      var last := hs[|hs| - 1];
      Reached(hs[..|hs| - 1]) + if last.ok then Arrives(last.write) else []
  }

  /** Writes the socket took. */
  function Taken(hs: seq<Handed>): nat
  {
    if hs == [] then 0 else Taken(hs[..|hs| - 1]) + if hs[|hs| - 1].ok then 1 else 0
  }

  function Total(t: SendTally): nat { t.syscalls + t.wouldBlock + t.sendErrors }

  /** Every write is charged to exactly one counter. */
  ghost predicate ChargedFor(hs: seq<Handed>, t: SendTally, u: SendTally)
  {
    u.syscalls == t.syscalls + Taken(hs) && Total(u) == Total(t) + |hs|
  }

  lemma {:induction false} ReachedAppend(a: seq<Handed>, b: seq<Handed>)
    ensures Reached(a + b) == Reached(a) + Reached(b)
  {
    if b == [] {
      assert a + b == a;
    } else {
      var front, last := b[..|b| - 1], b[|b| - 1];
      var tail := if last.ok then Arrives(last.write) else [];
      assert (a + b)[..|a + b| - 1] == a + front && (a + b)[|a + b| - 1] == last;
      ReachedAppend(a, front);
      Regrouped(Reached(a), Reached(front), tail);
    }
  }

  /** A write refused leaves nothing on the wire, one taken all its segments, in its place among the others. */
  lemma ReachedOneByOne(a: seq<Handed>, d: Datagram, b: seq<Handed>)
    ensures Reached(a + [Handed(d, false)] + b) == Reached(a + b)
    ensures Reached(a + [Handed(d, true)] + b) == Reached(a) + Arrives(d) + Reached(b)
    ensures Reached([]) == []
  {
    ReachedAppend(a, b);
    forall ok: bool
      ensures Reached(a + [Handed(d, ok)] + b) == Reached(a) + (if ok then Arrives(d) else []) + Reached(b)
    {
      var h := Handed(d, ok);
      assert (a + [h])[..|a|] == a;
      ReachedAppend(a + [h], b);
    }
  }

  lemma Regrouped(a: seq<Segment>, b: seq<Segment>, c: seq<Segment>)
    ensures (a + b) + c == a + (b + c)
  {
  }

  lemma {:induction false} TakenAppend(a: seq<Handed>, b: seq<Handed>)
    ensures Taken(a + b) == Taken(a) + Taken(b)
  {
    if b == [] {
      assert a + b == a;
    } else {
      assert (a + b)[..|a + b| - 1] == a + b[..|b| - 1];
      TakenAppend(a, b[..|b| - 1]);
    }
  }

  /** When every write was taken, everything handed over left, in order. */
  lemma {:induction false} AllTakenAllReached(hs: seq<Handed>)
    requires Taken(hs) == |hs|
    ensures Reached(hs) == ArriveAll(Writes(hs))
  {
    if hs != [] {
      var front := hs[..|hs| - 1];
      TakenAtMost(front);
      AllTakenAllReached(front);
      assert Writes(hs) == Writes(front) + [hs[|hs| - 1].write];
      assert Arrivals(Writes(hs))[..|front|] == Arrivals(Writes(front));
    }
  }

  lemma {:induction false} TakenAtMost(hs: seq<Handed>)
    ensures Taken(hs) <= |hs|
  {
    if hs != [] {
      TakenAtMost(hs[..|hs| - 1]);
    }
  }

  /** One send: a socket that would block is asked once more. */
  method Send(socket: Socket, u: Use) returns (ok: bool, v: Use)
    ensures v == Asked(u, socket) && v.fates == u.fates + [ok]
    ensures ok <==> socket(u.asked) == Accepted || (socket(u.asked) == WouldBlock && socket(u.asked + 1) == Accepted)
    ensures v.tally == if ok then u.tally.(syscalls := u.tally.syscalls + 1)
                       else if socket(u.asked) == WouldBlock then u.tally.(wouldBlock := u.tally.wouldBlock + 1)
                       else u.tally.(sendErrors := u.tally.sendErrors + 1)
  {
    var t := u.tally;
    match socket(u.asked)
    case Accepted => return true, Use(u.asked + 1, u.fates + [true], t.(syscalls := t.syscalls + 1));
    case Refused => return false, Use(u.asked + 1, u.fates + [false], t.(sendErrors := t.sendErrors + 1));
    case WouldBlock =>
      match socket(u.asked + 1)
      case Accepted => return true, Use(u.asked + 2, u.fates + [true], t.(syscalls := t.syscalls + 1));
      case _ => return false, Use(u.asked + 2, u.fates + [false], t.(wouldBlock := t.wouldBlock + 1));
  }

  /** Hand the writes to the socket one by one, counting the segments of those it takes. */
  method SendAll(ds: seq<Datagram>, counts: seq<nat>, socket: Socket, u: Use)
    returns (hs: seq<Handed>, sent: nat, v: Use)
    requires Counted(ds, counts)
    ensures Writes(hs) == ds && sent == |Reached(hs)| && ChargedFor(hs, u.tally, v.tally)
    ensures v == AskedFor(u, socket, |ds|) && v.fates == u.fates + Fates(hs)
  {
    hs, sent, v := [], 0, u;
    for i := 0 to |ds|
      invariant |hs| == i && Writes(hs) == ds[..i] && sent == |Reached(hs)| && ChargedFor(hs, u.tally, v.tally)
      invariant v == AskedFor(u, socket, i) && v.fates == u.fates + Fates(hs)
    {
      var ok;
      ok, v := Send(socket, v);
      ghost var before := hs;
      hs := hs + [Handed(ds[i], ok)];
      assert hs[..|hs| - 1] == before;
      assert Fates(hs) == Fates(before) + [ok];
      sent := sent + if ok then counts[i] else 0;
    }
    assert ds[..|ds|] == ds;
  }

  /** Hand what is staged to the socket and clear the queue. Every write is put to the socket, whatever became of those
      before it; one it drops is dropped whole. */
  method Flush(q: TxQueue, maxGsoSegments: nat, socket: Socket, u: Use)
    returns (hs: seq<Handed>, sent: nat, v: Use)
    requires q.Valid()
    modifies q
    ensures q.Valid() && q.staged == []
    ensures ArriveAll(Writes(hs)) == old(q.staged) && Flatten(Contents(Writes(hs))) == Flatten(old(q.staged))
    ensures FewestWrites(Lengths(old(q.staged)), GsoLimits(maxGsoSegments), |hs|)
    ensures sent == |Reached(hs)| && ChargedFor(hs, u.tally, v.tally)
    ensures v == AskedFor(u, socket, |hs|) && v.fates == u.fates + Fates(hs)
  {
    var ds, counts := Split(q.buf[..q.used], q.lens, maxGsoSegments, q.staged);
    hs, sent, v := SendAll(ds, counts, socket, u);
    q.Clear();
  }
}
