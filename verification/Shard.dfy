/** One shard's datapath (crates/up4-io/src/shard.rs): the walk over a read that may hold many segments, the
    engine call in place, dispatch, staging and flushing, and the counters every segment is charged to. */
module Shard {
  import opened Bits
  import opened Buckets
  import opened Engine
  import opened FrameWindow
  import opened Overlay
  import opened Punt
  import opened Sequence
  import opened Transmit
  import Vport

  const HEADROOM: nat := 64

  /** An engine: what it does next and what it answers in the end, each from everything it has seen so far, and how
      many operations it performs at most. The first argument is the number of the segment within its read, and stands
      for whatever else it goes by. */
  datatype Pipeline = Pipeline(steps: nat, next: Strategy, verdict: (nat, seq<View>) -> Verdict)

  /** Node-wide counters. `segments`, `forwarded` and `refusedPush` are not counters of the source; they name what it
      does not count apart, and the total everything is charged against. `offered` lists what was offered to the punt
      ring and what it met there, `sends` the use made of the socket. */
  datatype Counters = Counters(
    segments: int, unknownPeer: int, badHeader: int, engineDrop: int, oversize: int, offered: seq<Offer>,
    puntOverflow: int, puntUnconfigured: int, unknownPort: int, forwarded: int, refusedPush: int, sends: Use)

  /** One vport's state: its counters and sequence state, what its staging queue holds, and the history of both
      directions. */
  datatype PortState = PortState(
    rxPkts: nat, broadcasts: nat, gapTotal: nat, reorders: nat, rxSeq: Option<u32>,
    txSeq: u32, txPkts: nat, queue: seq<Segment>,
    arrived: seq<int>, handed: seq<Handed>, ever: seq<Segment>)

  const FRESH_PORT := PortState(0, 0, 0, 0, None, 0, 0, [], [], [], [])
  const ZEROED := Counters(0, 0, 0, 0, 0, [], 0, 0, 0, 0, 0, UNUSED)

  /** What never changes while a shard runs, the socket's answers included. */
  datatype Config = Config(topology: Vport.Table, innerMtu: nat, puntConfigured: bool, puntSlots: nat,
                           maxGsoSegments: nat, socket: Socket)

  // ---- totals over the ports ----

  datatype Totals = Totals(rx: int, broadcasts: int, writes: int, taken: int)

  function Contribution(p: PortState): Totals
  {
    Totals(p.rxPkts, p.broadcasts, |p.handed|, Taken(p.handed))
  }

  function Plus(a: Totals, b: Totals): Totals
  {
    Totals(a.rx + b.rx, a.broadcasts + b.broadcasts, a.writes + b.writes, a.taken + b.taken)
  }

  function Minus(a: Totals, b: Totals): Totals
  {
    Totals(a.rx - b.rx, a.broadcasts - b.broadcasts, a.writes - b.writes, a.taken - b.taken)
  }

  function TotalOf(ports: seq<PortState>): Totals
  {
    if ports == [] then Totals(0, 0, 0, 0)
    else Plus(TotalOf(ports[..|ports| - 1]), Contribution(ports[|ports| - 1]))
  }

  lemma {:induction false} TotalUpdate(ports: seq<PortState>, e: nat, p: PortState)
    requires e < |ports|
    ensures TotalOf(ports[e := p]) == Plus(Minus(TotalOf(ports), Contribution(ports[e])), Contribution(p))
  {
    var after, n := ports[e := p], |ports| - 1;
    if e == n {
      assert after[..n] == ports[..n];
    } else {
      TotalUpdate(ports[..n], e, p);
      assert after[..n] == ports[..n][e := p];
    }
  }

  lemma {:induction false} TotalOfFresh(ports: seq<PortState>)
    requires forall v :: 0 <= v < |ports| ==> ports[v] == FRESH_PORT
    ensures TotalOf(ports) == Totals(0, 0, 0, 0)
  {
    if ports != [] {
      TotalOfFresh(ports[..|ports| - 1]);
    }
  }

  // ---- what holds between steps ----

  /** Every segment ever staged carries its position as its sequence number, modulo 2^32. */
  ghost predicate Stamped(ever: seq<Segment>)
  {
    forall i :: 0 <= i < |ever| ==>
      Decode(ever[i]).Decoded? && Decode(ever[i]).hdr.sequence == Wire(i)
  }

  /** The receive side: the counters are the tally of the numbers that arrived. */
  ghost predicate RxOk(p: PortState)
  {
    p.rxPkts == |p.arrived| && Tally(p.arrived) == Account(p.rxSeq, p.gapTotal, p.reorders)
  }

  /** The transmit side: what was handed to the socket and what is queued make up everything ever staged, stamped in
      order, and the packets counted as sent are those of the writes the socket took. */
  ghost predicate TxOk(p: PortState, mtu: nat)
  {
    && p.txSeq == Wire(|p.ever|) && Stamped(p.ever)
    && p.ever == ArriveAll(Writes(p.handed)) + p.queue && p.txPkts == |Reached(p.handed)|
    && |p.queue| <= TX_BATCH && AllFit(p.queue, OVERLAY_HDR_LEN + mtu)
  }

  ghost predicate PortOk(p: PortState, mtu: nat) { RxOk(p) && TxOk(p, mtu) }

  ghost predicate AllOk(ports: seq<PortState>, mtu: nat)
  {
    forall v {:trigger PortOk(ports[v], mtu)} :: 0 <= v < |ports| ==> PortOk(ports[v], mtu)
  }

  /** Every segment is charged exactly once, and so is every write; `owed` accepted frames are still to be charged. */
  ghost predicate Balanced(c: Counters, t: Totals, owed: int)
  {
    && c.segments == c.unknownPeer + c.badHeader + t.rx
    && t.rx == c.engineDrop + c.oversize + |c.offered| + c.puntUnconfigured
               + c.unknownPort + c.forwarded + t.broadcasts + owed
    && c.refusedPush == 0
    && c.sends.tally.syscalls == t.taken && Total(c.sends.tally) == t.writes
  }

  /** Overflow counts exactly the offers that met a full ring, and the socket was put every write in turn. */
  ghost predicate Recorded(cfg: Config, c: Counters)
  {
    && c.puntOverflow == TurnedAway(c.offered, cfg.puntSlots)
    && c.sends == AskedFor(UNUSED, cfg.socket, |c.sends.fates|)
  }

  /** The state between any two steps, up to the accepted frames still to be charged. */
  ghost predicate StateOk(cfg: Config, ports: seq<PortState>, c: Counters, owed: int)
  {
    && Vport.Indexed(cfg.topology) && |ports| == |cfg.topology.entries| && OVERLAY_HDR_LEN + cfg.innerMtu <= 0xFFFF
    && AllOk(ports, cfg.innerMtu) && Balanced(c, TotalOf(ports), owed) && Recorded(cfg, c)
  }

  /** One port and the counters change together. */
  lemma StateOkUpdate(cfg: Config, ports: seq<PortState>, c: Counters, owed: int,
                      e: nat, p: PortState, c': Counters, owed': int)
    requires StateOk(cfg, ports, c, owed) && e < |ports| && PortOk(p, cfg.innerMtu)
    requires Recorded(cfg, c')
    requires Balanced(c', Plus(Minus(TotalOf(ports), Contribution(ports[e])), Contribution(p)), owed')
    ensures StateOk(cfg, ports[e := p], c', owed')
  {
    TotalUpdate(ports, e, p);
    var after := ports[e := p];
    forall v | 0 <= v < |after|
      ensures PortOk(after[v], cfg.innerMtu)
    {
      if v != e { assert PortOk(ports[v], cfg.innerMtu); }
    }
  }

  // ---- the walk over a read ----

  function CeilDiv(n: nat, d: nat): nat
    requires d > 0
  {
    (n + d - 1) / d
  }

  lemma DivStep(n: nat, d: nat)
    requires d > 0
    ensures (n + d) / d == n / d + 1
  {
    ModUnique(n + d, d, n / d + 1, n % d);
  }

  lemma {:induction false} WalkCount(bytes: seq<byte>, stride: nat)
    requires stride > 0
    ensures |Walk(bytes, stride)| == CeilDiv(|bytes|, stride)
    decreases |bytes|
  {
    if bytes == [] {
      ModUnique(stride - 1, stride, 0, stride - 1);
    } else if |bytes| <= stride {
      ModUnique(|bytes| + stride - 1, stride, 1, |bytes| - 1);
    } else {
      WalkCount(bytes[stride..], stride);
      DivStep(|bytes| - 1, stride);
    }
  }

  lemma TimesStep(k: nat, stride: nat)
    requires k > 0
    ensures k * stride == (k - 1) * stride + stride
  {
  }

  lemma ShiftedSlice(bytes: seq<byte>, n: nat, a: nat, b: nat)
    requires n <= |bytes| && a <= b && b + n <= |bytes|
    ensures bytes[n..][a..b] == bytes[a + n..b + n]
  {
  }

  /** Segment `k` of a walk is where the receive loop looks for it. */
  lemma {:induction false} WalkAt(bytes: seq<byte>, stride: nat, k: nat, at: nat)
    requires stride > 0 && k < |Walk(bytes, stride)| && at == k * stride
    ensures at < |bytes|
    ensures Walk(bytes, stride)[k] == bytes[at..if at + stride < |bytes| then at + stride else |bytes|]
    decreases |bytes|
  {
    if k > 0 {
      var rest := bytes[stride..];
      TimesStep(k, stride);
      WalkAt(rest, stride, k - 1, at - stride);
      assert Walk(bytes, stride)[k] == Walk(rest, stride)[k - 1];
      ShiftedSlice(bytes, stride, at - stride, if at < |rest| then at else |rest|);
    }
  }

  /** Where segment `k` lies in the read, and where the next begins. */
  lemma WalkedSegment(bytes: seq<byte>, stride: nat, k: nat)
    requires stride > 0 && k < |Walk(bytes, stride)|
    ensures k * stride < |bytes|
    ensures Walk(bytes, stride)[k] ==
            bytes[k * stride..if k * stride + stride < |bytes| then k * stride + stride else |bytes|]
    ensures k + 1 < |Walk(bytes, stride)| ==> k * stride + stride == (k + 1) * stride < |bytes|
  {
    WalkAt(bytes, stride, k, k * stride);
    if k + 1 < |Walk(bytes, stride)| {
      TimesStep(k + 1, stride);
      WalkAt(bytes, stride, k + 1, k * stride + stride);
    }
  }

  // ---- staging and flushing one port ----

  /** A port whose queue was handed to the socket. */
  function Flushed(p: PortState, hs: seq<Handed>, sent: nat): PortState
  {
    p.(queue := [], handed := p.handed + hs, txPkts := p.txPkts + sent)
  }

  lemma WritesAppend(a: seq<Handed>, b: seq<Handed>)
    ensures Writes(a + b) == Writes(a) + Writes(b)
  {
  }

  /** Handing the queue to the socket keeps a port in order. */
  lemma FlushedOk(p: PortState, hs: seq<Handed>, sent: nat, mtu: nat)
    requires TxOk(p, mtu) && ArriveAll(Writes(hs)) == p.queue && sent == |Reached(hs)|
    ensures TxOk(Flushed(p, hs, sent), mtu)
  {
    WritesAppend(p.handed, hs);
    ArriveAllAppend(Writes(p.handed), Writes(hs));
    ReachedAppend(p.handed, hs);
    assert ArriveAll(Writes(p.handed + hs)) + [] == p.ever;
  }

  /** Staging and flushing touch nothing on a port's receive side. */
  predicate OnlyTx(p: PortState, q: PortState)
  {
    q == p.(txSeq := q.txSeq, txPkts := q.txPkts, queue := q.queue, handed := q.handed, ever := q.ever)
  }

  /** Nothing but the send counters changes. */
  predicate OnlySends(c: Counters, d: Counters) { d == c.(sends := d.sends) && c.sends.fates <= d.sends.fates }

  /** A frame as it leaves by a port: the overlay header with the port's next number, then the frame. */
  function Stamp(p: PortState, frame: seq<byte>, ingressId: u16, now: u32): Segment
  {
    Encode(Hdr(ingressId, p.txSeq, now)) + frame
  }

  /** The port once the frame is queued. */
  function Staged(p: PortState, s: Segment): PortState
  {
    p.(txSeq := Successor(p.txSeq), queue := p.queue + [s], ever := p.ever + [s])
  }

  /** The frame was staged on a port, stamped with its next number, behind everything staged before. A queue of 64, and
      no other, was handed to the socket first. */
  ghost predicate StagedOn(p: PortState, q: PortState, frame: seq<byte>, ingressId: u16, now: u32)
  {
    var s := Stamp(p, frame, ingressId, now);
    && OnlyTx(p, q) && q.ever == p.ever + [s] && q.txSeq == Successor(p.txSeq)
    && if |p.queue| < 64 then q.queue == p.queue + [s] && q.handed == p.handed && q.txPkts == p.txPkts
       else
         && q.queue == [s] && p.handed <= q.handed
         && var hs := q.handed[|p.handed|..];
            ArriveAll(Writes(hs)) == p.queue && q.txPkts == p.txPkts + |Reached(hs)|
  }

  /** The frame went to port `e` alone. */
  ghost predicate ForwardedTo(before: seq<PortState>, after: seq<PortState>, e: nat,
                              frame: seq<byte>, ingressId: u16, now: u32)
  {
    && e < |before| == |after| && StagedOn(before[e], after[e], frame, ingressId, now)
    && forall v :: 0 <= v < |before| && v != e ==> after[v] == before[v]
  }

  /** The frame went to every port but `ingress`. */
  ghost predicate FloodedFrom(before: seq<PortState>, after: seq<PortState>, ingress: nat,
                              frame: seq<byte>, ingressId: u16, now: u32)
  {
    && ingress < |before| == |after|
    && after[ingress] == before[ingress]
    && forall v :: 0 <= v < |before| && v != ingress ==> StagedOn(before[v], after[v], frame, ingressId, now)
  }

  lemma StampedGrows(ever: seq<Segment>, s: Segment)
    requires Stamped(ever) && Decode(s).Decoded? && Decode(s).hdr.sequence == Wire(|ever|)
    ensures Stamped(ever + [s])
  {
  }

  lemma QueuedLast(ever: seq<Segment>, sent: seq<Segment>, queue: seq<Segment>, s: Segment)
    requires ever == sent + queue
    ensures ever + [s] == sent + (queue + [s])
  {
  }

  lemma StampReads(p: PortState, ingressId: u16, now: u32, frame: seq<byte>)
    ensures var s := Stamp(p, frame, ingressId, now);
            |s| == OVERLAY_HDR_LEN + |frame| && Decode(s) == Decoded(Hdr(ingressId, p.txSeq, now))
  {
    DecodeEncode(Hdr(ingressId, p.txSeq, now), frame);
  }

  lemma NextNumber(ever: seq<Segment>, s: Segment)
    ensures Successor(Wire(|ever|)) == Wire(|ever + [s]|)
  {
    SuccessorUnwraps(|ever|);
  }

  /** Stamping a frame with the port's next number and queueing it keeps the port in order. */
  lemma StagedOk(p: PortState, ingressId: u16, now: u32, frame: seq<byte>, mtu: nat)
    requires TxOk(p, mtu) && |p.queue| < TX_BATCH && |frame| <= mtu
    ensures TxOk(Staged(p, Stamp(p, frame, ingressId, now)), mtu)
  {
    var s := Stamp(p, frame, ingressId, now);
    StampReads(p, ingressId, now, frame);
    StampedGrows(p.ever, s);
    QueuedLast(p.ever, ArriveAll(Writes(p.handed)), p.queue, s);
    AllFitOneMore(p.queue, s, OVERLAY_HDR_LEN + mtu);
    NextNumber(p.ever, s);
  }

  /** Flushing port `e` hands its queue over in the fewest writes, each put to the socket, and touches nothing else. */
  ghost predicate FlushedTo(cfg: Config, before: seq<PortState>, after: seq<PortState>, e: nat, c: Counters,
                            d: Counters)
    requires e < |before|
  {
    && |after| == |before| && before[e].handed <= after[e].handed
    && var hs := after[e].handed[|before[e].handed|..];
       && after == before[e := Flushed(before[e], hs, |Reached(hs)|)]
       && ArriveAll(Writes(hs)) == before[e].queue
       && FewestWrites(Lengths(before[e].queue), GsoLimits(cfg.maxGsoSegments), |hs|)
       && d == c.(sends := AskedFor(c.sends, cfg.socket, |hs|)) && d.sends.fates == c.sends.fates + Fates(hs)
  }

  lemma FlushRecorded(cfg: Config, c: Counters, u: Use, n: nat)
    requires Recorded(cfg, c) && u == AskedFor(c.sends, cfg.socket, n)
    ensures Recorded(cfg, c.(sends := u))
  {
    AskedForMore(UNUSED, cfg.socket, |c.sends.fates|, n);
  }

  lemma FlushBalanced(c: Counters, t: Totals, owed: int, p: PortState, hs: seq<Handed>, sent: nat, u: Use)
    requires Balanced(c, t, owed) && ChargedFor(hs, c.sends.tally, u.tally)
    ensures Balanced(c.(sends := u), Plus(Minus(t, Contribution(p)), Contribution(Flushed(p, hs, sent))), owed)
  {
    TakenAppend(p.handed, hs);
  }

  lemma FlushKeepsState(cfg: Config, ports: seq<PortState>, c: Counters, owed: int,
                        e: nat, hs: seq<Handed>, sent: nat, u: Use)
    requires StateOk(cfg, ports, c, owed) && e < |ports|
    requires ArriveAll(Writes(hs)) == ports[e].queue && sent == |Reached(hs)|
    requires ChargedFor(hs, c.sends.tally, u.tally) && u == AskedFor(c.sends, cfg.socket, |hs|)
    ensures StateOk(cfg, ports[e := Flushed(ports[e], hs, sent)], c.(sends := u), owed)
  {
    var p := ports[e];
    assert PortOk(p, cfg.innerMtu);
    FlushedOk(p, hs, sent, cfg.innerMtu);
    FlushBalanced(c, TotalOf(ports), owed, p, hs, sent, u);
    FlushRecorded(cfg, c, u, |hs|);
    StateOkUpdate(cfg, ports, c, owed, e, Flushed(p, hs, sent), c.(sends := u), owed);
  }

  /** Making room and then queueing the frame stages it. */
  lemma StagedAfterRoom(first: seq<PortState>, before: seq<PortState>, after: seq<PortState>, e: nat,
                        frame: seq<byte>, ingressId: u16, now: u32)
    requires e < |first| == |before|
    requires after == before[e := Staged(before[e], Stamp(before[e], frame, ingressId, now))]
    requires if |first[e].queue| < 64 then before == first
             else
               && first[e].handed <= before[e].handed
               && var hs := before[e].handed[|first[e].handed|..];
                  before == first[e := Flushed(first[e], hs, |Reached(hs)|)] && ArriveAll(Writes(hs)) == first[e].queue
    ensures ForwardedTo(first, after, e, frame, ingressId, now)
  {
  }

  lemma PushKeepsState(cfg: Config, ports: seq<PortState>, c: Counters, owed: int,
                       e: nat, frame: seq<byte>, ingressId: u16, now: u32)
    requires StateOk(cfg, ports, c, owed) && e < |ports| && |frame| <= cfg.innerMtu && |ports[e].queue| < TX_BATCH
    ensures StateOk(cfg, ports[e := Staged(ports[e], Stamp(ports[e], frame, ingressId, now))], c, owed)
  {
    var p := ports[e];
    assert PortOk(p, cfg.innerMtu);
    StagedOk(p, ingressId, now, frame, cfg.innerMtu);
    StateOkUpdate(cfg, ports, c, owed, e, Staged(p, Stamp(p, frame, ingressId, now)), c, owed);
  }

  // ---- receiving on one port ----

  /** The port after an accepted segment numbered `x`: one packet more, the tracker advanced. */
  function Heard(p: PortState, x: u32): PortState
  {
    var (event, expected) := Classify(p.rxSeq, x);
    var q := p.(rxPkts := p.rxPkts + 1, rxSeq := Some(expected), arrived := p.arrived + [x]);
    match event
    case InOrder => q
    case Gap(n) => q.(gapTotal := q.gapTotal + n)
    case Reorder => q.(reorders := q.reorders + 1)
  }

  lemma HeardOk(p: PortState, x: u32)
    requires RxOk(p)
    ensures RxOk(Heard(p, x))
  {
    assert (p.arrived + [x])[..|p.arrived|] == p.arrived;
    WireTwice(x);
  }

  /** A broadcast is counted against the port it came in on. */
  function Charged(ports: seq<PortState>, ingress: nat): seq<PortState>
    requires ingress < |ports|
  {
    ports[ingress := ports[ingress].(broadcasts := ports[ingress].broadcasts + 1)]
  }

  lemma AcceptKeepsState(cfg: Config, ports: seq<PortState>, c: Counters, ingress: nat, x: u32)
    requires StateOk(cfg, ports, c, 0) && ingress < |ports|
    ensures StateOk(cfg, ports[ingress := Heard(ports[ingress], x)], c.(segments := c.segments + 1), 1)
  {
    assert PortOk(ports[ingress], cfg.innerMtu);
    HeardOk(ports[ingress], x);
    StateOkUpdate(cfg, ports, c, 0, ingress, Heard(ports[ingress], x), c.(segments := c.segments + 1), 1);
  }

  lemma ChargeKeepsState(cfg: Config, ports: seq<PortState>, c: Counters, ingress: nat)
    requires StateOk(cfg, ports, c, 1) && ingress < |ports|
    ensures StateOk(cfg, Charged(ports, ingress), c, 0)
  {
    assert PortOk(ports[ingress], cfg.innerMtu);
    StateOkUpdate(cfg, ports, c, 1, ingress, ports[ingress].(broadcasts := ports[ingress].broadcasts + 1), c, 0);
  }

  /** The frame was offered to the ring, whole, and charged to overflow exactly if it found every slot taken. */
  ghost predicate Punted(cfg: Config, frame: PuntFrame, c: Counters, d: Counters)
  {
    && |d.offered| == |c.offered| + 1
    && var met := d.offered[|c.offered|].met;
       d == c.(offered := c.offered + [Offer(frame, met)],
               puntOverflow := c.puntOverflow + if met < cfg.puntSlots then 0 else 1)
  }

  /** A verdict sent the frame to its one destination and charged exactly one counter. */
  ghost predicate Routed(cfg: Config, verdict: Verdict, frame: seq<byte>, ingress: nat, now: u32,
                         before: seq<PortState>, after: seq<PortState>, c: Counters, d: Counters)
    requires ingress < |before| && ingress < |cfg.topology.entries|
  {
    var ingressId := cfg.topology.entries[ingress].id;
    match verdict
    case Discard => after == before && d == c.(engineDrop := c.engineDrop + 1)
    case ToControl =>
      && after == before
      && if !cfg.puntConfigured then d == c.(puntUnconfigured := c.puntUnconfigured + 1)
         else Punted(cfg, PuntFrame(ingressId, now, frame), c, d)
    case Broadcast =>
      OnlySends(c, d) && FloodedFrom(Charged(before, ingress), after, ingress, frame, ingressId, now)
    case Send(port) =>
      match Vport.IdxOfId(cfg.topology, port)
      case None => after == before && d == c.(unknownPort := c.unknownPort + 1)
      case Some(e) =>
        OnlySends(c.(forwarded := c.forwarded + 1), d) && ForwardedTo(before, after, e, frame, ingressId, now)
  }

  /** What becomes of an accepted frame: too long, or routed. */
  ghost predicate Concluded(cfg: Config, verdict: Verdict, frame: seq<byte>, ingress: nat, now: u32,
                            before: seq<PortState>, after: seq<PortState>, c: Counters, d: Counters)
    requires ingress < |before| && ingress < |cfg.topology.entries|
  {
    if verdict != Discard && |frame| > cfg.innerMtu then after == before && d == c.(oversize := c.oversize + 1)
    else Routed(cfg, verdict, frame, ingress, now, before, after, c, d)
  }

  // ---- one segment ----

  /** The window an engine gets: everything up to the end of its segment, its frame at `room`. */
  function WindowOn(slot: seq<byte>, room: nat, segEnd: nat): (w: Reach)
    requires room <= segEnd <= |slot|
    ensures Fits(w)
  {
    Reach(slot[..segEnd], room, segEnd - room)
  }

  /** What an engine leaves of its window. */
  function Worked(w: Reach, k: nat, engine: Pipeline): (r: Reach)
    requires Fits(w)
    ensures Fits(r) && |r.bytes| == |w.bytes|
  {
    LeftBy(w, engine.next, k, engine.steps)
  }

  /** Everything an engine saw while it worked. */
  function Saw(w: Reach, k: nat, engine: Pipeline): seq<View>
    requires Fits(w)
  {
    Views(w, Chosen(w, engine.next, k, engine.steps))
  }

  /** What an engine makes of a frame behind the given bytes: its answer and the frame it leaves. */
  function Emitted(front: seq<byte>, frame: seq<byte>, k: nat, engine: Pipeline): (Verdict, seq<byte>)
  {
    var w := Reach(front + frame, |front|, |frame|);
    (engine.verdict(k, Saw(w, k, engine)), FrameOf(Worked(w, k, engine)))
  }

  lemma SameBehindFronts(a: seq<byte>, b: seq<byte>, frame: seq<byte>)
    requires |a| == |b|
    ensures SameBehind(Reach(a + frame, |a|, |frame|), Reach(b + frame, |b|, |frame|))
  {
  }

  /** An engine that looks only at written places, and whether it fills what it exposes of a given window. */
  ghost predicate Modest(engine: Pipeline) { LooksOnlyAtWritten(engine.next) && LooksOnlyAtWritten(engine.verdict) }

  ghost predicate Fills(w: Reach, k: nat, engine: Pipeline)
    requires Fits(w)
  {
    !Exposes(w, Chosen(w, engine.next, k, engine.steps))
  }

  lemma ModestAnswers(v: Reach, w: Reach, k: nat, engine: Pipeline)
    requires SameBehind(v, w) && Modest(engine)
    ensures Chosen(v, engine.next, k, engine.steps) == Chosen(w, engine.next, k, engine.steps)
    ensures engine.verdict(k, Saw(v, k, engine)) == engine.verdict(k, Saw(w, k, engine))
  {
    WrittenDecides(v, w, engine.next, k, engine.steps);
    GlimpsesAlike(v, w, Chosen(w, engine.next, k, engine.steps));
  }

  lemma BehindIsFrame(v: Reach, front: seq<byte>, frame: seq<byte>)
    requires SameBehind(v, Reach(front + frame, |front|, |frame|))
    ensures v == Reach(v.bytes[..|front|] + frame, |front|, |frame|)
  {
    assert v.bytes == v.bytes[..|front|] + frame;
  }

  /** Some bytes in front show through an exposed place. */
  lemma ExposedEmits(front: seq<byte>, frame: seq<byte>, k: nat, engine: Pipeline) returns (other: seq<byte>)
    requires Modest(engine) && !Fills(Reach(front + frame, |front|, |frame|), k, engine)
    ensures |other| == |front| && Emitted(other, frame, k, engine) != Emitted(front, frame, k, engine)
  {
    var w := Reach(front + frame, |front|, |frame|);
    var ops := Chosen(w, engine.next, k, engine.steps);
    var i :| i in Unwritten(w, ops) && InFrame(Effect(w, ops), i);
    var v := ExposedShows(w, ops, i);
    other := v.bytes[..|front|];
    BehindIsFrame(v, front, frame);
    ModestAnswers(v, w, k, engine);
    assert Emitted(other, frame, k, engine).1 == FrameOf(Effect(v, ops));
    assert Emitted(front, frame, k, engine).1 == FrameOf(Effect(w, ops));
  }

  lemma FilledEmits(front: seq<byte>, frame: seq<byte>, k: nat, engine: Pipeline, other: seq<byte>)
    requires Modest(engine) && Fills(Reach(front + frame, |front|, |frame|), k, engine) && |other| == |front|
    ensures Emitted(other, frame, k, engine) == Emitted(front, frame, k, engine)
  {
    var v, w := Reach(other + frame, |front|, |frame|), Reach(front + frame, |front|, |frame|);
    SameBehindFronts(other, front, frame);
    ModestAnswers(v, w, k, engine);
    HiddenStays(v, w, Chosen(w, engine.next, k, engine.steps));
  }

  /** What leaves an engine that looks only at written places is a function of its own frame, whatever earlier segments
      and headers left in front of it, if and only if it stores to every place it exposes and keeps. */
  lemma EngineSeesItsSegment(front: seq<byte>, frame: seq<byte>, k: nat, engine: Pipeline)
    requires Modest(engine)
    ensures (forall other: seq<byte> :: |other| == |front| ==>
               Emitted(other, frame, k, engine) == Emitted(front, frame, k, engine))
            <==> Fills(Reach(front + frame, |front|, |frame|), k, engine)
  {
    if Fills(Reach(front + frame, |front|, |frame|), k, engine) {
      forall other: seq<byte> | |other| == |front|
        ensures Emitted(other, frame, k, engine) == Emitted(front, frame, k, engine)
      {
        FilledEmits(front, frame, k, engine, other);
      }
    } else {
      var other := ExposedEmits(front, frame, k, engine);
    }
  }

  /** In a step of such an engine that fills what it exposes, the answer and the frame that goes on are those its own
      segment would give behind any other bytes: nothing of earlier segments or headers is in them. */
  lemma StepIsOfItsSegment(slot: seq<byte>, room: nat, segEnd: nat, k: nat, engine: Pipeline, other: seq<byte>)
    requires room <= segEnd <= |slot| && |other| == room && Modest(engine)
    requires Fills(WindowOn(slot, room, segEnd), k, engine)
    ensures var w := WindowOn(slot, room, segEnd);
            (engine.verdict(k, Saw(w, k, engine)), FrameOf(Worked(w, k, engine))) ==
            Emitted(other, slot[room..segEnd], k, engine)
  {
    assert slot[..room] + slot[room..segEnd] == slot[..segEnd];
    EngineSeesItsSegment(slot[..room], slot[room..segEnd], k, engine);
  }

  function Floods(k: nat, seen: seq<View>): Verdict { Broadcast }

  /** Behind the headroom and the header every segment has in front of its frame: an engine that does not fill what it
      exposes floods the last byte there, and so does one that fills it with what it read. */
  lemma HeadroomCanLeak(front: seq<byte>, frame: seq<byte>, k: nat)
    requires |front| >= HEADROOM + OVERLAY_HDR_LEN
    ensures Emitted(front, frame, k, Pipeline(1, PushesOne, Floods)) == (Broadcast, [front[|front| - 1]] + frame)
    ensures Emitted(front, frame, k, Pipeline(2, ReadsBack, Floods)) == (Broadcast, [front[|front| - 1]] + frame)
    ensures Fills(Reach(front + frame, |front|, |frame|), k, Pipeline(2, ReadsBack, Floods))
  {
    PushedOne(Reach(front + frame, |front|, |frame|), k);
    UnfilledHeadroomShows(front, frame);
    ReadHeadroomShows(front, frame, k);
  }

  /** Ports, counters and the bytes of the receive slot. */
  datatype Snapshot = Snapshot(ports: seq<PortState>, c: Counters, slot: seq<byte>)

  /** What segment `k` of a read, received as `seg`, does to a shard and to the slot it lies in at `segStart`. The
      engine is shown the bytes behind the segment's header, and works on the slot in place. */
  ghost predicate SegmentStep(cfg: Config, seg: Segment, segStart: nat, k: nat, ingress: nat, now: u32,
                              engine: Pipeline, before: Snapshot, after: Snapshot)
  {
    && ingress < |before.ports| == |after.ports| == |cfg.topology.entries|
    && segStart + |seg| <= |before.slot| && before.slot[segStart..segStart + |seg|] == seg
    && var segEnd, c1 := segStart + |seg|, before.c.(segments := before.c.segments + 1);
       match Decode(seg)
       case Decoded(hdr) =>
         var room := segStart + OVERLAY_HDR_LEN;
         var given := WindowOn(before.slot, room, segEnd);
         var w := Worked(given, k, engine);
         var heard := before.ports[ingress := Heard(before.ports[ingress], hdr.sequence)];
         && FrameOf(given) == seg[OVERLAY_HDR_LEN..] && after.slot == w.bytes + before.slot[segEnd..]
         && Concluded(cfg, engine.verdict(k, Saw(given, k, engine)), FrameOf(w), ingress, now,
                      heard, after.ports, c1, after.c)
       case _ => after == before.(c := c1.(badHeader := c1.badHeader + 1))
  }

  /** The engine was given its window of the slot; this is what it answered, and what it left of slot and frame. */
  ghost predicate Shown(before: seq<byte>, after: seq<byte>, room: nat, segEnd: nat, k: nat, engine: Pipeline,
                        verdict: Verdict, out: seq<byte>)
  {
    && room <= segEnd <= |before|
    && var given := WindowOn(before, room, segEnd);
       var w := Worked(given, k, engine);
       && verdict == engine.verdict(k, Saw(given, k, engine))
       && after == w.bytes + before[segEnd..] && out == FrameOf(w)
  }

  /** The first half of a step: the segment is counted, and the engine has been shown its frame and left `out`. */
  ghost predicate Heeded(seg: Segment, segStart: nat, segEnd: nat, k: nat, ingress: nat, engine: Pipeline,
                         before: Snapshot, mid: Snapshot, verdict: Verdict, out: seq<byte>)
  {
    && segStart + |seg| == segEnd <= |before.slot| && before.slot[segStart..segEnd] == seg && Decode(seg).Decoded?
    && ingress < |before.ports|
    && mid.ports == before.ports[ingress := Heard(before.ports[ingress], Decode(seg).hdr.sequence)]
    && mid.c == before.c.(segments := before.c.segments + 1)
    && FrameOf(WindowOn(before.slot, segStart + OVERLAY_HDR_LEN, segEnd)) == seg[OVERLAY_HDR_LEN..]
    && Shown(before.slot, mid.slot, segStart + OVERLAY_HDR_LEN, segEnd, k, engine, verdict, out)
  }

  /** Both halves make a step. */
  lemma StepAccepted(cfg: Config, seg: Segment, segStart: nat, segEnd: nat, k: nat, ingress: nat, now: u32,
                     engine: Pipeline, before: Snapshot, mid: Snapshot, verdict: Verdict, out: seq<byte>,
                     after: Snapshot)
    requires ingress < |before.ports| == |mid.ports| == |after.ports| == |cfg.topology.entries|
    requires Heeded(seg, segStart, segEnd, k, ingress, engine, before, mid, verdict, out) && after.slot == mid.slot
    requires Concluded(cfg, verdict, out, ingress, now, mid.ports, after.ports, mid.c, after.c)
    ensures SegmentStep(cfg, seg, segStart, k, ingress, now, engine, before, after)
  {
  }

  /** The window of a segment shows its frame. */
  lemma FrameOfSegment(slot: seq<byte>, segStart: nat, segEnd: nat, seg: Segment)
    requires segStart <= segEnd <= |slot| && slot[segStart..segEnd] == seg && |seg| >= OVERLAY_HDR_LEN
    ensures FrameOf(WindowOn(slot, segStart + OVERLAY_HDR_LEN, segEnd)) == seg[OVERLAY_HDR_LEN..]
  {
    assert slot[..segEnd][segStart + OVERLAY_HDR_LEN..segEnd] == slot[segStart + OVERLAY_HDR_LEN..segEnd];
    assert slot[segStart + OVERLAY_HDR_LEN..segEnd] == seg[OVERLAY_HDR_LEN..];
  }

  /** The answer of the engine to a segment, and the frame it left. */
  function AnswerTo(seg: Segment, segStart: nat, k: nat, engine: Pipeline, slot: seq<byte>): (Verdict, seq<byte>)
    requires |seg| >= 12 && segStart + |seg| <= |slot|
  {
    var given := WindowOn(slot, segStart + 12, segStart + |seg|);
    (engine.verdict(k, Saw(given, k, engine)), FrameOf(Worked(given, k, engine)))
  }

  /** `s` is on the wire as a segment from port `id`, numbered and timed, around this frame. */
  predicate OnTheWire(s: Segment, id: u16, number: u32, time: u32, frame: seq<byte>)
  {
    && |s| == 12 + |frame| && s[12..] == frame && s[0] == 16 && s[1] == 0
    && 0x100 * s[2] as int + s[3] == id
    && 0x100_0000 * s[4] as int + 0x1_0000 * s[5] as int + 0x100 * s[6] as int + s[7] == number
    && 0x100_0000 * s[8] as int + 0x1_0000 * s[9] as int + 0x100 * s[10] as int + s[11] == time
  }

  lemma StampOnTheWire(p: PortState, frame: seq<byte>, id: u16, now: u32)
    ensures OnTheWire(Stamp(p, frame, id, now), id, p.txSeq, now, frame)
  {
    var s := Stamp(p, frame, id, now);
    EncodeOnBytes(Hdr(id, p.txSeq, now));
    DecodeEncode(Hdr(id, p.txSeq, now), frame);
    DecodeOnBytes(s);
  }

  /** A segment is taken exactly if it has twelve bytes and version 1; a frame sent to a configured port then leaves by
      it, on the wire, with the port's next number, and by no other. */
  lemma SegmentSends(cfg: Config, seg: Segment, segStart: nat, k: nat, ingress: nat, now: u32, engine: Pipeline,
                     before: Snapshot, after: Snapshot, e: nat, v: nat)
    requires SegmentStep(cfg, seg, segStart, k, ingress, now, engine, before, after)
    requires |seg| >= 12 && seg[0] / 16 == 1 && e < |before.ports| && v < |before.ports| && v != e
    requires var (verdict, out) := AnswerTo(seg, segStart, k, engine, before.slot);
             verdict.Send? && Vport.IdxOfId(cfg.topology, verdict.port) == Some(e) && |out| <= cfg.innerMtu
    ensures |after.ports| == |before.ports| && after.ports[v].ever == before.ports[v].ever
    ensures var p, q := before.ports[e], after.ports[e];
            && |q.ever| == |p.ever| + 1 && q.ever[..|p.ever|] == p.ever
            && OnTheWire(q.ever[|p.ever|], cfg.topology.entries[ingress].id, p.txSeq, now,
                         AnswerTo(seg, segStart, k, engine, before.slot).1)
  {
    DecodeOnBytes(seg);
    StampOnTheWire(before.ports[e], AnswerTo(seg, segStart, k, engine, before.slot).1,
                   cfg.topology.entries[ingress].id, now);
  }

  /** A flooded frame leaves by every port but the one it came in on, with each port's own next number. */
  lemma SegmentFloods(cfg: Config, seg: Segment, segStart: nat, k: nat, ingress: nat, now: u32, engine: Pipeline,
                      before: Snapshot, after: Snapshot, v: nat)
    requires SegmentStep(cfg, seg, segStart, k, ingress, now, engine, before, after)
    requires |seg| >= 12 && seg[0] / 16 == 1 && v < |before.ports|
    requires var (verdict, out) := AnswerTo(seg, segStart, k, engine, before.slot);
             verdict == Broadcast && |out| <= cfg.innerMtu
    ensures |after.ports| == |before.ports|
    ensures var p, q := before.ports[v], after.ports[v];
            if v == ingress then q.ever == p.ever
            else
              && |q.ever| == |p.ever| + 1 && q.ever[..|p.ever|] == p.ever
              && OnTheWire(q.ever[|p.ever|], cfg.topology.entries[ingress].id, p.txSeq, now,
                           AnswerTo(seg, segStart, k, engine, before.slot).1)
  {
    DecodeOnBytes(seg);
    StampOnTheWire(before.ports[v], AnswerTo(seg, segStart, k, engine, before.slot).1,
                   cfg.topology.entries[ingress].id, now);
  }

  /** A punted frame is offered to the ring whole, with its port and time, and overflow counts it exactly if every slot
      was taken. */
  lemma SegmentPunts(cfg: Config, seg: Segment, segStart: nat, k: nat, ingress: nat, now: u32, engine: Pipeline,
                     before: Snapshot, after: Snapshot)
    requires SegmentStep(cfg, seg, segStart, k, ingress, now, engine, before, after)
    requires |seg| >= 12 && seg[0] / 16 == 1 && cfg.puntConfigured
    requires var (verdict, out) := AnswerTo(seg, segStart, k, engine, before.slot);
             verdict == ToControl && |out| <= cfg.innerMtu
    ensures |after.c.offered| == |before.c.offered| + 1
    ensures var o := after.c.offered[|before.c.offered|];
            && o.frame.ingressVport == cfg.topology.entries[ingress].id && o.frame.rxTsUs == now
            && o.frame.bytes == AnswerTo(seg, segStart, k, engine, before.slot).1
            && after.c.puntOverflow - before.c.puntOverflow == if o.met < cfg.puntSlots then 0 else 1
  {
    DecodeOnBytes(seg);
  }

  /** A segment leaves the bytes behind it as they were. */
  lemma StepLeavesTheRest(cfg: Config, seg: Segment, segStart: nat, k: nat, ingress: nat, now: u32,
                          engine: Pipeline, before: Snapshot, after: Snapshot)
    requires SegmentStep(cfg, seg, segStart, k, ingress, now, engine, before, after)
    ensures |after.slot| == |before.slot|
    ensures forall i :: segStart + |seg| <= i < |before.slot| ==> after.slot[i] == before.slot[i]
  {
  }

  /** Where segment `k` of a read begins. */
  function StartOf(k: nat, stride: nat): (s: nat)
    ensures s >= 64
  {
    HEADROOM + k * stride
  }

  /** One after the other, the segments of a read that came in on `ingress`. */
  ghost predicate ReadSteps(cfg: Config, segs: seq<Segment>, stride: nat, ingress: nat, now: u32,
                            engine: Pipeline, before: Snapshot, after: Snapshot)
  {
    if segs == [] then after == before
    else
      var k := |segs| - 1;
      exists mid ::
        && ReadSteps(cfg, segs[..k], stride, ingress, now, engine, before, mid)
        && SegmentStep(cfg, segs[k], StartOf(k, stride), k, ingress, now, engine, mid, after)
  }

  lemma ReadStepsSnoc(cfg: Config, segs: seq<Segment>, k: nat, stride: nat, ingress: nat, now: u32,
                      engine: Pipeline, before: Snapshot, mid: Snapshot, after: Snapshot)
    requires k < |segs|
    requires ReadSteps(cfg, segs[..k], stride, ingress, now, engine, before, mid)
    requires SegmentStep(cfg, segs[k], StartOf(k, stride), k, ingress, now, engine, mid, after)
    ensures ReadSteps(cfg, segs[..k + 1], stride, ingress, now, engine, before, after)
  {
    assert segs[..k + 1][..k] == segs[..k] && segs[..k + 1][k] == segs[k];
  }

  /** What a whole read does: charge every segment to the unknown peer, or take them one by one. */
  ghost predicate ReadStep(cfg: Config, bytes: seq<byte>, metaStride: nat, peer: Vport.Peer, now: u32,
                           engine: Pipeline, before: Snapshot, after: Snapshot)
  {
    if bytes == [] then after == before
    else
      var stride := if metaStride == 0 then |bytes| else metaStride;
      var segs := Walk(bytes, stride);
      match Vport.IdxOfPeer(cfg.topology, peer)
      case None =>
        after == before.(c := before.c.(segments := before.c.segments + |segs|,
                                        unknownPeer := before.c.unknownPeer + |segs|))
      case Some(ingress) => ReadSteps(cfg, segs, stride, ingress, now, engine, before, after)
  }

  /** The sequence numbers a read's segments carry, in order. */
  function NumbersIn(segs: seq<Segment>): seq<int>
  {
    if segs == [] then []
    else
      var last := Decode(segs[|segs| - 1]);
      NumbersIn(segs[..|segs| - 1]) + if last.Decoded? then [last.hdr.sequence] else []
  }

  /** Nothing but an accepted segment touches a port's receive side. */
  lemma SegmentHears(cfg: Config, seg: Segment, segStart: nat, k: nat, ingress: nat, now: u32, engine: Pipeline,
                     before: Snapshot, after: Snapshot, v: nat)
    requires SegmentStep(cfg, seg, segStart, k, ingress, now, engine, before, after) && v < |before.ports|
    ensures |after.ports| == |before.ports|
    ensures after.ports[v].arrived ==
            before.ports[v].arrived + if v == ingress then NumbersIn([seg]) else []
    ensures after.c.segments == before.c.segments + 1
  {
    assert [seg][..0] == [];
    assert NumbersIn([]) == [];
  }

  /** A read's segments are each heard once, in order, on the port they came in on and on no other. */
  lemma {:induction false} ReadHears(cfg: Config, segs: seq<Segment>, stride: nat, ingress: nat, now: u32,
                                     engine: Pipeline, before: Snapshot, after: Snapshot, v: nat)
    requires ReadSteps(cfg, segs, stride, ingress, now, engine, before, after) && v < |before.ports|
    ensures |after.ports| == |before.ports|
    ensures after.ports[v].arrived == before.ports[v].arrived + if v == ingress then NumbersIn(segs) else []
    ensures after.c.segments == before.c.segments + |segs|
  {
    if segs != [] {
      var k := |segs| - 1;
      var mid :| ReadSteps(cfg, segs[..k], stride, ingress, now, engine, before, mid)
        && SegmentStep(cfg, segs[k], StartOf(k, stride), k, ingress, now, engine, mid, after);
      ReadHears(cfg, segs[..k], stride, ingress, now, engine, before, mid, v);
      SegmentHears(cfg, segs[k], StartOf(k, stride), k, ingress, now, engine, mid, after, v);
      if v == ingress {
        NumbersSplit(segs);
        Regroup(before.ports[v].arrived, NumbersIn(segs[..k]), NumbersIn([segs[k]]));
      }
    }
  }

  lemma Regroup(x: seq<int>, y: seq<int>, z: seq<int>)
    ensures (x + y) + z == x + (y + z)
  {
  }

  lemma NumbersSplit(segs: seq<Segment>)
    requires segs != []
    ensures NumbersIn(segs) == NumbersIn(segs[..|segs| - 1]) + NumbersIn([segs[|segs| - 1]])
  {
    var one := [segs[|segs| - 1]];
    assert one[..0] == [] && NumbersIn(one[..0]) == [];
  }

  // ---- one link, end to end ----

  /** What arrives of everything a port ever staged: any choice of it, in any order, with any repeats. */
  function Delivered(ever: seq<Segment>, picks: seq<nat>): (d: seq<Segment>)
    requires forall i :: 0 <= i < |picks| ==> picks[i] < |ever|
    ensures |d| == |picks|
  {
    seq(|picks|, i requires 0 <= i < |picks| => ever[picks[i]])
  }

  lemma {:induction false} DeliveredNumbers(ever: seq<Segment>, picks: seq<nat>)
    requires Stamped(ever) && forall i :: 0 <= i < |picks| ==> picks[i] < |ever|
    ensures |NumbersIn(Delivered(ever, picks))| == |picks|
    ensures forall i :: 0 <= i < |picks| ==> NumbersIn(Delivered(ever, picks))[i] == Wire(picks[i])
  {
    if picks != [] {
      var front := picks[..|picks| - 1];
      DeliveredNumbers(ever, front);
      assert Delivered(ever, picks)[..|picks| - 1] == Delivered(ever, front);
    }
  }

  lemma TallyOfNumbers(numbers: seq<int>, picks: seq<nat>)
    requires |numbers| == |picks| && forall i :: 0 <= i < |picks| ==> numbers[i] == Wire(picks[i])
    ensures Tally(numbers) == Tally(picks)
  {
    forall i | 0 <= i < |picks|
      ensures Wire(numbers[i]) == Wire(picks[i])
    {
      assert numbers[i] == Wire(picks[i]);
      WireTwice(Wire(picks[i]));
    }
    TallyOfWire(numbers, picks);
  }

  /** Stamping at one end and counting at the other: whatever the socket or the network drops, repeats or reorders,
      as long as no number comes from half the number space away, the receiver's counters tell exactly how many of the
      sender's segments are missing, up to superfluous arrivals and ground counted twice. */
  lemma LinkLosses(sender: PortState, receiver: PortState, picks: seq<nat>, mtu: nat)
    requires TxOk(sender, mtu) && RxOk(receiver)
    requires picks != [] && Near(picks) && forall i :: 0 <= i < |picks| ==> picks[i] < |sender.ever|
    requires receiver.arrived == NumbersIn(Delivered(sender.ever, picks))
    ensures receiver.rxPkts == |picks|
    ensures receiver.gapTotal - receiver.reorders + Superfluous(picks) == |Missing(picks)| + Recounted(picks)
  {
    DeliveredNumbers(sender.ever, picks);
    TallyOfNumbers(receiver.arrived, picks);
    GapsCountLosses(picks);
  }

  // ---- the shard ----

  /** Give the engine its window and let it work: the window ends at the segment's end, and starts at the frame. */
  method CallEngine(slot: array<byte>, segEnd: nat, frameStart: nat, frameLen: nat, k: nat, engine: Pipeline)
    returns (verdict: Verdict, head: nat, len: nat)
    requires HEADROOM <= frameStart && frameStart + frameLen == segEnd <= slot.Length
    modifies slot
    ensures slot[segEnd..] == old(slot[segEnd..])
    ensures var given := Reach(old(slot[..segEnd]), frameStart, frameLen);
            && Worked(given, k, engine) == Reach(slot[..segEnd], head, len)
            && verdict == engine.verdict(k, Saw(given, k, engine))
  {
    var ctx := new FrameCtx(slot, segEnd, frameStart, frameLen);
    assert ctx.headroom >= MIN_HEADROOM;
    var seen := ctx.Perform(engine.next, k, engine.steps);
    verdict, head, len := engine.verdict(k, seen), ctx.headroom, ctx.len;
  }

  /** Show a frame to the engine and collect what it leaves. */
  method ShowFrame(slot: array<byte>, segEnd: nat, frameStart: nat, k: nat, engine: Pipeline)
    returns (verdict: Verdict, out: seq<byte>)
    requires HEADROOM <= frameStart <= segEnd <= slot.Length
    modifies slot
    ensures Shown(old(slot[..]), slot[..], frameStart, segEnd, k, engine, verdict, out)
  {
    ghost var before := slot[..];
    assert before[..segEnd] == slot[..segEnd] && before[segEnd..] == slot[segEnd..];
    var head, len;
    verdict, head, len := CallEngine(slot, segEnd, frameStart, segEnd - frameStart, k, engine);
    out := slot[head..head + len];
    JoinedAt(slot[..], segEnd, head, head + len);
    assert slot[..][..segEnd] == slot[..segEnd] && slot[..][segEnd..] == slot[segEnd..];
    assert slot[..][head..head + len] == out;
  }

  /** Show a segment's frame to the engine; `heard` is the shard once the segment is counted. */
  method ShowSegment(slot: array<byte>, segStart: nat, segEnd: nat, k: nat, ghost ingress: nat, engine: Pipeline,
                     ghost seg: Segment, ghost x: u32, ghost before: Snapshot, ghost heard: Snapshot)
    returns (verdict: Verdict, out: seq<byte>)
    requires HEADROOM <= segStart && segEnd <= slot.Length && |seg| >= OVERLAY_HDR_LEN && segStart + |seg| == segEnd
    requires before.slot == heard.slot == slot[..] && before.slot[segStart..segEnd] == seg
    requires Decode(seg).Decoded? && Decode(seg).hdr.sequence == x && ingress < |before.ports|
    requires heard.ports == before.ports[ingress := Heard(before.ports[ingress], x)]
    requires heard.c == before.c.(segments := before.c.segments + 1)
    modifies slot
    ensures Heeded(seg, segStart, segEnd, k, ingress, engine, before, heard.(slot := slot[..]), verdict, out)
  {
    FrameOfSegment(before.slot, segStart, segEnd, seg);
    verdict, out := ShowFrame(slot, segEnd, segStart + OVERLAY_HDR_LEN, k, engine);
  }

  lemma JoinedAt(s: seq<byte>, n: nat, a: nat, b: nat)
    requires a <= b <= n <= |s|
    ensures s == s[..n] + s[n..] && s[..n][a..b] == s[a..b]
  {
  }

  /** Distinct queues, with distinct buffers. */
  ghost predicate Apart(tx: seq<TxQueue>)
  {
    forall v, w :: 0 <= v < w < |tx| ==> tx[v] != tx[w] && tx[v].buf != tx[w].buf
  }

  /** The queue holds exactly these segments. */
  ghost predicate Holds(q: TxQueue, staged: seq<Segment>, mtu: nat)
    reads q, q.buf
  {
    q.Valid() && q.segLen == OVERLAY_HDR_LEN + mtu && q.staged == staged
  }

  /** Distinct new queues, all within `repr`. */
  ghost predicate Roster(tx: seq<TxQueue>, repr: set<object>, mtu: nat)
    reads repr
  {
    && (forall v :: 0 <= v < |tx| ==> tx[v] in repr && tx[v].buf in repr)
    && Apart(tx) && forall v {:trigger New(tx[v], repr, mtu)} :: 0 <= v < |tx| ==> New(tx[v], repr, mtu)
  }

  method AddQueue(tx: seq<TxQueue>, ghost repr: set<object>, innerMtu: nat)
    returns (q: TxQueue, ghost more: set<object>)
    requires Roster(tx, repr, innerMtu)
    ensures fresh(more - repr) && repr <= more && Roster(tx + [q], more, innerMtu)
  {
    q := new TxQueue(innerMtu);
    more := repr + {q, q.buf};
    ghost var all := tx + [q];
    forall v | 0 <= v < |all|
      ensures New(all[v], more, innerMtu)
    {
      if v < |tx| { assert New(tx[v], repr, innerMtu); }
    }
  }

  /** One new, empty queue per port. */
  method NewQueues(n: nat, innerMtu: nat) returns (tx: seq<TxQueue>, ghost repr: set<object>)
    ensures |tx| == n && fresh(repr) && Roster(tx, repr, innerMtu)
  {
    tx, repr := [], {};
    for i := 0 to n
      invariant |tx| == i && fresh(repr) && Roster(tx, repr, innerMtu)
    {
      var q;
      q, repr := AddQueue(tx, repr, innerMtu);
      tx := tx + [q];
    }
  }

  ghost predicate New(q: TxQueue, repr: set<object>, mtu: nat)
    reads q, q.buf
  {
    q in repr && q.buf in repr && Holds(q, [], mtu)
  }

  function PuntRepr(punt: PuntQueue?): set<object>
  {
    if punt == null then {} else {punt, punt.slots}
  }

  lemma FreshState(cfg: Config, ports: seq<PortState>)
    requires Vport.Indexed(cfg.topology) && OVERLAY_HDR_LEN + cfg.innerMtu <= 0xFFFF
    requires |ports| == |cfg.topology.entries| && forall v :: 0 <= v < |ports| ==> ports[v] == FRESH_PORT
    ensures StateOk(cfg, ports, ZEROED, 0)
  {
    FreshBalanced(ports);
    FreshRecorded(cfg);
    FreshAllOk(ports, cfg.innerMtu);
  }

  lemma FreshBalanced(ports: seq<PortState>)
    requires forall v :: 0 <= v < |ports| ==> ports[v] == FRESH_PORT
    ensures Balanced(ZEROED, TotalOf(ports), 0)
  {
    TotalOfFresh(ports);
  }

  lemma FreshAllOk(ports: seq<PortState>, mtu: nat)
    requires forall v :: 0 <= v < |ports| ==> ports[v] == FRESH_PORT
    ensures AllOk(ports, mtu)
  {
    FreshPortOk(mtu);
    forall v | 0 <= v < |ports|
      ensures PortOk(ports[v], mtu)
    {
      assert ports[v] == FRESH_PORT;
    }
  }

  lemma FreshRecorded(cfg: Config)
    ensures Recorded(cfg, ZEROED)
  {
    assert ZEROED.offered == [] && |ZEROED.sends.fates| == 0;
    assert AskedFor(UNUSED, cfg.socket, 0) == UNUSED;
  }

  class Shard {
    const cfg: Config
    /** One staging queue per port. */
    const tx: seq<TxQueue>
    /** The punt ring, if one is configured; other threads use it too. */
    const punt: PuntQueue?
    /** The queues and their buffers, and the ring and its slots. */
    ghost const repr: set<object>
    var c: Counters
    var ports: seq<PortState>

    ghost predicate Wired()
    {
      && Apart(tx) && this !in repr && PuntRepr(punt) <= repr
      && forall v :: 0 <= v < |tx| ==> tx[v] in repr && tx[v].buf in repr
    }

    /** Every queue holds what its port's state says. */
    ghost predicate Matching()
      reads this, repr
    {
      && Wired() && |tx| == |ports|
      && forall v {:trigger Holds(tx[v], ports[v].queue, cfg.innerMtu)} :: 0 <= v < |tx| ==>
           tx[v] in repr && tx[v].buf in repr && Holds(tx[v], ports[v].queue, cfg.innerMtu)
    }

    /** What this shard has offered is on the ring's record, in order. */
    ghost predicate PuntOk()
      reads this, repr
    {
      && Wired() && (punt != null <==> cfg.puntConfigured)
      && (punt != null ==>
            && punt.Valid() && punt.slotSize == cfg.innerMtu && punt.slots.Length == cfg.puntSlots
            && Within(c.offered, punt.offers))
    }

    ghost predicate Sound(owed: int)
      reads this, repr
    {
      StateOk(cfg, ports, c, owed) && Matching() && PuntOk()
    }

    ghost function Now(slot: array<byte>): Snapshot
      reads this, slot
    {
      Snapshot(ports, c, slot[..])
    }

    constructor (cfg: Config, punt: PuntQueue?)
      requires Vport.Indexed(cfg.topology) && OVERLAY_HDR_LEN + cfg.innerMtu <= 0xFFFF
      requires punt != null <==> cfg.puntConfigured
      requires punt != null ==>
                 punt.Valid() && punt.slotSize == cfg.innerMtu && punt.slots.Length == cfg.puntSlots
      ensures Sound(0) && fresh(repr - PuntRepr(punt)) && this.cfg == cfg && this.punt == punt
      ensures c == Counters(0, 0, 0, 0, 0, [], 0, 0, 0, 0, 0, Use(0, [], SendTally(0, 0, 0)))
      ensures |ports| == |cfg.topology.entries|
      ensures forall v :: 0 <= v < |ports| ==> ports[v] == PortState(0, 0, 0, 0, None, 0, 0, [], [], [], [])
    {
      var queues, owned := NewQueues(|cfg.topology.entries|, cfg.innerMtu);
      this.cfg, this.punt, tx, repr, c := cfg, punt, queues, owned + PuntRepr(punt), ZEROED;
      ports := seq(|cfg.topology.entries|, _ => FRESH_PORT);
      new;
      FreshState(cfg, ports);
      forall v | 0 <= v < |tx|
        ensures tx[v] in repr && tx[v].buf in repr && Holds(tx[v], ports[v].queue, cfg.innerMtu)
      {
        assert New(tx[v], owned, cfg.innerMtu);
      }
    }

    /** Replace one port's state by one with the same queue. */
    method Change(e: nat, p: PortState)
      requires Matching() && e < |ports| && p.queue == ports[e].queue
      modifies this`ports
      ensures Matching() && ports == old(ports)[e := p]
    {
      ports := ports[e := p];
      forall v | 0 <= v < |tx|
        ensures tx[v] in repr && tx[v].buf in repr && Holds(tx[v], ports[v].queue, cfg.innerMtu)
      {
        assert old(Holds(tx[v], ports[v].queue, cfg.innerMtu));
      }
    }

    method IsFull(e: nat) returns (full: bool)
      requires Matching() && e < |ports|
      ensures full <==> |ports[e].queue| >= TX_BATCH
    {
      assert Holds(tx[e], ports[e].queue, cfg.innerMtu);
      full := tx[e].IsFull();
    }

    /** Hand one queue to the socket and clear it. */
    method FlushQueue(e: nat) returns (hs: seq<Handed>, sent: nat, u: Use)
      requires Matching() && e < |ports|
      modifies this`ports, tx[e]
      ensures Matching() && ports == old(ports)[e := Flushed(old(ports[e]), hs, sent)]
      ensures ArriveAll(Writes(hs)) == old(ports[e].queue) && sent == |Reached(hs)|
      ensures ChargedFor(hs, c.sends.tally, u.tally)
      ensures u == AskedFor(c.sends, cfg.socket, |hs|) && u.fates == c.sends.fates + Fates(hs)
      ensures FewestWrites(Lengths(old(ports[e].queue)), GsoLimits(cfg.maxGsoSegments), |hs|)
    {
      assert Holds(tx[e], ports[e].queue, cfg.innerMtu);
      hs, sent, u := Transmit.Flush(tx[e], cfg.maxGsoSegments, cfg.socket, c.sends);
      ports := ports[e := Flushed(ports[e], hs, sent)];
      forall v | 0 <= v < |tx|
        ensures tx[v] in repr && tx[v].buf in repr && Holds(tx[v], ports[v].queue, cfg.innerMtu)
      {
        assert old(Holds(tx[v], ports[v].queue, cfg.innerMtu));
      }
    }

    /** Push a stamped frame on one queue, and take its number if the queue took the segment. */
    method PushQueue(e: nat, hdr: seq<byte>, frame: seq<byte>) returns (ok: bool)
      requires Matching() && e < |ports| && |hdr| == OVERLAY_HDR_LEN
      modifies this`ports, tx[e], tx[e].buf
      ensures ok <==> |old(ports[e].queue)| < TX_BATCH && |frame| <= cfg.innerMtu && |hdr + frame| <= 0xFFFF
      ensures Matching()
      ensures ports == if ok then old(ports)[e := Staged(old(ports[e]), hdr + frame)] else old(ports)
    {
      assert Holds(tx[e], ports[e].queue, cfg.innerMtu);
      ok := tx[e].Push(hdr, frame);
      ports := if ok then ports[e := Staged(ports[e], hdr + frame)] else ports;
      forall v | 0 <= v < |tx|
        ensures tx[v] in repr && tx[v].buf in repr && Holds(tx[v], ports[v].queue, cfg.innerMtu)
      {
        assert old(Holds(tx[v], ports[v].queue, cfg.innerMtu));
      }
    }

    /** Hand everything staged for one destination to the socket and clear its queue. */
    method Flush(e: nat, ghost owed: int)
      requires Sound(owed) && e < |ports|
      modifies this`ports, this`c, tx[e]
      ensures Sound(owed) && FlushedTo(cfg, old(ports), ports, e, old(c), c)
    {
      ghost var before, c0 := ports, c;
      var hs, sent, u := FlushQueue(e);
      c := c.(sends := u);
      FlushKeepsState(cfg, before, c0, owed, e, hs, sent, u);
      assert ports[e].handed[|before[e].handed|..] == hs;
    }

    /** Flush a full queue, and no other. */
    method MakeRoom(e: nat, ghost owed: int)
      requires Sound(owed) && e < |ports|
      modifies this`ports, this`c, tx[e]
      ensures Sound(owed) && OnlySends(old(c), c) && |ports| == |old(ports)| && |ports[e].queue| < 64
      ensures if |old(ports[e].queue)| < 64 then ports == old(ports) && c == old(c)
              else FlushedTo(cfg, old(ports), ports, e, old(c), c)
    {
      var full := IsFull(e);
      if full {
        Flush(e, owed);
      }
    }

    method PushStamped(e: nat, frame: seq<byte>, ingressId: u16, now: u32, ghost owed: int)
      requires Sound(owed) && e < |ports| && |frame| <= cfg.innerMtu && |ports[e].queue| < 64
      modifies this`ports, this`c, tx[e], tx[e].buf
      ensures Sound(owed) && c == old(c)
      ensures ports == old(ports)[e := Staged(old(ports[e]), Stamp(old(ports[e]), frame, ingressId, now))]
    {
      PushKeepsState(cfg, ports, c, owed, e, frame, ingressId, now);
      var ok := PushQueue(e, Encode(Hdr(ingressId, ports[e].txSeq, now)), frame);
      c := if ok then c else c.(oversize := c.oversize + 1, refusedPush := c.refusedPush + 1);
    }

    /** Stamp a frame with the egress's next number and stage it. `Push` never refuses. */
    method Stage(e: nat, frame: seq<byte>, ingressId: u16, now: u32, ghost owed: int)
      requires Sound(owed) && e < |ports| && |frame| <= cfg.innerMtu
      modifies this`ports, this`c, repr
      ensures Sound(owed) && OnlySends(old(c), c)
      ensures ForwardedTo(old(ports), ports, e, frame, ingressId, now)
    {
      ghost var first := ports;
      MakeRoom(e, owed);
      ghost var before := ports;
      PushStamped(e, frame, ingressId, now, owed);
      StagedAfterRoom(first, before, ports, e, frame, ingressId, now);
    }

    /** Stage a frame for every port but the one it came from. */
    method Flood(frame: seq<byte>, ingress: nat, ingressId: u16, now: u32, ghost owed: int)
      requires Sound(owed) && ingress < |ports| && |frame| <= cfg.innerMtu
      modifies this`ports, this`c, repr
      ensures Sound(owed) && OnlySends(old(c), c)
      ensures FloodedFrom(old(ports), ports, ingress, frame, ingressId, now)
    {
      for e := 0 to |ports|
        invariant Sound(owed) && OnlySends(old(c), c) && |ports| == |old(ports)|
        invariant ports[ingress] == old(ports)[ingress]
        invariant forall v :: e <= v < |ports| ==> ports[v] == old(ports)[v]
        invariant forall v :: 0 <= v < e && v != ingress ==>
                    StagedOn(old(ports)[v], ports[v], frame, ingressId, now)
      {
        if e != ingress {
          Stage(e, frame, ingressId, now, owed);
        }
      }
    }

    /** Charge a broadcast to its ingress port and flood. */
    method DispatchBroadcast(frame: seq<byte>, ingress: nat, ingressId: u16, now: u32)
      requires Sound(1) && ingress < |ports| && |frame| <= cfg.innerMtu
      modifies this`ports, this`c, repr
      ensures Sound(0) && OnlySends(old(c), c)
      ensures FloodedFrom(Charged(old(ports), ingress), ports, ingress, frame, ingressId, now)
    {
      ChargeKeepsState(cfg, ports, c, ingress);
      Change(ingress, ports[ingress].(broadcasts := ports[ingress].broadcasts + 1));
      Flood(frame, ingress, ingressId, now, 0);
    }

    /** Send to a configured port, or charge the unknown one. */
    method DispatchSend(port: u16, frame: seq<byte>, ingressId: u16, now: u32)
      requires Sound(1) && |frame| <= cfg.innerMtu
      modifies this`ports, this`c, repr
      ensures Sound(0)
      ensures match Vport.IdxOfId(cfg.topology, port)
              case None => ports == old(ports) && c == old(c).(unknownPort := old(c).unknownPort + 1)
              case Some(e) =>
                && OnlySends(old(c).(forwarded := old(c).forwarded + 1), c)
                && ForwardedTo(old(ports), ports, e, frame, ingressId, now)
    {
      var egress := Vport.IdxOfId(cfg.topology, port);
      if egress.Some? {
        c := c.(forwarded := c.forwarded + 1);
        assert egress.value < |ports|;
        Stage(egress.value, frame, ingressId, now, 0);
      } else {
        c := c.(unknownPort := c.unknownPort + 1);
      }
    }

    /** Offer a frame to the punt ring. It gets in whole, or met a full ring. */
    method PushPunt(frame: seq<byte>, ingressId: u16, now: u32) returns (ok: bool, met: nat)
      requires PuntOk() && punt != null && |frame| <= cfg.innerMtu
      modifies punt, punt.slots
      ensures punt.Valid() && (ok <==> met < cfg.puntSlots)
      ensures Within(c.offered + [Offer(PuntFrame(ingressId, now, frame), met)], punt.offers)
      ensures if ok then punt.Newest() == PuntFrame(ingressId, now, frame) else punt.len == punt.slots.Length
    {
      assert Kept(frame, ingressId, now, punt.slotSize) == PuntFrame(ingressId, now, frame);
      ok, met := PushAmongOthers(punt, frame, ingressId, now, c.offered);
    }

    /** Punt a frame: it is the ring's newest when this returns, or the ring is full and overflow is charged. */
    method DispatchPunt(frame: seq<byte>, ingressId: u16, now: u32)
      requires Sound(1) && |frame| <= cfg.innerMtu
      modifies this`c, repr
      ensures Sound(0)
      ensures if !cfg.puntConfigured then c == old(c).(puntUnconfigured := old(c).puntUnconfigured + 1)
              else
                && Punted(cfg, PuntFrame(ingressId, now, frame), old(c), c) && punt != null && punt.Valid()
                && if c.puntOverflow == old(c).puntOverflow then punt.Newest() == PuntFrame(ingressId, now, frame)
                   else punt.len == punt.slots.Length
    {
      if punt == null {
        c := c.(puntUnconfigured := c.puntUnconfigured + 1);
      } else {
        var ok, met := PushPunt(frame, ingressId, now);
        OfferSnoc(c.offered, Offer(PuntFrame(ingressId, now, frame), met), cfg.puntSlots);
        c := c.(offered := c.offered + [Offer(PuntFrame(ingressId, now, frame), met)],
                puntOverflow := c.puntOverflow + if ok then 0 else 1);
      }
    }

    /** Follow a verdict: one destination, one counter. */
    method Dispatch(verdict: Verdict, frame: seq<byte>, ingress: nat, ingressId: u16, now: u32)
      requires Sound(1) && ingress < |ports| && ingressId == cfg.topology.entries[ingress].id
      requires verdict != Discard ==> |frame| <= cfg.innerMtu
      modifies this`ports, this`c, repr
      ensures Sound(0) && Routed(cfg, verdict, frame, ingress, now, old(ports), ports, old(c), c)
    {
      match verdict {
        case Discard =>
          c := c.(engineDrop := c.engineDrop + 1);
        case ToControl =>
          DispatchPunt(frame, ingressId, now);
        case Send(port) =>
          DispatchSend(port, frame, ingressId, now);
        case Broadcast =>
          DispatchBroadcast(frame, ingress, ingressId, now);
      }
    }

    /** Charge a segment whose header did not decode. */
    method Refuse()
      requires Sound(0)
      modifies this`c
      ensures Sound(0) && c == old(c).(segments := old(c).segments + 1, badHeader := old(c).badHeader + 1)
    {
      c := c.(segments := c.segments + 1, badHeader := c.badHeader + 1);
    }

    /** Charge a frame the engine left too long. */
    method Oversize()
      requires Sound(1)
      modifies this`c
      ensures Sound(0) && c == old(c).(oversize := old(c).oversize + 1)
    {
      c := c.(oversize := c.oversize + 1);
    }

    /** Count a segment numbered `x` as accepted on `ingress`; its frame is still to be charged. */
    method Accept(ingress: nat, x: u32)
      requires Sound(0) && ingress < |ports|
      modifies this`ports, this`c
      ensures Sound(1) && c == old(c).(segments := old(c).segments + 1)
      ensures ports == old(ports)[ingress := Heard(old(ports[ingress]), x)]
    {
      AcceptKeepsState(cfg, ports, c, ingress, x);
      Change(ingress, Heard(ports[ingress], x));
      c := c.(segments := c.segments + 1);
    }

    /** Charge a frame that is too long, or dispatch it. */
    method Conclude(verdict: Verdict, frame: seq<byte>, ingress: nat, now: u32)
      requires Sound(1) && ingress < |ports|
      modifies this`ports, this`c, repr
      ensures Sound(0) && |ports| == |old(ports)|
      ensures Concluded(cfg, verdict, frame, ingress, now, old(ports), ports, old(c), c)
    {
      if verdict != Discard && |frame| > cfg.innerMtu {
        Oversize();
        return;
      }
      Dispatch(verdict, frame, ingress, cfg.topology.entries[ingress].id, now);
    }

    /** Count a segment whose header decodes and show its frame to the engine. */
    method Heed(slot: array<byte>, segStart: nat, segEnd: nat, k: nat, ingress: nat, engine: Pipeline, x: u32,
                ghost seg: Segment, ghost before: Snapshot) returns (verdict: Verdict, out: seq<byte>)
      requires Sound(0) && ingress < |ports| && slot !in repr && before == Now(slot)
      requires HEADROOM <= segStart <= segEnd <= slot.Length && before.slot[segStart..segEnd] == seg
      requires Decode(seg).Decoded? && Decode(seg).hdr.sequence == x
      modifies this`ports, this`c, slot
      ensures Sound(1) && Heeded(seg, segStart, segEnd, k, ingress, engine, before, Now(slot), verdict, out)
    {
      Accept(ingress, x);
      assert slot[..] == before.slot;
      verdict, out := ShowSegment(slot, segStart, segEnd, k, ingress, engine, seg, x, before, Now(slot));
    }

    /** A segment whose header decodes. */
    method AcceptSegment(slot: array<byte>, segStart: nat, segEnd: nat, k: nat, ingress: nat, now: u32,
                         engine: Pipeline, x: u32, ghost seg: Segment)
      requires Sound(0) && ingress < |ports| && slot !in repr
      requires HEADROOM <= segStart <= segEnd <= slot.Length && slot[..][segStart..segEnd] == seg
      requires Decode(seg).Decoded? && Decode(seg).hdr.sequence == x
      modifies this`ports, this`c, repr, slot
      ensures Sound(0) && SegmentStep(cfg, seg, segStart, k, ingress, now, engine, old(Now(slot)), Now(slot))
    {
      ghost var before := Now(slot);
      var verdict, out := Heed(slot, segStart, segEnd, k, ingress, engine, x, seg, before);
      ghost var mid := Now(slot);
      Conclude(verdict, out, ingress, now);
      assert Now(slot).slot == mid.slot;
      StepAccepted(cfg, seg, segStart, segEnd, k, ingress, now, engine, before, mid, verdict, out, Now(slot));
    }

    /** Segment `k` of a read, `slot[segStart..segEnd]`. */
    method ReceiveSegment(slot: array<byte>, segStart: nat, segEnd: nat, k: nat, ingress: nat, now: u32,
                          engine: Pipeline, ghost seg: Segment)
      requires Sound(0) && ingress < |ports| && slot !in repr
      requires HEADROOM <= segStart <= segEnd <= slot.Length && slot[..][segStart..segEnd] == seg
      modifies this`ports, this`c, repr, slot
      ensures Sound(0) && SegmentStep(cfg, seg, segStart, k, ingress, now, engine, old(Now(slot)), Now(slot))
    {
      assert slot[segStart..segEnd] == seg;
      var decoded := Decode(slot[segStart..segEnd]);
      if decoded.Decoded? {
        AcceptSegment(slot, segStart, segEnd, k, ingress, now, engine, decoded.hdr.sequence, seg);
      } else {
        Refuse();
      }
    }

    /** Segment `k` of a read reaches the engine as it was received and leaves the segments behind it intact. */
    method ReceiveNth(slot: array<byte>, k: nat, stride: nat, payloadEnd: nat, ingress: nat, now: u32,
                      engine: Pipeline, ghost bytes: seq<byte>)
      requires Sound(0) && ingress < |ports| && slot !in repr && stride > 0 && k < |Walk(bytes, stride)|
      requires HEADROOM + |bytes| == payloadEnd <= slot.Length && Intact(slot[..], bytes, k * stride)
      modifies this`ports, this`c, repr, slot
      ensures Sound(0) && ingress < |ports|
      ensures SegmentStep(cfg, Walk(bytes, stride)[k], StartOf(k, stride), k, ingress, now, engine,
                          old(Now(slot)), Now(slot))
      ensures k + 1 < |Walk(bytes, stride)| ==> Intact(slot[..], bytes, (k + 1) * stride)
    {
      var segStart := StartOf(k, stride);
      var segEnd := if segStart + stride < payloadEnd then segStart + stride else payloadEnd;
      ghost var seg, before := Walk(bytes, stride)[k], Now(slot);
      NthSegment(before.slot, bytes, stride, k, segEnd);
      ReceiveSegment(slot, segStart, segEnd, k, ingress, now, engine, seg);
      StepLeavesTheRest(cfg, seg, segStart, k, ingress, now, engine, before, Now(slot));
      NextIntact(before.slot, Now(slot).slot, bytes, stride, k, segEnd);
    }

    /** The segments of a read from a known peer, in order. */
    method ReceiveAll(slot: array<byte>, segments: nat, stride: nat, payloadEnd: nat, ingress: nat, now: u32,
                      engine: Pipeline, ghost bytes: seq<byte>)
      requires Sound(0) && ingress < |ports| && slot !in repr && stride > 0 && segments == |Walk(bytes, stride)|
      requires HEADROOM + |bytes| == payloadEnd <= slot.Length && Intact(slot[..], bytes, 0)
      modifies this`ports, this`c, repr, slot
      ensures Sound(0)
      ensures ReadSteps(cfg, Walk(bytes, stride), stride, ingress, now, engine, old(Now(slot)), Now(slot))
    {
      ghost var segs, first := Walk(bytes, stride), Now(slot);
      assert segs[..0] == [];
      for k := 0 to segments
        invariant Sound(0) && ingress < |ports|
        invariant ReadSteps(cfg, segs[..k], stride, ingress, now, engine, first, Now(slot))
        invariant k < segments ==> Intact(slot[..], bytes, k * stride)
      {
        ghost var mid := Now(slot);
        ReceiveNth(slot, k, stride, payloadEnd, ingress, now, engine, bytes);
        ReadStepsSnoc(cfg, segs, k, stride, ingress, now, engine, first, mid, Now(slot));
      }
      assert segs[..segments] == segs;
    }

    /** Charge a read from nobody's peer. */
    method RefuseRead(segments: nat)
      requires Sound(0)
      modifies this`c
      ensures Sound(0)
      ensures c == old(c).(segments := old(c).segments + segments, unknownPeer := old(c).unknownPeer + segments)
    {
      c := c.(segments := c.segments + segments, unknownPeer := c.unknownPeer + segments);
    }

    /** One read. Each of its segments is shown to the engine once, in order, with its bytes as received, whatever
        the engine did to the segments before it. */
    method Receive(slot: array<byte>, len: nat, metaStride: nat, peer: Vport.Peer, now: u32, engine: Pipeline)
      requires Sound(0) && slot !in repr && 64 + len <= slot.Length
      modifies this`ports, this`c, repr, slot
      ensures Sound(0)
      ensures ReadStep(cfg, old(slot[64..64 + len]), metaStride, peer, now, engine,
                       old(Now(slot)), Now(slot))
    {
      if len == 0 {
        return;
      }
      var stride := if metaStride == 0 then len else metaStride;
      var segments := CeilDiv(len, stride);
      ghost var bytes := slot[HEADROOM..HEADROOM + len];
      WalkCount(bytes, stride);
      var found := Vport.IdxOfPeer(cfg.topology, peer);
      if found.None? {
        RefuseRead(segments);
        return;
      }
      assert found.value < |ports|;
      ReceiveAll(slot, segments, stride, HEADROOM + len, found.value, now, engine, bytes);
    }

    /** Flush one port, if anything is staged on it. */
    method FlushPort(e: nat) returns (ghost f: seq<bool>)
      requires Sound(0) && e < |ports|
      modifies this`ports, this`c, repr
      ensures Sound(0) && OnlySends(old(c), c) && ports == old(ports)[e := ports[e]]
      ensures Emptied(old(ports[e]), ports[e], f) && c.sends.fates == old(c).sends.fates + f
    {
      ghost var n := |ports[e].handed|;
      if ports[e].queue != [] {
        Flush(e, 0);
      } else {
        assert ports[e].handed[|ports[e].handed|..] == [];
      }
      EmptyPort(cfg, ports, c, e);
      f := Fates(ports[e].handed[n..]);
    }

    /** Flush what is staged on any port: nothing stays behind, and everything ever staged for a peer was handed to
        the socket, in order. The socket was put every write, port by port; `fates` says what became of them. */
    method FlushAll() returns (ghost fates: seq<seq<bool>>)
      requires Sound(0)
      modifies this`ports, this`c, repr
      ensures Sound(0) && OnlySends(old(c), c) && |ports| == |old(ports)| == |fates|
      ensures forall v :: 0 <= v < |ports| ==> Emptied(old(ports)[v], ports[v], fates[v])
      ensures c.sends.fates == old(c).sends.fates + Flatten(fates)
    {
      fates := [];
      for e := 0 to |ports|
        invariant Sound(0) && OnlySends(old(c), c) && |ports| == |old(ports)| && |fates| == e
        invariant forall v :: e <= v < |ports| ==> ports[v] == old(ports)[v]
        invariant forall v :: 0 <= v < e ==> Emptied(old(ports)[v], ports[v], fates[v])
        invariant c.sends.fates == old(c).sends.fates + Flatten(fates)
      {
        ghost var f := FlushPort(e);
        FlattenOneMore(old(c).sends.fates, fates, f);
        fates := fates + [f];
      }
    }
  }

  lemma FlattenOneMore(f: seq<bool>, rows: seq<seq<bool>>, row: seq<bool>)
    ensures (f + Flatten(rows)) + row == f + Flatten(rows + [row])
  {
    assert (rows + [row])[..|rows|] == rows;
  }

  /** Only what was queued has moved, and all of it: everything ever staged has been handed to the socket. */
  ghost predicate Emptied(p: PortState, q: PortState, fates: seq<bool>)
  {
    && q == p.(queue := [], handed := q.handed, txPkts := q.txPkts) && p.handed <= q.handed
    && fates == Fates(q.handed[|p.handed|..])
    && ArriveAll(Writes(q.handed)) == q.ever && q.txPkts == |Reached(q.handed)|
  }

  lemma EmptyPort(cfg: Config, ports: seq<PortState>, c: Counters, e: nat)
    requires StateOk(cfg, ports, c, 0) && e < |ports| && ports[e].queue == []
    ensures ArriveAll(Writes(ports[e].handed)) == ports[e].ever && ports[e].txPkts == |Reached(ports[e].handed)|
  {
    assert PortOk(ports[e], cfg.innerMtu);
  }

  lemma FreshPortOk(mtu: nat)
    ensures PortOk(FRESH_PORT, mtu)
  {
    assert Writes([]) == [] && ArriveAll([]) == [] && Reached([]) == [];
  }

  /** From byte `at` on, a slot still holds what was received. */
  ghost predicate Intact(slot: seq<byte>, bytes: seq<byte>, at: int)
  {
    && HEADROOM + |bytes| <= |slot| && 0 <= at <= |bytes|
    && forall i :: at <= i < |bytes| ==> slot[HEADROOM + i] == bytes[i]
  }

  /** Segment `k` lies in the slot as it was received. */
  lemma NthSegment(slot: seq<byte>, bytes: seq<byte>, stride: nat, k: nat, segEnd: nat)
    requires stride > 0 && k < |Walk(bytes, stride)| && Intact(slot, bytes, k * stride)
    requires segEnd == Min(StartOf(k, stride) + stride, HEADROOM + |bytes|)
    ensures HEADROOM <= StartOf(k, stride) <= segEnd <= |slot|
    ensures slot[StartOf(k, stride)..segEnd] == Walk(bytes, stride)[k]
  {
    WalkedSegment(bytes, stride, k);
  }

  /** What a segment leaves alone is the next one. */
  lemma NextIntact(before: seq<byte>, after: seq<byte>, bytes: seq<byte>, stride: nat, k: nat, segEnd: nat)
    requires stride > 0 && k < |Walk(bytes, stride)| && Intact(before, bytes, k * stride) && |after| == |before|
    requires segEnd == Min(StartOf(k, stride) + stride, HEADROOM + |bytes|)
    requires forall i :: segEnd <= i < |before| ==> after[i] == before[i]
    ensures k + 1 < |Walk(bytes, stride)| ==> Intact(after, bytes, (k + 1) * stride)
  {
    WalkedSegment(bytes, stride, k);
    StillIntact(before, after, bytes, k * stride, segEnd - HEADROOM);
  }

  lemma StillIntact(before: seq<byte>, after: seq<byte>, bytes: seq<byte>, a: nat, b: nat)
    requires Intact(before, bytes, a) && a <= b <= |bytes| && |after| == |before|
    requires forall i :: HEADROOM + b <= i < |before| ==> after[i] == before[i]
    ensures Intact(after, bytes, b)
  {
  }
}
