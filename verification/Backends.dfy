/** Two renderings of `l3fwd`: the native engine, which fuses the ingress check and the checksum scrub
    (crates/up4-engine/src/programs/l3fwd.rs), and the generated program run by the uBPF adapter inside
    the envelope (crates/up4-ubpf/src/pipeline.rs, crates/up4-engine/src/envelope.rs). */
module Backends {
  import opened Bits
  import opened Buckets
  import opened Engine
  import opened Headers
  import opened L3fwd
  import NativeTable
  import P4c = P4cL3fwd
  import opened UbpfImages
  import opened UbpfTable

  const BROADCAST_PORT: u32 := 65534
  const MTU: nat := 2048

  // ---- rewriting and scrubbing ----

  /** Which bytes hold checksums depends only on the EtherType, the first IPv4 byte and the protocol. */
  lemma SameChecksumBytes(f: Frame, g: Frame, i: nat)
    requires |f| == |g| >= 34
    requires f[12] == g[12] && f[13] == g[13] && f[14] == g[14] && f[23] == g[23]
    ensures ChecksumByte(f, i) == ChecksumByte(g, i)
  {
  }

  /** Zeroing checksums after the native rewrite, or after the generated one, which has already zeroed the
      header checksum, gives the same frame. */
  lemma BothRewrites(s: Frame, dmac: Mac)
    requires Routable(s)
    ensures Scrubbed(dmac + s[6..22] + [s[22] - 1] + s[23..]) == Rewritten(s, dmac)
    ensures Scrubbed(P4c.Forwarded(s, dmac)) == Rewritten(s, dmac)
  {
    var n, p := dmac + s[6..22] + [s[22] - 1] + s[23..], P4c.Forwarded(s, dmac);
    forall i: nat | i < |s|
      ensures ChecksumByte(n, i) == ChecksumByte(s, i) == ChecksumByte(p, i)
    {
      SameChecksumBytes(s, n, i);
      SameChecksumBytes(s, p, i);
    }
  }

  // ---- native ----

  class NativePipeline {
    const table: NativeTable.LpmTable<Action>

    ghost predicate Valid()
      reads this, table
    {
      table.Valid()
    }

    ghost function State(): Tables
      reads this, table
    {
      Tables(table.routes, table.default)
    }

    constructor ()
      ensures Valid() && State() == After([]) && fresh(table)
    {
      table := new NativeTable.LpmTable<Action>(Action.Drop);
    }

    method Write(op: ControlOp)
      requires Valid() && Admissible(op)
      modifies table
      ensures Valid() && State() == Written(old(State()), op)
    {
      match op
      case Add(addr, len, action) =>
        NativeTable.NetworkIdempotent(addr, len);
        var _ := table.Insert(NativeTable.NewPrefix(addr, len).value, action);
      case Remove(addr, len) =>
        var _ := table.Remove(NativeTable.NewPrefix(addr, len).value);
      case Clear => table.Clear();
      case SetDefault(action) => table.SetDefault(action);
    }

    /** One frame, in place. */
    method Process(frame: array<byte>) returns (verdict: Verdict)
      requires Valid()
      modifies frame
      ensures Outcome(verdict, frame[..]) == Route(old(frame[..]), table.routes, table.default)
    {
      ghost var s := frame[..];
      var eth := ParseEthernet(frame[..]);
      if eth.None? || eth.value.etherType != ETHERTYPE_IPV4 {
        return Discard;
      }
      var ip := ParseIpv4(frame[..], ETH_HDR_LEN);
      if ip.None? || ip.value.ttl == 0 {
        return Discard;
      }
      var action := table.Apply(ip.value.dst);
      match action
      case Forward(port, dmac) =>
        frame[ip.value.offset + 8] := ip.value.ttl - 1;
        SetDst(frame, dmac);
        assert frame[..] == dmac + s[6..22] + [s[22] - 1] + s[23..];
        ZeroInnerChecksums(frame);
        BothRewrites(s, dmac);
        return Send(port);
      case Punt => return ToControl;
      case Drop => return Discard;
    }
  }

  // ---- uBPF, inside the envelope ----

  /** What the adapter makes of the egress port the program left behind. */
  predicate Reserved(action: Action)
  {
    action.Forward? && action.port >= BROADCAST_PORT
  }

  /** What the generated program does to a frame when nothing surrounds it. */
  function InnerRoute(s: Frame, t: Tables): Outcome
  {
    if !P4c.Extracted(s) || |s| > MTU || s[22] == 0 then Outcome(Discard, s)
    else
      match NativeTable.Resolve(t.routes, t.default, Destination(s))
      case Drop => Outcome(Discard, s)
      case Punt => Outcome(ToControl, s)
      case Forward(port, dmac) =>
        if port == P4c.PUNT_PORT then Outcome(ToControl, s)
        else if port == BROADCAST_PORT then Outcome(Broadcast, s)
        else Outcome(Send(port), P4c.Forwarded(s, dmac))
  }

  /** What the envelope makes of the program: admission first, and a scrub of whatever goes out. */
  function UbpfRoute(frame: Frame, t: Tables): Outcome
  {
    if !Admits(frame) then Outcome(Discard, frame)
    else
      var inner := InnerRoute(frame, t);
      if inner.verdict.Send? || inner.verdict.Broadcast? then Outcome(inner.verdict, Scrubbed(inner.frame)) else inner
  }

  /** What a run of the program returns, the port it names, and the frame it leaves when it forwards. */
  ghost predicate Ran(frame: Frame, t: Tables, ret: nat, port: u32, out: Frame)
  {
    if !P4c.Extracted(frame) then ret == 1 && port == P4c.NO_PORT
    else if frame[22] == 0 then ret == 0
    else
      match NativeTable.Resolve(t.routes, t.default, Destination(frame))
      case Forward(p, dmac) => ret == 1 && port == p && out == P4c.Forwarded(frame, dmac)
      case Punt => ret == 1 && port == P4c.PUNT_PORT
      case Drop => ret == 0
  }

  /** How the adapter reads the return code and the egress port. */
  function VerdictOf(ret: nat, port: u32): Verdict
  {
    if ret == 0 || port == P4c.NO_PORT then Discard
    else if port == P4c.PUNT_PORT then ToControl
    else if port == BROADCAST_PORT then Broadcast
    else Send(port % 0x1_0000)
  }

  lemma RanIsInnerRoute(frame: Frame, t: Tables, ret: nat, port: u32, out: Frame)
    requires |frame| <= MTU && Ran(frame, t, ret, port, out)
    ensures InnerRoute(frame, t) == Outcome(VerdictOf(ret, port), if VerdictOf(ret, port).Send? then out else frame)
  {
    if !P4c.Extracted(frame) || frame[22] == 0 {
      assert VerdictOf(ret, port) == Discard;
    } else {
      match NativeTable.Resolve(t.routes, t.default, Destination(frame))
      case Forward(p, dmac) => assert port == p < 0x1_0000 && p % 0x1_0000 == p;
      case Punt => assert VerdictOf(ret, port) == ToControl;
      case Drop => assert VerdictOf(ret, port) == Discard;
    }
  }

  class UbpfPipeline {
    const entries: Table
    const defaults: Table
    /** The VM's packet buffer: it outlives a frame, so it starts each one with stale bytes. */
    const packet: array<byte>
    ghost var tables: Tables

    ghost predicate Valid()
      reads this, entries, defaults
    {
      packet.Length == MTU && entries != defaults && P4c.MapsFor(entries, defaults, tables)
    }

    constructor ()
      ensures Valid() && tables == After([])
      ensures fresh(entries) && fresh(defaults) && fresh(packet)
    {
      entries := new Table(Lpm, ENTRY_LAYOUT, None);
      defaults := new Table(Exact, DEFAULT_LAYOUT, Some(ValueImage(Action.Drop)));
      packet := new byte[MTU];
      tables := Tables(map[], Action.Drop);
    }

    method Add(addr: u32, len: nat, action: Action)
      requires Valid() && Admissible(ControlOp.Add(addr, len, action))
      modifies this`tables, entries
      ensures Valid() && tables == Written(old(tables), ControlOp.Add(addr, len, action))
    {
      Filing(addr, len);
      EncodesAdd(entries.routes, tables.routes, len, NativeTable.Network(addr, len), action);
      NativeTable.NetworkIdempotent(addr, len);
      entries.Insert(KeyImage(addr), len, ValueImage(action));
      tables := Written(tables, ControlOp.Add(addr, len, action));
    }

    method Remove(addr: u32, len: nat)
      requires Valid() && Admissible(ControlOp.Remove(addr, len))
      modifies this`tables, entries
      ensures Valid() && tables == Written(old(tables), ControlOp.Remove(addr, len))
    {
      Filing(addr, len);
      EncodesRemove(entries.routes, tables.routes, len, NativeTable.Network(addr, len));
      var _ := entries.Remove(KeyImage(addr), len);
      tables := Written(tables, ControlOp.Remove(addr, len));
    }

    method Write(op: ControlOp)
      requires Valid() && Admissible(op)
      modifies this`tables, entries, defaults
      ensures Valid() && tables == Written(old(tables), op)
    {
      match op {
        case Add(addr, len, action) => Add(addr, len, action);
        case Remove(addr, len) => Remove(addr, len);
        case Clear =>
          entries.Clear();
          tables := Written(tables, op);
        case SetDefault(action) =>
          defaults.SetDefault(ValueImage(action));
          tables := Written(tables, op);
      }
    }

    /** `Vm::run`: copy the frame over whatever the buffer held, and execute. */
    method Run(frame: Frame) returns (ret: nat, port: u32)
      requires Valid() && |frame| <= MTU
      modifies packet
      ensures Valid() && tables == old(tables)
      ensures Ran(frame, tables, ret, port, packet[..|frame|])
    {
      forall i | 0 <= i < |frame| {
        packet[i] := frame[i];
      }
      ghost var s := packet[..];
      assert s[..|frame|] == frame;
      ret, port := P4c.Entry(packet, |frame|, entries, defaults, tables);
      if P4c.Extracted(frame) && frame[22] != 0 {
        assert Be32(s, 30) == Destination(frame);
        ghost var action := NativeTable.Resolve(tables.routes, tables.default, Destination(frame));
        if action.Forward? { ForwardedPrefix(s, |frame|, action.dmac); }
      }
    }

    /** One frame through the VM: run, read the verdict off the egress port, copy the packet out. */
    method ProcessInner(frame: array<byte>) returns (verdict: Verdict)
      requires Valid() && frame != packet
      modifies frame, packet
      ensures Valid() && tables == old(tables)
      ensures Outcome(verdict, frame[..]) == InnerRoute(old(frame[..]), tables)
    {
      if frame.Length > packet.Length {
        return Discard;
      }
      var ret, port := Run(frame[..]);
      RanIsInnerRoute(frame[..], tables, ret, port, packet[..frame.Length]);
      verdict := VerdictOf(ret, port);
      if verdict.Send? {
        forall i | 0 <= i < frame.Length {
          frame[i] := packet[i];
        }
        assert frame[..] == packet[..frame.Length];
      }
    }

    /** Admission, the program, then scrubbing of whatever is going out. */
    method Process(frame: array<byte>) returns (verdict: Verdict)
      requires Valid() && frame != packet
      modifies frame, packet
      ensures Valid() && tables == old(tables)
      ensures Outcome(verdict, frame[..]) == UbpfRoute(old(frame[..]), tables)
    {
      if !Admits(frame[..]) {
        return Discard;
      }
      verdict := ProcessInner(frame);
      if verdict.Send? || verdict.Broadcast? {
        ZeroInnerChecksums(frame);
      }
    }
  }

  /** The stale bytes past the frame play no part in what `forward` writes. */
  lemma ForwardedPrefix(s: Frame, n: nat, dmac: Mac)
    requires 34 <= n <= |s| && s[22] > 0
    ensures P4c.Forwarded(s, dmac)[..n] == P4c.Forwarded(s[..n], dmac)
  {
  }

  /** Where the entry map files a route. */
  lemma Filing(addr: u32, len: nat)
    ensures Filed(Lpm, ENTRY_LAYOUT, KeyImage(addr), len) == Prefix(len, ToLe(NativeTable.Network(addr, len), 4))
  {
    assert Window(ENTRY_LAYOUT, KeyImage(addr)) == ToLe(addr, 4);
    MaskedImage(addr, len);
  }

  /** `Admission::CoherentIpv4`: only a frame that announces IPv4 can be refused. */
  predicate Admits(frame: Frame)
  {
    var eth := ParseEthernet(frame);
    if eth.Some? && eth.value.etherType == ETHERTYPE_IPV4 then ParseIpv4(frame, ETH_HDR_LEN).Some? else true
  }

  /** A frame is refused exactly when it has the IPv4 EtherType and no coherent header behind it. */
  lemma AdmitsOnBytes(frame: Frame)
    ensures Admits(frame) <==> (|frame| >= 14 && frame[12] == 8 && frame[13] == 0 ==> CoherentIpv4(frame))
  {
  }

  // ---- agreement ----

  /** Where the adapter departs from the router: a routed frame that does not fit the VM's buffer, or one
      whose route names a port the adapter reads as punt or broadcast. */
  predicate Deviates(frame: Frame, t: Tables)
  {
    Routable(frame) &&
    var action := NativeTable.Resolve(t.routes, t.default, Destination(frame));
    Reserved(action) || (|frame| > MTU && action != Action.Drop)
  }

  /** The two backends agree on a frame, verdict and bytes, exactly when it does not deviate: parser and envelope
      let the same frames through, and fused and separate scrubbing leave the same bytes. */
  lemma AgreeExactly(frame: Frame, t: Tables)
    ensures Route(frame, t.routes, t.default) == UbpfRoute(frame, t) <==> !Deviates(frame, t)
  {
    if Deviates(frame, t) {
      assert Route(frame, t.routes, t.default).verdict != UbpfRoute(frame, t).verdict;
    } else if Routable(frame) {
      var action := NativeTable.Resolve(t.routes, t.default, Destination(frame));
      if action.Forward? { BothRewrites(frame, action.dmac); }
    }
  }

  /** What the adapter does where it departs from the router. */
  lemma DeviationsOnPorts(frame: Frame, t: Tables)
    requires Routable(frame)
    ensures var action, out := NativeTable.Resolve(t.routes, t.default, Destination(frame)), UbpfRoute(frame, t);
            && (Deviates(frame, t) <==>
                (action.Forward? && action.port >= 65534) || (|frame| > 2048 && action != Action.Drop))
            && (|frame| > 2048 ==> out == Outcome(Discard, frame))
            && (|frame| <= 2048 && action.Forward? && action.port == 65534 ==>
                  out == Outcome(Broadcast, Scrubbed(frame)))
            && (|frame| <= 2048 && action.Forward? && action.port == 65535 ==> out == Outcome(ToControl, frame))
  {
    RoutableOnBytes(frame);
  }

  /** The shortest frame addressed to `addr`. */
  function Probe(addr: u32): (f: Frame)
    ensures |f| == 34
  {
    [0, 0, 0, 0, 0, 0, 0, 0, 0, 0, 0, 0, 8, 0, 0x45, 0, 0, 0, 0, 0, 0, 0, 1, 0, 0, 0, 0, 0, 0, 0] + ToBe(addr, 4)
  }

  lemma ProbeRoutes(addr: u32)
    ensures Routable(Probe(addr)) && Destination(Probe(addr)) == addr
  {
    var f := Probe(addr);
    assert f[30..] == ToBe(addr, 4) + [];
    Be32Back(addr, []);
    assert Be32(f, 30) == Be32(f[30..], 0);
  }

  /** Agreement on every frame that fits the buffer is a property of the tables: no address may resolve to a
      reserved port. */
  lemma AgreeOnAllFrames(t: Tables)
    ensures (forall f: Frame :: |f| <= MTU ==> Route(f, t.routes, t.default) == UbpfRoute(f, t))
            <==> (forall addr: u32 :: !Reserved(NativeTable.Resolve(t.routes, t.default, addr)))
  {
    forall f: Frame | |f| <= MTU
      ensures Route(f, t.routes, t.default) == UbpfRoute(f, t) <==> !Deviates(f, t)
    {
      AgreeExactly(f, t);
    }
    forall addr: u32
      ensures Deviates(Probe(addr), t) == Reserved(NativeTable.Resolve(t.routes, t.default, addr))
      ensures Route(Probe(addr), t.routes, t.default) == UbpfRoute(Probe(addr), t) <==> !Deviates(Probe(addr), t)
    {
      ProbeRoutes(addr);
      AgreeExactly(Probe(addr), t);
    }
  }

  // ---- whole sessions ----

  datatype Event = Control(op: ControlOp) | Packet(frame: Frame)

  /** A frame and the tables it meets. */
  datatype Offered = Offered(frame: Frame, tables: Tables)

  function ControlHistory(events: seq<Event>): (ops: seq<ControlOp>)
  {
    if events == [] then []
    else
      var rest, last := events[..|events| - 1], events[|events| - 1];
      if last.Control? then ControlHistory(rest) + [last.op] else ControlHistory(rest)
  }

  function FramesOffered(events: seq<Event>): seq<Offered>
  {
    if events == [] then []
    else
      var rest, last := events[..|events| - 1], events[|events| - 1];
      if last.Packet? then FramesOffered(rest) + [Offered(last.frame, After(ControlHistory(rest)))]
      else FramesOffered(rest)
  }

  /** Both backends hold the tables `t`. */
  ghost predicate InStep(n: NativePipeline, u: UbpfPipeline, t: Tables)
    reads n, n.table, u, u.entries, u.defaults
  {
    n.Valid() && u.Valid() && n.State() == t && u.tables == t
  }

  method WriteBoth(n: NativePipeline, u: UbpfPipeline, op: ControlOp, ghost t: Tables)
    requires InStep(n, u, t) && Admissible(op)
    modifies n.table, u`tables, u.entries, u.defaults
    ensures InStep(n, u, Written(t, op))
  {
    n.Write(op);
    u.Write(op);
  }

  method Offer(n: NativePipeline, u: UbpfPipeline, frame: Frame, ghost t: Tables)
    returns (native: Outcome, ubpf: Outcome)
    requires InStep(n, u, t)
    modifies u.packet
    ensures InStep(n, u, t)
    ensures Answer(Offered(frame, t), native, ubpf)
  {
    var a := new byte[|frame|](i requires 0 <= i < |frame| => frame[i]);
    var b := new byte[|frame|](i requires 0 <= i < |frame| => frame[i]);
    assert a[..] == frame && b[..] == frame;
    var vn := n.Process(a);
    var vu := u.Process(b);
    native, ubpf := Outcome(vn, a[..]), Outcome(vu, b[..]);
    AgreeExactly(frame, u.tables);
  }

  /** The tables after the first `k` events. */
  function TablesAt(events: seq<Event>, k: nat): Tables
    requires k <= |events|
  {
    After(ControlHistory(events[..k]))
  }

  lemma NextEvent(events: seq<Event>, k: nat)
    requires k < |events|
    ensures TablesAt(events, k + 1) ==
            if events[k].Control? then Written(TablesAt(events, k), events[k].op) else TablesAt(events, k)
    ensures FramesOffered(events[..k + 1]) ==
            FramesOffered(events[..k]) +
            if events[k].Packet? then [Offered(events[k].frame, TablesAt(events, k))] else []
  {
    assert events[..k + 1][..k] == events[..k];
    if events[k].Control? {
      var ops := ControlHistory(events[..k]);
      assert (ops + [events[k].op])[..|ops|] == ops;
    }
  }

  /** The answers the session owes for the frames offered so far. */
  ghost predicate Answered(offered: seq<Offered>, native: seq<Outcome>, ubpf: seq<Outcome>)
  {
    && |native| == |ubpf| == |offered|
    && forall i :: 0 <= i < |offered| ==> Answer(offered[i], native[i], ubpf[i])
  }

  /** The native answer is the router's, the adapter's is the enveloped program's, and the two are the same exactly
      when the frame does not deviate. */
  ghost predicate Answer(o: Offered, native: Outcome, ubpf: Outcome)
  {
    && native == Route(o.frame, o.tables.routes, o.tables.default) && ubpf == UbpfRoute(o.frame, o.tables)
    && (native == ubpf <==> !Deviates(o.frame, o.tables))
  }

  lemma AnsweredGrows(offered: seq<Offered>, native: seq<Outcome>, ubpf: seq<Outcome>,
                      o: Offered, on: Outcome, ou: Outcome)
    requires Answered(offered, native, ubpf) && Answer(o, on, ou)
    ensures Answered(offered + [o], native + [on], ubpf + [ou])
  {
  }

  /** Drive both backends through one session of control writes and frames. Each answers every frame as the
      router would under the plain map of the writes so far, except where the adapter deviates. */
  method Session(events: seq<Event>) returns (native: seq<Outcome>, ubpf: seq<Outcome>)
    requires forall e :: e in events && e.Control? ==> Admissible(e.op)
    ensures Answered(FramesOffered(events), native, ubpf)
  {
    var n := new NativePipeline();
    var u := new UbpfPipeline();
    native, ubpf := [], [];
    for k := 0 to |events|
      invariant fresh(n.table) && fresh(u) && fresh(u.entries) && fresh(u.defaults) && fresh(u.packet)
      invariant InStep(n, u, TablesAt(events, k))
      invariant Answered(FramesOffered(events[..k]), native, ubpf)
    {
      NextEvent(events, k);
      match events[k] {
        case Control(op) =>
          assert events[k] in events;
          WriteBoth(n, u, op, TablesAt(events, k));
        case Packet(frame) =>
          var on, ou := Offer(n, u, frame, TablesAt(events, k));
          AnsweredGrows(FramesOffered(events[..k]), native, ubpf, Offered(frame, TablesAt(events, k)), on, ou);
          native, ubpf := native + [on], ubpf + [ou];
      }
    }
    assert events[..|events|] == events;
  }
}
