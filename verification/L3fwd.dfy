/** What `l3fwd` computes, stated once for every backend: an IPv4 router over whole frames. */
module L3fwd {
  import opened Bits
  import opened Buckets
  import opened Engine
  import opened Headers
  import opened NativeTable

  datatype Action = Forward(port: u16, dmac: Mac) | Punt | Drop

  datatype Outcome = Outcome(verdict: Verdict, frame: Frame)

  type RouteMap = Routes<u32, Action>

  /** The ingress checks: a coherent IPv4 frame whose TTL has not run out. */
  predicate Routable(frame: Frame)
  {
    CoherentIpv4(frame) && frame[22] != 0
  }

  function Destination(frame: Frame): u32
    requires |frame| >= 34
  {
    Be32(frame, 30)
  }

  /** A forwarded frame, byte by byte: next-hop MAC, TTL one lower, checksums zero, the rest as received. */
  function Rewritten(frame: Frame, dmac: Mac): (r: Frame)
    requires |frame| >= 34 && frame[22] > 0
    ensures |r| == |frame|
  {
    seq(|frame|, i requires 0 <= i < |frame| =>
      if i < 6 then dmac[i] else if i == 22 then frame[22] - 1 else if ChecksumByte(frame, i) then 0 else frame[i])
  }

  /** The router: what becomes of a frame under a route map. */
  function Route(frame: Frame, routes: RouteMap, default: Action): Outcome
  {
    if !Routable(frame) then Outcome(Discard, frame)
    else
      match Resolve(routes, default, Destination(frame))
      case Forward(port, dmac) => Outcome(Send(port), Rewritten(frame, dmac))
      case Punt => Outcome(ToControl, frame)
      case Drop => Outcome(Discard, frame)
  }

  // ---- byte by byte ----

  /** Which frames are routed, on their bytes. */
  lemma RoutableOnBytes(frame: Frame)
    ensures Routable(frame) <==>
              && |frame| >= 34 && frame[12] == 8 && frame[13] == 0 && frame[14] / 16 == 4 && frame[14] % 16 >= 5
              && 14 + 4 * (frame[14] as int % 16) <= |frame| && frame[22] != 0
  {
    CoherentOnBytes(frame);
  }

  /** Every byte of a forwarded frame. */
  lemma ForwardedOnBytes(frame: Frame, dmac: Mac, i: nat)
    requires Routable(frame) && i < |frame|
    ensures |frame| >= 34
    ensures var l4 := 14 + 4 * (frame[14] as int % 16);
            Rewritten(frame, dmac)[i] ==
            if i < 6 then dmac[i]
            else if i == 22 then frame[22] - 1
            else if i == 24 || i == 25 then 0
            else if frame[23] == 6 && l4 + 18 <= |frame| && (i == l4 + 16 || i == l4 + 17) then 0
            else if frame[23] == 17 && l4 + 8 <= |frame| && (i == l4 + 6 || i == l4 + 7) then 0
            else frame[i]
  {
    RoutableOnBytes(frame);
    ScrubbedOnBytes(frame, i);
  }

  /** The address routed by, on its bytes. */
  lemma DestinationOnBytes(frame: Frame)
    requires |frame| >= 34
    ensures Destination(frame) == 0x100_0000 * frame[30] as int + 0x1_0000 * frame[31] as int
                                  + 0x100 * frame[32] as int + frame[33]
  {
  }

  /** What becomes of a routed frame under each action. */
  lemma RoutedByAction(frame: Frame, routes: RouteMap, default: Action)
    requires Routable(frame)
    ensures var action, out := Resolve(routes, default, Destination(frame)), Route(frame, routes, default);
            && (action == Action.Drop <==> out.verdict == Discard)
            && (action == Action.Punt <==> out.verdict == ToControl)
            && (action.Forward? ==> out == Outcome(Send(action.port), Rewritten(frame, action.dmac)))
            && (!action.Forward? ==> out.frame == frame)
  {
  }

  /** The router in terms of bytes and matching prefixes alone: a frame is discarded as it came unless it is routed, and
      then the longest installed prefix that matches its destination decides, or the default exactly when none does. */
  lemma RouterDecides(frame: Frame, routes: RouteMap, default: Action)
    requires Canonical(routes)
    ensures !Routable(frame) ==> Route(frame, routes, default) == Outcome(Discard, frame)
    ensures Routable(frame) ==>
              var addr := Destination(frame);
              && (forall p :: LongestMatching(routes, addr, p) ==>
                    Route(frame, routes, default) == Route(frame, map[], routes[p]))
              && ((forall p :: p in routes ==> !Matches(p, addr)) ==>
                    Route(frame, routes, default) == Route(frame, map[], default))
  {
    if Routable(frame) {
      var addr := Destination(frame);
      ResolveIsLongestMatch(routes, default, addr);
      forall a: Action
        ensures Resolve(map[], a, addr) == a
      {
        ResolveNothing(a, addr);
      }
    }
  }

  lemma ResolveNothing(a: Action, addr: u32)
    ensures Resolve(map[], a, addr) == a
  {
    var none: RouteMap := map[];
    ResolveIsLongestMatch(none, a, addr);
  }

  // ---- control plane ----

  /** A control-plane write. The text gate admits prefix lengths up to 32 only. */
  datatype ControlOp =
    | Add(addr: u32, len: nat, action: Action)
    | Remove(addr: u32, len: nat)
    | Clear
    | SetDefault(action: Action)

  predicate Admissible(op: ControlOp)
  {
    (op.Add? || op.Remove?) ==> op.len <= 32
  }

  datatype Tables = Tables(routes: RouteMap, default: Action)

  /** What one write means to a plain map. */
  function Written(t: Tables, op: ControlOp): Tables
  {
    match op
    case Add(addr, len, action) => t.(routes := t.routes[Prefix(len, Network(addr, len)) := action])
    case Remove(addr, len) => t.(routes := t.routes - {Prefix(len, Network(addr, len))})
    case Clear => t.(routes := map[])
    case SetDefault(action) => t.(default := action)
  }

  /** The plain map after a history of writes, starting from no routes and `drop`. */
  function After(ops: seq<ControlOp>): Tables
  {
    if ops == [] then Tables(map[], Action.Drop) else Written(After(ops[..|ops| - 1]), ops[|ops| - 1])
  }

  // ---- what a history of writes leaves ----

  /** The write adds this route. */
  predicate Adds(op: ControlOp, p: Prefix<u32>, action: Action)
  {
    op.Add? && op.len == p.len && Network(op.addr, op.len) == p.key && op.action == action
  }

  /** The write decides about this prefix, whatever was installed before. */
  predicate Settles(op: ControlOp, p: Prefix<u32>)
  {
    match op
    case Add(addr, len, _) => len == p.len && Network(addr, len) == p.key
    case Remove(addr, len) => len == p.len && Network(addr, len) == p.key
    case Clear => true
    case SetDefault(_) => false
  }

  /** The last write that settles a prefix added this route. */
  ghost predicate LastAdds(ops: seq<ControlOp>, p: Prefix<u32>, action: Action)
  {
    exists i :: 0 <= i < |ops| && Adds(ops[i], p, action) && forall j :: i < j < |ops| ==> !Settles(ops[j], p)
  }

  /** A route is installed after a history of writes if and only if the last write that settles its prefix added it. */
  lemma {:induction false} RoutesAreLastAdded(ops: seq<ControlOp>, p: Prefix<u32>, action: Action)
    ensures p in After(ops).routes && After(ops).routes[p] == action <==> LastAdds(ops, p, action)
  {
    if ops != [] {
      var front, last := ops[..|ops| - 1], ops[|ops| - 1];
      RoutesAreLastAdded(front, p, action);
      if Adds(last, p, action) {
        assert LastAdds(ops, p, action);
      } else if !Settles(last, p) {
        LastAddsGrows(front, last, p, action);
        assert ops == front + [last];
      } else {
        assert !LastAdds(ops, p, action);
      }
    }
  }

  lemma LastAddsGrows(front: seq<ControlOp>, last: ControlOp, p: Prefix<u32>, action: Action)
    requires !Settles(last, p)
    ensures LastAdds(front + [last], p, action) <==> LastAdds(front, p, action)
  {
    var ops := front + [last];
    if LastAdds(front, p, action) {
      var i :| 0 <= i < |front| && Adds(front[i], p, action) && forall j :: i < j < |front| ==> !Settles(front[j], p);
      assert Adds(ops[i], p, action);
    }
    if LastAdds(ops, p, action) {
      var i :| 0 <= i < |ops| && Adds(ops[i], p, action) && forall j :: i < j < |ops| ==> !Settles(ops[j], p);
      assert i < |front| && Adds(front[i], p, action);
      assert forall j :: i < j < |front| ==> front[j] == ops[j];
    }
  }

  /** The `i`th write is the last to set the default. */
  predicate LastSets(ops: seq<ControlOp>, i: nat)
  {
    i < |ops| && ops[i].SetDefault? && forall j :: i < j < |ops| ==> !ops[j].SetDefault?
  }

  /** The default is the last one set. */
  lemma {:induction false} DefaultIsLastSet(ops: seq<ControlOp>, i: nat)
    requires LastSets(ops, i)
    ensures After(ops).default == ops[i].action
  {
    var front := ops[..|ops| - 1];
    if i < |front| {
      assert front[i] == ops[i] && !ops[|front|].SetDefault?;
      DefaultIsLastSet(front, i);
    }
  }

  /** Before any is set it is `drop`. */
  lemma {:induction false} DefaultStartsAsDrop(ops: seq<ControlOp>)
    requires forall i :: 0 <= i < |ops| ==> !ops[i].SetDefault?
    ensures After(ops).default == Action.Drop
  {
    if ops != [] {
      DefaultStartsAsDrop(ops[..|ops| - 1]);
    }
  }
}
