/** The punt queue (crates/up4-io/src/punt.rs): a ring of preallocated slots between the shards and the control
    channel, every push and every drain whole under one lock. */
module Punt {
  import opened Bits

  datatype PuntFrame = PuntFrame(ingressVport: u16, rxTsUs: u32, bytes: seq<byte>)

  /** A slot keeps its buffer for good; `len` says how much of it is live, the rest is left over from before. */
  datatype Slot = Slot(ingressVport: u16, rxTsUs: u32, len: nat, buf: seq<byte>)

  function Live(s: Slot): PuntFrame
    requires s.len <= |s.buf|
  {
    PuntFrame(s.ingressVport, s.rxTsUs, s.buf[..s.len])
  }

  /** A frame as the queue keeps it: cut to the slot. */
  function Kept(frame: seq<byte>, ingressVport: u16, rxTsUs: u32, slotSize: nat): PuntFrame
  {
    PuntFrame(ingressVport, rxTsUs, frame[..Min(|frame|, slotSize)])
  }

  /** A frame that fits is kept whole, a longer one to the slot's length, with its port and time. */
  lemma KeptIs(frame: seq<byte>, ingressVport: u16, rxTsUs: u32, slotSize: nat)
    ensures var k := Kept(frame, ingressVport, rxTsUs, slotSize);
            && k.ingressVport == ingressVport && k.rxTsUs == rxTsUs && k.bytes <= frame
            && |k.bytes| == if |frame| <= slotSize then |frame| else slotSize
  {
  }

  /** Filling a slot leaves exactly the frame live in it, whatever it held before. */
  function Filled(s: Slot, frame: seq<byte>, ingressVport: u16, rxTsUs: u32): (r: Slot)
    ensures |r.buf| == |s.buf| && r.len <= |r.buf|
    ensures Live(r) == Kept(frame, ingressVport, rxTsUs, |s.buf|)
  {
    var len := Min(|frame|, |s.buf|);
    var r := Slot(ingressVport, rxTsUs, len, frame[..len] + s.buf[len..]);
    assert r.buf[..len] == frame[..len];
    r
  }

  /** The slot `i` places after `head`, going round. */
  function At(head: nat, i: nat, cap: nat): (k: nat)
    requires head < cap && i <= cap
    ensures k == if head + i < cap then head + i else head + i - cap
  {
    var turns := if head + i < cap then 0 else 1;
    ModUnique(head + i, cap, turns, if head + i < cap then head + i else head + i - cap);
    (head + i) % cap
  }

  lemma Regrouped(out: seq<PuntFrame>, f: PuntFrame, rest: seq<PuntFrame>)
    ensures out + ([f] + rest) == (out + [f]) + rest
  {
  }

  lemma CutAt(all: seq<PuntFrame>, front: seq<PuntFrame>, rest: seq<PuntFrame>)
    requires all == front + rest
    ensures all[..|front|] == front && all[|front|..] == rest
  {
  }

  /** Everything in `a` is in `b`, in the same order. */
  predicate Within<T(==)>(a: seq<T>, b: seq<T>)
  {
    if a == [] then true
    else if b == [] then false
    else
      var lastA, lastB := |a| - 1, |b| - 1;
      Within(a, b[..lastB]) || (a[lastA] == b[lastB] && Within(a[..lastA], b[..lastB]))
  }

  /** Increasing places in `b` at which the elements of `a` stand. */
  predicate Places<T(==)>(a: seq<T>, b: seq<T>, at: seq<nat>)
  {
    && |at| == |a| && (forall i :: 0 <= i < |at| ==> at[i] < |b| && b[at[i]] == a[i])
    && forall i, j :: 0 <= i < j < |at| ==> at[i] < at[j]
  }

  lemma {:induction false} WithinHasPlaces<T>(a: seq<T>, b: seq<T>) returns (at: seq<nat>)
    requires Within(a, b)
    ensures Places(a, b, at)
    decreases |b|
  {
    if a == [] {
      at := [];
    } else {
      var front := b[..|b| - 1];
      if Within(a, front) {
        at := WithinHasPlaces(a, front);
      } else {
        at := WithinHasPlaces(a[..|a| - 1], front);
        at := at + [|b| - 1];
      }
    }
  }

  lemma {:induction false} PlacesAreWithin<T>(a: seq<T>, b: seq<T>, at: seq<nat>)
    requires Places(a, b, at)
    ensures Within(a, b)
    decreases |b|
  {
    if a != [] {
      var n := |a| - 1;
      assert at[n] < |b|;
      var front := b[..|b| - 1];
      if at[n] == |b| - 1 {
        PlacesAreWithin(a[..n], front, at[..n]);
      } else {
        assert forall i :: 0 <= i < |at| ==> at[i] <= at[n];
        PlacesAreWithin(a, front, at);
      }
    }
  }

  lemma {:induction false} WithinLonger<T>(a: seq<T>, b: seq<T>, c: seq<T>)
    requires Within(a, b) && b <= c
    ensures Within(a, c)
    decreases |c|
  {
    if |b| < |c| {
      WithinLonger(a, b, c[..|c| - 1]);
    } else {
      assert b == c;
    }
  }

  lemma WithinBoth<T>(a: seq<T>, b: seq<T>, f: T)
    requires Within(a, b)
    ensures Within(a + [f], b + [f])
  {
    assert (a + [f])[..|a|] == a && (b + [f])[..|b|] == b;
  }

  /** A frame offered to the ring, and how many slots it found taken. */
  datatype Offer = Offer(frame: PuntFrame, met: nat)

  /** The frames that entered a ring of `cap` slots. */
  function Entered(offers: seq<Offer>, cap: nat): seq<PuntFrame>
  {
    if offers == [] then []
    else
      var last := offers[|offers| - 1];
      Entered(offers[..|offers| - 1], cap) + if last.met < cap then [last.frame] else []
  }

  /** How many offers found the ring full. */
  function TurnedAway(offers: seq<Offer>, cap: nat): nat
  {
    if offers == [] then 0
    else TurnedAway(offers[..|offers| - 1], cap) + if offers[|offers| - 1].met < cap then 0 else 1
  }

  lemma OfferSnoc(offers: seq<Offer>, o: Offer, cap: nat)
    ensures Entered(offers + [o], cap) == Entered(offers, cap) + if o.met < cap then [o.frame] else []
    ensures TurnedAway(offers + [o], cap) == TurnedAway(offers, cap) + if o.met < cap then 0 else 1
  {
    assert (offers + [o])[..|offers|] == offers;
  }

  /** Every offer entered or was turned away. */
  lemma {:induction false} EnteredOrTurnedAway(offers: seq<Offer>, cap: nat)
    ensures |Entered(offers, cap)| + TurnedAway(offers, cap) == |offers|
  {
    if offers != [] {
      EnteredOrTurnedAway(offers[..|offers| - 1], cap);
    }
  }

  /** What one user's offers brought into the ring is among what the ring accepted, in order. */
  lemma {:induction false} EnteredWithin(mine: seq<Offer>, all: seq<Offer>, cap: nat)
    requires Within(mine, all)
    ensures Within(Entered(mine, cap), Entered(all, cap))
    decreases |all|
  {
    if mine != [] && all != [] {
      var m, a := mine[|mine| - 1], all[|all| - 1];
      var mineFront, allFront := mine[..|mine| - 1], all[..|all| - 1];
      if Within(mine, allFront) {
        EnteredWithin(mine, allFront, cap);
        WithinLonger(Entered(mine, cap), Entered(allFront, cap), Entered(all, cap));
      } else {
        EnteredWithin(mineFront, allFront, cap);
        if a.met < cap {
          WithinBoth(Entered(mineFront, cap), Entered(allFront, cap), a.frame);
        } else {
          assert Entered(mine, cap) == Entered(mineFront, cap) && Entered(all, cap) == Entered(allFront, cap);
        }
      }
    }
  }

  /** Other shards push and the control channel drains, any number of times, each call whole. */
  method Others(q: PuntQueue)
    requires q.Valid()
    modifies q`head, q`len, q`accepted, q`drained, q`offers, q.slots
    ensures q.Valid() && old(q.offers) <= q.offers
  {
    var n: int := *;
    for i := 0 to if n < 0 then 0 else n
      invariant q.Valid() && old(q.offers) <= q.offers
    {
      var push: bool, frame: seq<byte>, vport: u16, ts: u32, max: nat := *, *, *, *, *;
      if push {
        var _ := q.Push(frame, vport, ts);
      } else {
        var _ := q.Drain(max);
      }
    }
  }

  class PuntQueue {
    const slots: array<Slot>
    const slotSize: nat
    var head: nat
    var len: nat
    ghost var accepted: seq<PuntFrame>
    ghost var drained: seq<PuntFrame>
    /** Every push, with what it met. */
    ghost var offers: seq<Offer>

    ghost predicate InRange()
      reads this, slots
    {
      && head < slots.Length && len <= slots.Length
      && forall k :: 0 <= k < slots.Length ==> |slots[k].buf| == slotSize && slots[k].len <= slotSize
    }

    /** What waits, oldest first. */
    ghost function Waiting(): (w: seq<PuntFrame>)
      requires InRange()
      reads this, slots
      ensures |w| == len
    {
      seq(len, i requires 0 <= i < len && InRange() reads this, slots => Live(slots[At(head, i, slots.Length)]))
    }

    /** The frame behind all others. */
    ghost function Newest(): PuntFrame
      requires InRange()
      reads this, slots
    {
      if len == 0 then PuntFrame(0, 0, []) else Waiting()[len - 1]
    }

    /** Over any run, what was accepted is what was drained and then what waits, frame by frame in order. */
    ghost predicate Valid()
      reads this, slots
    {
      InRange() && accepted == drained + Waiting() && accepted == Entered(offers, slots.Length)
    }

    constructor (depth: nat, innerMtu: nat)
      ensures Valid() && fresh(slots) && slots.Length == (if depth > 1 then depth else 1)
      ensures slotSize == innerMtu && Waiting() == [] == accepted == drained && offers == []
    {
      var n := if depth > 1 then depth else 1;
      slots := new Slot[n](_ => Slot(0, 0, 0, seq(innerMtu, _ => 0)));
      slotSize, head, len, accepted, drained, offers := innerMtu, 0, 0, [], [], [];
    }

    /** Queue a frame behind everything waiting, or refuse it exactly when every slot is taken. */
    method Push(frame: seq<byte>, ingressVport: u16, rxTsUs: u32) returns (ok: bool)
      requires Valid()
      modifies this`len, this`accepted, this`offers, slots
      ensures Valid() && drained == old(drained)
      ensures ok <==> |old(Waiting())| < slots.Length
      ensures offers == old(offers) + [Offer(Kept(frame, ingressVport, rxTsUs, slotSize), |old(Waiting())|)]
      ensures accepted == old(accepted) + if ok then [Kept(frame, ingressVport, rxTsUs, slotSize)] else []
      ensures Waiting() == old(Waiting()) + if ok then [Kept(frame, ingressVport, rxTsUs, slotSize)] else []
    {
      ghost var before, kept := Waiting(), Kept(frame, ingressVport, rxTsUs, slotSize);
      OfferSnoc(offers, Offer(kept, len), slots.Length);
      offers := offers + [Offer(kept, len)];
      if len == slots.Length {
        return false;
      }
      var at := At(head, len, slots.Length);
      slots[at] := Filled(slots[at], frame, ingressVport, rxTsUs);
      len := len + 1;
      accepted := accepted + [kept];
      assert Waiting() == before + [kept];
      ok := true;
    }

    /** Take the oldest frame. */
    method Pop() returns (f: PuntFrame)
      requires Valid() && len > 0
      modifies this`head, this`len, this`drained
      ensures Valid() && accepted == old(accepted) && offers == old(offers)
      ensures [f] + Waiting() == old(Waiting()) && drained == old(drained) + [f]
    {
      ghost var before := Waiting();
      f := Live(slots[head]);
      head, len := At(head, 1, slots.Length), len - 1;
      drained := drained + [f];
      assert before == [f] + Waiting();
    }

    /** Take the oldest frames, no more than `max` of them. */
    method Drain(max: nat) returns (out: seq<PuntFrame>)
      requires Valid()
      modifies this`head, this`len, this`drained
      ensures Valid() && accepted == old(accepted) && offers == old(offers) && drained == old(drained) + out
      ensures out == old(Waiting())[..Min(max, |old(Waiting())|)]
      ensures Waiting() == old(Waiting())[Min(max, |old(Waiting())|)..]
    {
      var take := Min(max, len);
      ghost var before := Waiting();
      out := [];
      for i := 0 to take
        invariant Valid() && accepted == old(accepted) && offers == old(offers) && drained == old(drained) + out
        invariant |out| == i && len == |before| - i && before == out + Waiting()
      {
        var f := Pop();
        Regrouped(out, f, Waiting());
        out := out + [f];
      }
      CutAt(before, out, Waiting());
    }
  }

  /** A push by one of several users: whatever the others did before it, the frame becomes the newest in the ring, or
      it met a full ring. `mine` are this user's earlier offers. */
  method PushAmongOthers(q: PuntQueue, frame: seq<byte>, ingressVport: u16, rxTsUs: u32, ghost mine: seq<Offer>)
    returns (ok: bool, met: nat)
    requires q.Valid() && Within(mine, q.offers)
    modifies q, q.slots
    ensures q.Valid() && (ok <==> met < q.slots.Length)
    ensures var kept := Kept(frame, ingressVport, rxTsUs, q.slotSize);
            && Within(mine + [Offer(kept, met)], q.offers)
            && if ok then q.Newest() == kept else q.len == q.slots.Length
  {
    ghost var before := q.offers;
    Others(q);
    WithinLonger(mine, before, q.offers);
    met := q.len;
    WithinBoth(mine, q.offers, Offer(Kept(frame, ingressVport, rxTsUs, q.slotSize), met));
    ok := q.Push(frame, ingressVport, rxTsUs);
  }
}
