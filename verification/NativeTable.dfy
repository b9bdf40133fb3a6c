/** The native backend's longest-prefix table (crates/up4-engine/src/table.rs). */
module NativeTable {
  import opened Bits
  import opened Buckets

  /** `len` leading ones: `u32::MAX << (32 - len)`, with `len == 0` spelled out. */
  function MaskOf(len: nat): u32
    requires len <= 32
  {
    if len == 0 then 0 else 0xFFFF_FFFF * Pow2(32 - len) % WORD
  }

  /** The first `len` bits of two addresses agree. */
  ghost predicate SameLeading(a: u32, b: u32, len: nat)
  {
    forall j: nat | j < 32 && j + len >= 32 :: Bit(a, j) == Bit(b, j)
  }

  /** The canonical network address of `addr` at length `len`. */
  function Network(addr: u32, len: nat): u32
  {
    if len <= 32 then And(addr, MaskOf(len)) else addr
  }

  function NewPrefix(addr: u32, len: nat): Option<Prefix<u32>>
  {
    if len > 32 then None else Some(Prefix(len, Network(addr, len)))
  }

  lemma MaskOfBits(len: nat, j: nat)
    requires len <= 32 && j < 32
    ensures Bit(MaskOf(len), j) == (j + len >= 32)
  {
    if len == 0 {
      BitOfZero(j);
    } else {
      var p := Pow2(32 - len);
      Pow2Monotone(32 - len, 31);
      assert Pow2(31) == 0x8000_0000 && Pow2(32) == WORD by { PowersOfTwo(); }
      ModUnique(0xFFFF_FFFF * p, WORD, p - 1, WORD - p);
      HighOnesBits(32, 32 - len, j);
    }
  }

  lemma NetworkBits(addr: u32, len: nat, j: nat)
    requires len <= 32 && j < 32
    ensures Bit(Network(addr, len), j) == (j + len >= 32 && Bit(addr, j))
  {
    AndBit(addr, MaskOf(len), j);
    MaskOfBits(len, j);
  }

  /** Canonicalization identifies exactly the addresses whose leading bits agree. */
  lemma NetworkIsLeadingBits(a: u32, b: u32, len: nat)
    requires len <= 32
    ensures Network(a, len) == Network(b, len) <==> SameLeading(a, b, len)
  {
    forall j: nat | j < 32
      ensures Bit(Network(a, len), j) == (j + len >= 32 && Bit(a, j))
      ensures Bit(Network(b, len), j) == (j + len >= 32 && Bit(b, j))
    {
      NetworkBits(a, len, j);
      NetworkBits(b, len, j);
    }
    if SameLeading(a, b, len) {
      PowersOfTwo();
      SameBits(Network(a, len), Network(b, len), 32);
    }
  }

  /** Host bits are dropped, not told apart: two routes get the same prefix if and only if their leading bits agree. A
      length over 32 gets none. */
  lemma SamePrefix(a: u32, b: u32, len: nat)
    ensures NewPrefix(a, len).Some? <==> len <= 32
    ensures len <= 32 ==> NewPrefix(a, len).value.len == len
    ensures len <= 32 ==> (NewPrefix(a, len) == NewPrefix(b, len) <==> SameLeading(a, b, len))
  {
    if len <= 32 {
      NetworkIsLeadingBits(a, b, len);
    }
  }

  lemma NetworkIdempotent(a: u32, len: nat)
    ensures Network(Network(a, len), len) == Network(a, len)
  {
    if len <= 32 {
      forall j: nat | j < 32 { NetworkBits(a, len, j); }
      NetworkIsLeadingBits(Network(a, len), a, len);
    }
  }

  // ---- what a route table means ----

  /** Host bits clear and at most 32 bits long, as `Ipv4Prefix` guarantees. */
  ghost predicate Canonical<A>(routes: Routes<u32, A>)
  {
    forall p :: p in routes ==> p.len <= 32 && p.key == Network(p.key, p.len)
  }

  ghost predicate Matches(p: Prefix<u32>, addr: u32)
  {
    SameLeading(p.key, addr, p.len)
  }

  /** The action of the longest installed prefix of length at most `upto`, if any. */
  function LongestMatch<A>(routes: Routes<u32, A>, addr: u32, upto: nat): Option<A>
  {
    if Prefix(upto, Network(addr, upto)) in routes then Some(routes[Prefix(upto, Network(addr, upto))])
    else if upto == 0 then None
    else LongestMatch(routes, addr, upto - 1)
  }

  function Resolve<A>(routes: Routes<u32, A>, default: A, addr: u32): A
  {
    match LongestMatch(routes, addr, 32)
    case Some(a) => a
    case None => default
  }

  /** `p` matches `addr`, and no installed prefix that matches is longer. */
  ghost predicate LongestMatching<A>(routes: Routes<u32, A>, addr: u32, p: Prefix<u32>)
  {
    && p in routes && Matches(p, addr)
    && forall q :: q in routes && Matches(q, addr) ==> q.len <= p.len
  }

  /** A canonical prefix matches an address exactly when it is the network the address probes for. */
  lemma MatchesIsProbe<A>(routes: Routes<u32, A>, addr: u32, p: Prefix<u32>)
    requires Canonical(routes) && p in routes
    ensures Matches(p, addr) <==> p == Prefix(p.len, Network(addr, p.len))
  {
    NetworkIsLeadingBits(p.key, addr, p.len);
  }

  lemma LongestMatchingIsProbe<A>(routes: Routes<u32, A>, addr: u32, len: nat)
    requires Canonical(routes) && LongestUpTo(routes, addr, 32, len)
    ensures LongestMatching(routes, addr, Prefix(len, Network(addr, len)))
  {
    MatchesIsProbe(routes, addr, Prefix(len, Network(addr, len)));
    forall q | q in routes && Matches(q, addr)
      ensures q.len <= len
    {
      MatchesIsProbe(routes, addr, q);
    }
  }

  /** `Resolve` in terms of matching prefixes alone: the answer is the action of a longest matching
      prefix, one exists as soon as any prefix matches, and with none the answer is the default. */
  lemma ResolveIsLongestMatch<A>(routes: Routes<u32, A>, default: A, addr: u32)
    requires Canonical(routes)
    ensures (forall p :: p in routes ==> !Matches(p, addr)) ==> Resolve(routes, default, addr) == default
    ensures (exists p :: p in routes && Matches(p, addr)) ==> exists p :: LongestMatching(routes, addr, p)
    ensures forall p :: LongestMatching(routes, addr, p) ==> Resolve(routes, default, addr) == routes[p]
  {
    LongestMatchAt(routes, addr, 32);
    if LongestMatch(routes, addr, 32).Some? {
      var len: nat :| LongestUpTo(routes, addr, 32, len)
                      && routes[Prefix(len, Network(addr, len))] == LongestMatch(routes, addr, 32).value;
      LongestMatchingIsProbe(routes, addr, len);
      forall p | LongestMatching(routes, addr, p)
        ensures p == Prefix(len, Network(addr, len))
      {
        MatchesIsProbe(routes, addr, p);
      }
    } else {
      forall p | p in routes
        ensures !Matches(p, addr)
      {
        MatchesIsProbe(routes, addr, p);
      }
    }
  }

  ghost predicate LongestUpTo<A>(routes: Routes<u32, A>, addr: u32, upto: nat, len: nat)
  {
    && len <= upto && Prefix(len, Network(addr, len)) in routes
    && forall l: nat :: len < l <= upto ==> Prefix(l, Network(addr, l)) !in routes
  }

  lemma {:induction false} LongestMatchAt<A>(routes: Routes<u32, A>, addr: u32, upto: nat)
    ensures match LongestMatch(routes, addr, upto)
            case None => forall l: nat :: l <= upto ==> Prefix(l, Network(addr, l)) !in routes
            case Some(a) => exists len: nat :: LongestUpTo(routes, addr, upto, len)
                                               && routes[Prefix(len, Network(addr, len))] == a
  {
    if Prefix(upto, Network(addr, upto)) in routes {
      assert LongestUpTo(routes, addr, upto, upto);
    } else if upto > 0 {
      LongestMatchAt(routes, addr, upto - 1);
      if LongestMatch(routes, addr, upto - 1).Some? {
        var len: nat :| LongestUpTo(routes, addr, upto - 1, len);
        assert LongestUpTo(routes, addr, upto, len);
      }
    }
  }

  /** The key each length's bucket is asked for. */
  function Probe(addr: u32): nat -> u32 { len => Network(addr, len) }

  lemma LongestMatchIsLongest<A>(routes: Routes<u32, A>, addr: u32)
    requires Canonical(routes)
    ensures IsLongest(routes, Probe(addr), LongestMatch(routes, addr, 32))
  {
    LongestMatchAt(routes, addr, 32);
    if LongestMatch(routes, addr, 32).Some? {
      var len: nat :| LongestUpTo(routes, addr, 32, len)
                      && routes[Prefix(len, Network(addr, len))] == LongestMatch(routes, addr, 32).value;
      assert IsLongestAt(routes, Probe(addr), len);
    }
  }

  // ---- the table ----

  class LpmTable<A(==)> {
    var groups: seq<Bucket<u32, A>>
    var default: A
    ghost var routes: Routes<u32, A>

    ghost predicate Valid()
      reads this
    {
      WellFormed(groups) && Represents(groups, routes) && Canonical(routes)
    }

    constructor (defaultAction: A)
      ensures Valid() && routes == map[] && default == defaultAction
    {
      groups, default, routes := [], defaultAction, map[];
    }

    /** Ask the groups in order, each for the address masked to its length. */
    method Apply(addr: u32) returns (a: A)
      requires Valid()
      ensures a == Resolve(routes, default, addr)
    {
      var i := 0;
      ghost var probe := Probe(addr);
      while i < |groups|
        invariant 0 <= i <= |groups|
        invariant FirstHit(groups[i..], probe) == FirstHit(groups, probe)
      {
        var key := Network(addr, groups[i].len);
        assert key == probe(groups[i].len);
        if key in groups[i].entries {
          break;
        }
        assert groups[i..][1..] == groups[i + 1..];
        i := i + 1;
      }
      FirstHitIsLongest(groups, routes, probe);
      LongestMatchIsLongest(routes, addr);
      LongestUnique(routes, probe, FirstHit(groups, probe), LongestMatch(routes, addr, 32));
      return if i < |groups| then groups[i].entries[Network(addr, groups[i].len)] else default;
    }

    method Insert(prefix: Prefix<u32>, action: A) returns (replaced: bool)
      requires Valid() && prefix.len <= 32 && prefix.key == Network(prefix.key, prefix.len)
      modifies this
      ensures Valid() && default == old(default)
      ensures routes == old(routes)[prefix := action]
      ensures replaced == (prefix in old(routes))
    {
      InsertRefines(groups, routes, prefix.len, prefix.key, action);
      replaced := prefix.key in At(groups, prefix.len);
      groups := Buckets.Insert(groups, prefix.len, prefix.key, action);
      routes := routes[prefix := action];
    }

    method Remove(prefix: Prefix<u32>) returns (removed: bool)
      requires Valid()
      modifies this
      ensures Valid() && default == old(default)
      ensures routes == old(routes) - {prefix}
      ensures removed == (prefix in old(routes))
    {
      RemoveRefines(groups, routes, prefix.len, prefix.key);
      removed := prefix.key in At(groups, prefix.len);
      groups := Buckets.Remove(groups, prefix.len, prefix.key);
      routes := routes - {prefix};
    }

    method SetDefault(action: A)
      requires Valid()
      modifies this
      ensures Valid() && routes == old(routes) && default == action
    {
      default := action;
    }

    method Clear()
      requires Valid()
      modifies this
      ensures Valid() && default == old(default) && routes == map[]
    {
      groups, routes := [], map[];
    }
  }
}
