/** The uBPF backend's tables: byte images keyed by byte images (crates/up4-ubpf/src/table.rs). */
module UbpfTable {
  import opened Bits
  import opened Buckets

  type Bytes = seq<byte>

  const MAX_MATCH_LEN: nat := 64

  /** How many low bits of a `width`-byte value a prefix clears. */
  function ClearedBits(width: nat, prefix: nat): nat
  {
    8 * width - Min(prefix, 8 * width)
  }

  /** The image of the same value with everything below the leading `prefix` bits cleared:
      whole bytes below the cut go to zero, the byte the cut falls in keeps its high part. */
  function Masked(key: Bytes, prefix: nat): (r: Bytes)
    ensures |r| == |key|
  {
    seq(|key|, i requires 0 <= i < |key| => MaskedByte(key[i], i, ClearedBits(|key|, prefix)))
  }

  function MaskedByte(b: byte, i: nat, cut: nat): byte
  {
    if cut <= 8 * i then b else if 8 * (i + 1) <= cut then 0 else High(b, cut - 8 * i)
  }

  lemma {:induction false} HighBit(x: nat, n: nat, j: nat)
    ensures Bit(High(x, n), j) == (j >= n && Bit(x, j))
    decreases n
  {
    if n > 0 && j > 0 {
      HighBit(x / 2, n - 1, j - 1);
    }
  }

  /** Masking, bit by bit. */
  lemma MaskedBit(key: Bytes, prefix: nat, j: nat)
    requires j < 8 * |key|
    ensures ImageBit(Masked(key, prefix), j) == (j >= ClearedBits(|key|, prefix) && ImageBit(key, j))
  {
    var cut, i, k := ClearedBits(|key|, prefix), j / 8, j % 8;
    assert j == 8 * i + k;
    if 8 * i < cut < 8 * (i + 1) {
      HighBit(key[i], cut - 8 * i, k);
    } else if 8 * (i + 1) <= cut {
      BitOfZero(k);
    }
  }

  /** Images of the same width with the same bits are equal. */
  lemma SameImage(a: Bytes, b: Bytes)
    requires |a| == |b|
    requires forall j: nat | j < 8 * |a| :: ImageBit(a, j) == ImageBit(b, j)
    ensures a == b
  {
    forall i | 0 <= i < |a|
      ensures a[i] == b[i]
    {
      forall k: nat | k < 8
        ensures Bit(a[i], k) == Bit(b[i], k)
      {
        assert (8 * i + k) / 8 == i && (8 * i + k) % 8 == k;
        assert ImageBit(a, 8 * i + k) == ImageBit(b, 8 * i + k);
      }
      assert Pow2(8) == 256;
      SameBits(a[i], b[i], 8);
    }
  }

  /** Zero every bit of the first `n` bytes below the leading `prefix` bits, one bit at a time
      from the most significant end. */
  method ZeroBelow(key: array<byte>, n: nat, prefix: nat)
    requires n <= key.Length
    modifies key
    ensures key[..n] == Masked(old(key[..n]), prefix)
    ensures key[n..] == old(key[n..])
  {
    var total := n * 8;
    var keep := Min(prefix, total);
    ghost var was := key[..n];
    for bit := keep to total
      invariant key[n..] == old(key[n..])
      invariant forall j: nat | j < total ::
                  ImageBit(key[..n], j) == ((j >= total - keep || j < total - bit) && ImageBit(was, j))
    {
      var fromLsb := total - 1 - bit;
      var at := fromLsb / 8;
      ghost var before := key[..n];
      key[at] := ClearBit(key[at], fromLsb % 8);
      assert key[..n] == before[at := ClearBit(before[at], fromLsb % 8)];
      forall j: nat | j < total
        ensures ImageBit(key[..n], j) == (j != fromLsb && ImageBit(before, j))
      {
        if j / 8 == at {
          assert j != fromLsb ==> j % 8 != fromLsb % 8;
        }
      }
    }
    forall j: nat | j < total
      ensures ImageBit(key[..n], j) == ImageBit(Masked(was, prefix), j)
    {
      MaskedBit(was, prefix, j);
    }
    SameImage(key[..n], Masked(was, prefix));
  }

  /** The masked key, built in a buffer the lookup already owns. */
  method MaskInto(key: Bytes, prefix: nat, out: array<byte>) returns (masked: Bytes)
    requires |key| <= out.Length
    modifies out
    ensures masked == Masked(key, prefix)
  {
    forall i | 0 <= i < |key| {
      out[i] := key[i];
    }
    assert out[..|key|] == key;
    ZeroBelow(out, |key|, prefix);
    masked := out[..|key|];
  }

  // ---- the table ----

  datatype Match = Exact | Lpm

  /** Where the matched window sits in a key image. */
  datatype Layout = Layout(matchAt: nat, matchLen: nat)

  function Window(layout: Layout, key: Bytes): (w: Bytes)
    ensures |w| <= layout.matchLen
  {
    var end := Min(layout.matchAt + layout.matchLen, |key|);
    if layout.matchAt <= end then key[layout.matchAt..end] else []
  }

  /** The length and key an entry is filed under. */
  function Filed(matching: Match, layout: Layout, key: Bytes, prefix: nat): Prefix<Bytes>
  {
    match matching
    case Exact => Prefix(0, Window(layout, key))
    case Lpm => Prefix(prefix, Masked(Window(layout, key), prefix))
  }

  /** The key each length's bucket is asked for. */
  function Probe(window: Bytes): nat -> Bytes { prefix => Masked(window, prefix) }

  class Table {
    const matching: Match
    const layout: Layout
    var buckets: seq<Bucket<Bytes, Bytes>>
    var default: Option<Bytes>
    ghost var routes: Routes<Bytes, Bytes>

    ghost predicate Valid()
      reads this
    {
      && layout.matchLen <= MAX_MATCH_LEN
      && WellFormed(buckets) && Represents(buckets, routes)
      && (matching == Exact ==> forall p :: p in routes ==> p.len == 0)
    }

    constructor (matching: Match, layout: Layout, default: Option<Bytes>)
      requires layout.matchLen <= MAX_MATCH_LEN
      ensures Valid() && routes == map[]
      ensures this.matching == matching && this.layout == layout && this.default == default
    {
      this.matching, this.layout, this.default := matching, layout, default;
      buckets, routes := [], map[];
    }

    method Insert(key: Bytes, prefix: nat, value: Bytes)
      requires Valid()
      modifies this
      ensures Valid() && default == old(default)
      ensures routes == old(routes)[Filed(matching, layout, key, prefix) := value]
    {
      var f := Filed(matching, layout, key, prefix);
      InsertRefines(buckets, routes, f.len, f.key, value);
      buckets := Buckets.Insert(buckets, f.len, f.key, value);
      routes := routes[f := value];
    }

    method Remove(key: Bytes, prefix: nat) returns (gone: bool)
      requires Valid()
      modifies this
      ensures Valid() && default == old(default)
      ensures routes == old(routes) - {Filed(matching, layout, key, prefix)}
      ensures gone == (Filed(matching, layout, key, prefix) in old(routes))
    {
      var f := Filed(matching, layout, key, prefix);
      RemoveRefines(buckets, routes, f.len, f.key);
      gone := f.key in At(buckets, f.len);
      buckets := Buckets.Remove(buckets, f.len, f.key);
      routes := routes - {f};
    }

    method SetDefault(value: Bytes)
      requires Valid()
      modifies this`default
      ensures Valid() && routes == old(routes) && default == Some(value)
    {
      default := Some(value);
    }

    method Clear()
      requires Valid()
      modifies this
      ensures Valid() && routes == map[] && default == old(default)
    {
      buckets, routes := [], map[];
    }

    /** The value for `key`: a match, else the table's default, else nothing. */
    method Lookup(key: Bytes) returns (r: Option<Bytes>)
      requires Valid()
      ensures matching == Exact ==>
                var f := Prefix(0, Window(layout, key));
                r == if f in routes then Some(routes[f]) else default
      ensures matching == Lpm ==>
                exists found :: IsLongest(routes, Probe(Window(layout, key)), found)
                                && r == if found.Some? then found else default
    {
      var w := Window(layout, key);
      var found: Option<Bytes>;
      match matching {
        case Exact =>
          assert |buckets| > 0 ==> buckets[0].len == 0 by { if |buckets| > 0 { FirstBucketInstalled(); } }
          found := if |buckets| > 0 && w in buckets[0].entries then Some(buckets[0].entries[w]) else None;
          assert At(buckets, 0) == if |buckets| > 0 then buckets[0].entries else map[];
        case Lpm =>
          found := LongestPrefix(w);
      }
      r := if found.Some? then found else default;
    }

    lemma FirstBucketInstalled()
      requires Valid() && |buckets| > 0
      ensures exists p :: p in routes && p.len == buckets[0].len
    {
      var k :| k in buckets[0].entries;
      assert k in At(buckets, buckets[0].len);
    }

    /** Ask the buckets in order, each for the key masked to its length. */
    method LongestPrefix(key: Bytes) returns (r: Option<Bytes>)
      requires Valid() && |key| <= MAX_MATCH_LEN
      ensures IsLongest(routes, Probe(key), r)
    {
      var scratch := new byte[MAX_MATCH_LEN];
      ghost var probe := Probe(key);
      FirstHitIsLongest(buckets, routes, probe);
      var i := 0;
      while i < |buckets|
        invariant 0 <= i <= |buckets|
        invariant FirstHit(buckets[i..], probe) == FirstHit(buckets, probe)
      {
        var masked := MaskInto(key, buckets[i].len, scratch);
        assert masked == probe(buckets[i].len);
        if masked in buckets[i].entries {
          return Some(buckets[i].entries[masked]);
        }
        assert buckets[i..][1..] == buckets[i + 1..];
        i := i + 1;
      }
      return None;
    }
  }
}
