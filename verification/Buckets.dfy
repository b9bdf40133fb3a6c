/** The index both longest-prefix tables keep: one bucket per length in use, in descending order,
    where the first bucket to answer holds the longest match. */
module Buckets {

  datatype Option<+T> = None | Some(value: T)

  datatype Bucket<K(==), V> = Bucket(len: nat, entries: map<K, V>)

  /** What a longest-prefix table means: a plain map from (length, masked key) to value. */
  datatype Prefix<K> = Prefix(len: nat, key: K)

  type Routes<!K(==), V> = map<Prefix<K>, V>

  /** Strictly decreasing lengths and no empty bucket. */
  predicate WellFormed<K(==), V>(bs: seq<Bucket<K, V>>)
  {
    bs != [] ==>
      && bs[0].entries.Keys != {}
      && (|bs| > 1 ==> bs[0].len > bs[1].len)
      && WellFormed(bs[1..])
  }

  /** The entries installed at one length. */
  function At<K(==), V>(bs: seq<Bucket<K, V>>, len: nat): map<K, V>
  {
    if bs == [] then map[] else if bs[0].len == len then bs[0].entries else At(bs[1..], len)
  }

  /** The buckets hold exactly the entries of `m`. */
  ghost predicate Represents<K(!new), V>(bs: seq<Bucket<K, V>>, m: Routes<K, V>)
  {
    && (forall len: nat, k :: k in At(bs, len) <==> Prefix(len, k) in m)
    && (forall len: nat, k :: k in At(bs, len) ==> At(bs, len)[k] == m[Prefix(len, k)])
  }

  /** Where a binary search over strictly decreasing lengths lands:
      at the bucket for `len`, or where one would be inserted. */
  function Position<K(==), V>(bs: seq<Bucket<K, V>>, len: nat): (p: nat)
    ensures p <= |bs|
    ensures forall i :: 0 <= i < p ==> bs[i].len > len
    ensures p < |bs| ==> bs[p].len <= len
  {
    if bs == [] || bs[0].len <= len then 0 else 1 + Position(bs[1..], len)
  }

  /** Insert or replace, creating the bucket for `len` if there is none. */
  function Insert<K(==), V>(bs: seq<Bucket<K, V>>, len: nat, key: K, value: V): (r: seq<Bucket<K, V>>)
  {
    var p := Position(bs, len);
    if p < |bs| && bs[p].len == len then bs[p := Bucket(len, bs[p].entries[key := value])]
    else bs[..p] + [Bucket(len, map[key := value])] + bs[p..]
  }

  /** Remove, dropping a bucket the removal empties. */
  function Remove<K(==), V>(bs: seq<Bucket<K, V>>, len: nat, key: K): (r: seq<Bucket<K, V>>)
  {
    var p := Position(bs, len);
    if p == |bs| || bs[p].len != len then bs
    else
      var left := bs[p].entries - {key};
      if left.Keys == {} then bs[..p] + bs[p + 1..] else bs[p := Bucket(len, left)]
  }

  /** No bucket sits above the first. */
  lemma {:induction false} NothingAbove<K, V>(bs: seq<Bucket<K, V>>, len: nat)
    requires WellFormed(bs)
    requires bs != [] ==> len > bs[0].len
    ensures At(bs, len) == map[]
  {
    if bs != [] {
      NothingAbove(bs[1..], len);
    }
  }

  /** Every pair of buckets is in strictly decreasing order, and none is empty. */
  lemma {:induction false} StrictlyDecreasing<K, V>(bs: seq<Bucket<K, V>>, i: nat, j: nat)
    requires WellFormed(bs) && i < j < |bs|
    ensures bs[i].len > bs[j].len && bs[i].entries != map[] && bs[j].entries != map[]
  {
    if i > 0 {
      StrictlyDecreasing(bs[1..], i - 1, j - 1);
    } else if j == 1 {
      assert WellFormed(bs[1..]);
    } else {
      StrictlyDecreasing(bs[1..], 0, j - 1);
    }
  }

  /** How an insertion past the first bucket looks from the first bucket. */
  lemma InsertTail<K, V>(bs: seq<Bucket<K, V>>, len: nat, key: K, value: V)
    requires bs != [] && bs[0].len > len
    ensures Insert(bs, len, key, value) == [bs[0]] + Insert(bs[1..], len, key, value)
  {
  }

  lemma {:induction false} InsertKeepsOrder<K, V>(bs: seq<Bucket<K, V>>, len: nat, key: K, value: V)
    requires WellFormed(bs)
    ensures WellFormed(Insert(bs, len, key, value))
  {
    var r := Insert(bs, len, key, value);
    if bs != [] && bs[0].len > len {
      InsertTail(bs, len, key, value);
      InsertKeepsOrder(bs[1..], len, key, value);
      assert r[1..] == Insert(bs[1..], len, key, value);
    } else {
      assert key in r[0].entries;
      assert r[1..] == if bs == [] || bs[0].len < len then bs else bs[1..];
    }
  }

  lemma {:induction false} InsertAt<K, V>(bs: seq<Bucket<K, V>>, len: nat, key: K, value: V, at: nat)
    requires WellFormed(bs)
    ensures At(Insert(bs, len, key, value), at) ==
            if at == len then At(bs, len)[key := value] else At(bs, at)
  {
    var r := Insert(bs, len, key, value);
    if bs != [] && bs[0].len > len {
      InsertTail(bs, len, key, value);
      InsertAt(bs[1..], len, key, value, at);
      assert r[1..] == Insert(bs[1..], len, key, value);
    } else if bs == [] || bs[0].len < len {
      NothingAbove(bs, len);
      assert r[1..] == bs;
    } else {
      assert r[1..] == bs[1..];
    }
  }

  /** How a removal past the first bucket looks from the first bucket. */
  lemma RemoveTail<K, V>(bs: seq<Bucket<K, V>>, len: nat, key: K)
    requires bs != [] && bs[0].len > len
    ensures Remove(bs, len, key) == [bs[0]] + Remove(bs[1..], len, key)
  {
    var tail, p := bs[1..], Position(bs[1..], len);
    assert Position(bs, len) == p + 1 && bs == [bs[0]] + tail;
    if p < |tail| && tail[p].len == len {
      assert bs[p + 1] == tail[p];
      assert bs[..p + 1] == [bs[0]] + tail[..p] && bs[p + 2..] == tail[p + 1..];
    }
  }

  lemma {:induction false} RemoveKeepsOrder<K, V>(bs: seq<Bucket<K, V>>, len: nat, key: K)
    requires WellFormed(bs)
    ensures WellFormed(Remove(bs, len, key))
    ensures var r := Remove(bs, len, key); r != [] ==> bs != [] && r[0].len <= bs[0].len
  {
    var r := Remove(bs, len, key);
    if bs != [] && bs[0].len > len {
      RemoveTail(bs, len, key);
      RemoveKeepsOrder(bs[1..], len, key);
      assert r[1..] == Remove(bs[1..], len, key);
    } else if bs != [] && bs[0].len == len {
      assert r == bs[1..] || r[1..] == bs[1..];
    }
  }

  lemma {:induction false} RemoveAt<K, V>(bs: seq<Bucket<K, V>>, len: nat, key: K, at: nat)
    requires WellFormed(bs)
    ensures At(Remove(bs, len, key), at) == if at == len then At(bs, len) - {key} else At(bs, at)
  {
    var r := Remove(bs, len, key);
    if bs != [] && bs[0].len > len {
      RemoveTail(bs, len, key);
      RemoveAt(bs[1..], len, key, at);
      assert r[1..] == Remove(bs[1..], len, key);
    } else if bs == [] || bs[0].len < len {
      NothingAbove(bs, len);
    } else {
      NothingAbove(bs[1..], len);
      assert r == bs[1..] || r[1..] == bs[1..];
    }
  }

  /** Inserting a route is updating the plain map. */
  lemma InsertRefines<K(!new), V>(bs: seq<Bucket<K, V>>, m: Routes<K, V>, len: nat, key: K, value: V)
    requires WellFormed(bs) && Represents(bs, m)
    ensures WellFormed(Insert(bs, len, key, value))
    ensures Represents(Insert(bs, len, key, value), m[Prefix(len, key) := value])
  {
    InsertKeepsOrder(bs, len, key, value);
    forall at: nat { InsertAt(bs, len, key, value, at); }
  }

  /** Removing a route is deleting it from the plain map. */
  lemma RemoveRefines<K(!new), V>(bs: seq<Bucket<K, V>>, m: Routes<K, V>, len: nat, key: K)
    requires WellFormed(bs) && Represents(bs, m)
    ensures WellFormed(Remove(bs, len, key))
    ensures Represents(Remove(bs, len, key), m - {Prefix(len, key)})
  {
    RemoveKeepsOrder(bs, len, key);
    forall at: nat { RemoveAt(bs, len, key, at); }
  }

  /** The first bucket, longest first, that holds the key the probe asks it for. */
  function FirstHit<K(==), V>(bs: seq<Bucket<K, V>>, probe: nat -> K): (r: Option<V>)
  {
    if bs == [] then None
    else if probe(bs[0].len) in bs[0].entries then Some(bs[0].entries[probe(bs[0].len)])
    else FirstHit(bs[1..], probe)
  }

  ghost predicate Hit<K, V>(m: Routes<K, V>, probe: nat -> K, len: nat)
  {
    Prefix(len, probe(len)) in m
  }

  /** `r` is the value of the longest prefix in `m` that the probe hits, if there is one. */
  ghost predicate IsLongest<K, V>(m: Routes<K, V>, probe: nat -> K, r: Option<V>)
  {
    match r
    case None => forall len: nat :: !Hit(m, probe, len)
    case Some(v) => exists len: nat :: IsLongestAt(m, probe, len) && m[Prefix(len, probe(len))] == v
  }

  ghost predicate IsLongestAt<K, V>(m: Routes<K, V>, probe: nat -> K, len: nat)
  {
    Hit(m, probe, len) && forall longer: nat :: longer > len ==> !Hit(m, probe, longer)
  }

  lemma LongestUnique<K, V>(m: Routes<K, V>, probe: nat -> K, a: Option<V>, b: Option<V>)
    requires IsLongest(m, probe, a) && IsLongest(m, probe, b)
    ensures a == b
  {
    if a.Some? && b.Some? {
      var la: nat :| IsLongestAt(m, probe, la) && m[Prefix(la, probe(la))] == a.value;
      var lb: nat :| IsLongestAt(m, probe, lb) && m[Prefix(lb, probe(lb))] == b.value;
      assert !(la < lb) && !(lb < la);
    }
  }

  /** Taking the first bucket that answers is taking the longest match. */
  lemma FirstHitIsLongest<K(!new), V>(bs: seq<Bucket<K, V>>, m: Routes<K, V>, probe: nat -> K)
    requires WellFormed(bs) && Represents(bs, m)
    ensures IsLongest(m, probe, FirstHit(bs, probe))
  {
    var len := FirstHitLen(bs, probe);
    if FirstHit(bs, probe).Some? {
      assert IsLongestAt(m, probe, len);
    }
  }

  lemma {:induction false} FirstHitLen<K, V>(bs: seq<Bucket<K, V>>, probe: nat -> K) returns (len: nat)
    requires WellFormed(bs)
    ensures match FirstHit(bs, probe)
            case None => forall l: nat :: probe(l) !in At(bs, l)
            case Some(v) =>
              && len <= bs[0].len
              && probe(len) in At(bs, len) && At(bs, len)[probe(len)] == v
              && (forall l: nat :: l > len ==> probe(l) !in At(bs, l))
  {
    if bs == [] {
      len := 0;
    } else if probe(bs[0].len) in bs[0].entries {
      len := bs[0].len;
      forall l: nat | l > len { NothingAbove(bs, l); }
    } else {
      len := FirstHitLen(bs[1..], probe);
    }
  }
}
