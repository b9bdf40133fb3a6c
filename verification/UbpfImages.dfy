/** The C struct images the uBPF adapter stores (crates/up4-ubpf/src/pipeline.rs), and what a map of
    images says about a map of routes. */
module UbpfImages {
  import opened Bits
  import opened Buckets
  import opened Headers
  import opened L3fwd
  import NativeTable
  import opened UbpfTable

  const ENTRY_LAYOUT := Layout(4, 4)
  const DEFAULT_LAYOUT := Layout(0, 4)

  // ---- images ----

  function Zeros(n: nat): (s: Bytes)
    ensures |s| == n
  {
    seq(n, _ => 0)
  }

  /** The key struct: a prefix length, left zero, and the address, four bytes each. */
  function KeyImage(addr: u32): (s: Bytes)
    ensures |s| == 8
  {
    Zeros(4) + ToLe(addr, 4)
  }

  function Discriminant(a: Action): u32
  {
    match a
    case Forward(_, _) => 0
    case Punt => 1
    case Drop => 2
  }

  /** `struct pipe_ipv4_lpm_value`: a 4-byte action, then a union aligned to 8 with the port at 8 and the MAC at 16. */
  function ValueImage(a: Action): (v: Bytes)
    ensures |v| == 24
  {
    ToLe(Discriminant(a), 4) + Zeros(4) +
    if a.Forward? then ToLe(a.port, 2) + Zeros(6) + ToLe(FromBe(a.dmac), 8) else Zeros(16)
  }

  /** What the program reads back through the struct pointer is what the control plane wrote. */
  lemma ValueImageReadsBack(a: Action)
    ensures FromLe(ValueImage(a)[0..4]) == Discriminant(a)
    ensures a.Forward? ==> FromLe(ValueImage(a)[8..10]) == a.port
    ensures a.Forward? ==> FromLe(ValueImage(a)[16..24]) == FromBe(a.dmac) < MAC_SPACE
    ensures a.Forward? ==> ToBe(FromBe(a.dmac), 6) == a.dmac
  {
    PowersOfTwo();
    FromToLe(Discriminant(a), 4);
    ValueImageParts(a);
    if a.Forward? {
      FieldBounds(a.dmac);
      ToFromBe(a.dmac);
      FromToLe(a.port, 2);
      FromToLe(FromBe(a.dmac), 8);
    }
  }

  /** Where the struct keeps its fields. */
  lemma ValueImageParts(a: Action)
    ensures ValueImage(a)[0..4] == ToLe(Discriminant(a), 4)
    ensures a.Forward? ==> ValueImage(a)[8..10] == ToLe(a.port, 2) && ValueImage(a)[16..24] == ToLe(FromBe(a.dmac), 8)
  {
  }

  // ---- byte by byte ----

  function Backwards(s: Bytes): (r: Bytes)
    ensures |r| == |s|
  {
    if s == [] then [] else [s[|s| - 1]] + Backwards(s[..|s| - 1])
  }

  /** A number read in network order and written little-endian has its bytes backwards, zeroes behind them. */
  lemma {:induction false} Turned(s: Bytes, n: nat)
    ensures ToLe(FromBe(s), |s| + n) == Backwards(s) + Zeros(n)
  {
    if s == [] {
      ZeroImage(n);
    } else {
      var front, last := s[..|s| - 1], s[|s| - 1];
      Turned(front, n);
      ModUnique(FromBe(s), 256, FromBe(front), last);
      assert ToLe(FromBe(s), |s| + n) == [last] + ToLe(FromBe(front), |front| + n);
      assert Backwards(s) == [last] + Backwards(front);
    }
  }

  lemma {:induction false} ZeroImage(n: nat)
    ensures ToLe(0, n) == Zeros(n)
  {
    if n > 0 {
      ZeroImage(n - 1);
    }
  }

  lemma {:induction false} BackwardsAt(s: Bytes, i: nat)
    requires i < |s|
    ensures Backwards(s)[i] == s[|s| - 1 - i]
  {
    if i > 0 {
      BackwardsAt(s[..|s| - 1], i - 1);
    }
  }

  lemma BackwardsSix(m: Mac)
    ensures Backwards(m) == [m[5], m[4], m[3], m[2], m[1], m[0]]
  {
    forall i: nat | i < 6
      ensures Backwards(m)[i] == m[5 - i]
    {
      BackwardsAt(m, i);
    }
  }

  /** The key struct, every byte of it. */
  lemma KeyOnBytes(addr: u32)
    ensures KeyImage(addr) ==
            [0, 0, 0, 0, addr % 0x100, addr / 0x100 % 0x100, addr / 0x100 / 0x100 % 0x100, addr / 0x100 / 0x100 / 0x100]
  {
    var a := addr / 0x100;
    assert ToLe(addr, 4) == [addr % 0x100] + ToLe(a, 3);
    assert ToLe(a, 3) == [a % 0x100] + ToLe(a / 0x100, 2);
    assert ToLe(a / 0x100, 2) == [a / 0x100 % 0x100] + ToLe(a / 0x100 / 0x100, 1);
    assert ToLe(a / 0x100 / 0x100, 1) == [a / 0x100 / 0x100 % 0x100];
  }

  /** The value struct, every byte of it: the action's number, padding, then port and MAC of a forward. */
  lemma ValueOnBytes(a: Action)
    ensures a == Action.Punt ==> ValueImage(a) == [1] + Zeros(23)
    ensures a == Action.Drop ==> ValueImage(a) == [2] + Zeros(23)
    ensures a.Forward? ==>
              var m := a.dmac;
              ValueImage(a) == [0, 0, 0, 0, 0, 0, 0, 0, a.port % 0x100, a.port / 0x100, 0, 0, 0, 0, 0, 0]
                               + [m[5], m[4], m[3], m[2], m[1], m[0], 0, 0]
  {
    match a
    case Forward(port, m) =>
      ZeroImage(4);
      BackwardsSix(m);
      Turned(m, 2);
      assert ToLe(port, 2) == [port % 0x100] + ToLe(port / 0x100, 1);
      assert ToLe(port / 0x100, 1) == [port / 0x100 % 0x100];
    case Punt => SmallImage(1);
    case Drop => SmallImage(2);
  }

  lemma SmallImage(x: byte)
    ensures ToLe(x, 4) == [x, 0, 0, 0]
  {
    ZeroImage(3);
    assert ToLe(x, 4) == [x % 256] + ToLe(x / 256, 3);
  }

  /** Clearing the low bits of the little-endian image is masking the address. */
  lemma MaskedImage(addr: u32, len: nat)
    ensures Masked(ToLe(addr, 4), len) == ToLe(NativeTable.Network(addr, len), 4)
  {
    var a, b := Masked(ToLe(addr, 4), len), ToLe(NativeTable.Network(addr, len), 4);
    PowersOfTwo();
    forall j: nat | j < 32
      ensures ImageBit(a, j) == ImageBit(b, j)
    {
      MaskedBit(ToLe(addr, 4), len, j);
      ImageBitIsValueBit(ToLe(addr, 4), j);
      FromToLe(addr, 4);
      ImageBitIsValueBit(b, j);
      FromToLe(NativeTable.Network(addr, len), 4);
      if len <= 32 { NativeTable.NetworkBits(addr, len, j); }
    }
    SameImage(a, b);
  }

  // ---- tables of images ----

  /** The image map holds the image of every route and nothing else. */
  ghost predicate Encodes(image: Routes<Bytes, Bytes>, routes: RouteMap)
  {
    && (forall p :: p in image ==> |p.key| == 4)
    && (forall len: nat, x: u32 :: Prefix(len, ToLe(x, 4)) in image <==> Prefix(len, x) in routes)
    && (forall len: nat, x: u32 :: Prefix(len, x) in routes ==>
          image[Prefix(len, ToLe(x, 4))] == ValueImage(routes[Prefix(len, x)]))
  }

  lemma ImageInjective(x: u32, y: u32)
    ensures ToLe(x, 4) == ToLe(y, 4) ==> x == y
  {
    PowersOfTwo();
    FromToLe(x, 4);
    FromToLe(y, 4);
  }

  lemma EncodesAdd(image: Routes<Bytes, Bytes>, routes: RouteMap, len: nat, x: u32, a: Action)
    requires Encodes(image, routes)
    ensures Encodes(image[Prefix(len, ToLe(x, 4)) := ValueImage(a)], routes[Prefix(len, x) := a])
  {
    forall y: u32 ensures ToLe(x, 4) == ToLe(y, 4) ==> x == y { ImageInjective(x, y); }
  }

  lemma EncodesRemove(image: Routes<Bytes, Bytes>, routes: RouteMap, len: nat, x: u32)
    requires Encodes(image, routes)
    ensures Encodes(image - {Prefix(len, ToLe(x, 4))}, routes - {Prefix(len, x)})
  {
    forall y: u32 ensures ToLe(x, 4) == ToLe(y, 4) ==> x == y { ImageInjective(x, y); }
  }

  /** The longest image that matches is the image of the longest prefix that matches. */
  lemma EncodedLongest(image: Routes<Bytes, Bytes>, routes: RouteMap, addr: u32, found: Option<Bytes>)
    requires Encodes(image, routes) && NativeTable.Canonical(routes)
    requires IsLongest(image, UbpfTable.Probe(ToLe(addr, 4)), found)
    ensures var m := NativeTable.LongestMatch(routes, addr, 32);
            found == if m.Some? then Some(ValueImage(m.value)) else None
  {
    var here, there := NativeTable.Probe(addr), UbpfTable.Probe(ToLe(addr, 4));
    forall len: nat
      ensures there(len) == ToLe(here(len), 4)
      ensures Hit(image, there, len) <==> Hit(routes, here, len)
    {
      MaskedImage(addr, len);
    }
    var m := NativeTable.LongestMatch(routes, addr, 32);
    NativeTable.LongestMatchIsLongest(routes, addr);
    var expected := if m.Some? then Some(ValueImage(m.value)) else None;
    if m.Some? {
      var len: nat :| IsLongestAt(routes, here, len) && routes[Prefix(len, here(len))] == m.value;
      assert IsLongestAt(image, there, len);
    }
    LongestUnique(image, there, found, expected);
  }
}
