/** The program p4c generates for `l3fwd` (crates/up4-ubpf/src/generated/l3fwd.c): parser states,
    table application and deparser over a packet buffer, block by block. */
module P4cL3fwd {
  import opened Bits
  import opened Buckets
  import opened Headers
  import opened L3fwd
  import NativeTable
  import opened UbpfImages
  import opened UbpfTable

  const PUNT_PORT: u32 := 65535
  const NO_PORT: u32 := 0xFFFF_FFFF

  // ---- C idioms ----

  /** `load_byte`, `load_half`, `load_word`, `load_dword`: `n` bytes in network order. */
  function Load(pkt: array<byte>, at: nat, n: nat): nat
    requires at + n <= pkt.Length
    reads pkt
  {
    FromBe(pkt[at..at + n])
  }

  lemma LoadReads(pkt: array<byte>, at: nat, n: nat)
    requires at + n <= pkt.Length
    ensures Load(pkt, at, n) == FromBe(pkt[..][at..at + n])
  {
    assert pkt[at..at + n] == pkt[..][at..at + n];
  }

  /** `BYTES(w)`. */
  function BytesOf(bits: nat): nat { bits / 8 }

  /** `x & BPF_MASK(t, w)`. */
  function Low(x: nat, w: nat): (r: nat)
    ensures r == x % Pow2(w)
  {
    AndLow(x, w);
    And(x, Pow2(w) - 1)
  }

  /** `hton` on `n` bytes: the number whose in-memory image is `x` in network order. */
  function Hton(x: nat, n: nat): (r: nat)
    ensures ToLe(r, n) == ToBe(x, n)
  {
    ToFromLe(ToBe(x, n));
    FromLe(ToBe(x, n))
  }

  /** `((char*)(&x))[i]` for an `n`-byte integer on a little-endian machine. */
  function MemByte(x: nat, n: nat, i: nat): (b: byte)
    requires i < n
  {
    ToLe(x, n)[i]
  }

  /** `write_partial`: replace `w` bits of a byte, starting at bit `s`, by `v`. */
  function WritePartial(a: byte, w: nat, s: nat, v: byte): byte
    requires 0 < w <= 8 && s + w <= 8
  {
    Or(And(a, Not8(Shl8((Pow2(w) - 1) % 256, s))), Shl8(v, s)) % 256
  }

  lemma WritePartialBit(a: byte, w: nat, s: nat, v: byte, k: nat)
    requires 0 < w < 8 && s + w <= 8 && k < 8
    requires v < Pow2(w) || s + w == 8
    ensures Bit(WritePartial(a, w, s, v), k) == if s <= k < s + w then Bit(v, k - s) else Bit(a, k)
  {
    var ones := (Pow2(w) - 1) % 256;
    var kept := And(a, Not8(Shl8(ones, s)));
    assert ones == Pow2(w) - 1 by {
      Pow2Monotone(w, 8);
      assert Pow2(8) == 256;
    }
    AndBit(a, Not8(Shl8(ones, s)), k);
    NotBit(Shl8(ones, s), k);
    ShlBit(ones, s, k);
    ShlBit(v, s, k);
    OrBit(kept, Shl8(v, s), k);
    assert Pow2(8) == 256;
    BitOfLowPart(Or(kept, Shl8(v, s)), 8, k);
    if s <= k < s + w {
      OnesBits(w, k - s);
    } else if k >= s + w {
      BitAbove(ones, w, k - s);
      BitAbove(v, w, k - s);
    }
  }

  /** The byte with `top`'s low `8 - n` bits above `low`. */
  function Joined(top: byte, low: byte, n: nat): (b: byte)
    requires 0 < n < 8 && low < Pow2(n)
  {
    assert low + Pow2(n) * (top % Pow2(8 - n)) < 256 by {
      Pow2Add(n, 8 - n);
      assert Pow2(8) == 256;
      assert Pow2(n) * (top % Pow2(8 - n)) <= Pow2(n) * (Pow2(8 - n) - 1);
    }
    low + Pow2(n) * (top % Pow2(8 - n))
  }

  lemma TwoWritesBit(a: byte, n: nat, top: byte, low: byte, k: nat)
    requires 0 < n < 8 && low < Pow2(n) && k < 8
    ensures Bit(WritePartial(WritePartial(a, 8 - n, n, top), n, 0, low), k) == Bit(Joined(top, low, n), k)
  {
    WritePartialBit(a, 8 - n, n, top, k);
    WritePartialBit(WritePartial(a, 8 - n, n, top), n, 0, low, k);
    BitOfParts(low, top % Pow2(8 - n), n, k);
    if k >= n { BitOfLowPart(top, 8 - n, k - n); }
  }

  /** Writing the top `8 - n` bits and then the low `n` bits leaves nothing of the old byte. */
  lemma TwoWrites(a: byte, n: nat, top: byte, low: byte)
    requires 0 < n < 8 && low < Pow2(n)
    ensures WritePartial(WritePartial(a, 8 - n, n, top), n, 0, low) == Joined(top, low, n)
  {
    forall k: nat | k < 8
      ensures Bit(WritePartial(WritePartial(a, 8 - n, n, top), n, 0, low), k) == Bit(Joined(top, low, n), k)
    {
      TwoWritesBit(a, n, top, low, k);
    }
    assert Pow2(8) == 256;
    SameBits(WritePartial(WritePartial(a, 8 - n, n, top), n, 0, low), Joined(top, low, n), 8);
  }

  // ---- header structs ----

  datatype EthernetH = EthernetH(dst: nat, src: nat, etherType: nat)

  datatype Ipv4H = Ipv4H(
    version: nat, ihl: nat, diffserv: nat, totalLen: nat, identification: nat, flags: nat, fragOffset: nat,
    ttl: nat, protocol: nat, hdrChecksum: nat, src: nat, dst: nat)

  /** Every field fits the `bit<n>` the program declares for it. */
  predicate EthernetFits(h: EthernetH)
  {
    h.dst < MAC_SPACE && h.src < MAC_SPACE && h.etherType < Pow2(16)
  }

  predicate Ipv4Fits(h: Ipv4H)
  {
    && h.version < 16 && h.ihl < 16 && h.diffserv < 256 && h.totalLen < 0x1_0000 && h.identification < 0x1_0000
    && h.flags < 8 && h.fragOffset < 8192 && h.ttl < 256 && h.protocol < 256 && h.hdrChecksum < 0x1_0000
    && h.src < WORD && h.dst < WORD
  }

  /** The headers as section 3.1 of RFC 791 and Ethernet II lay them out. */
  function EthernetBytes(h: EthernetH): (s: seq<byte>)
    ensures |s| == 14
  {
    ToBe(h.dst, 6) + ToBe(h.src, 6) + ToBe(h.etherType, 2)
  }

  function Ipv4Bytes(h: Ipv4H): (s: seq<byte>)
    ensures |s| == 20
  {
    Ipv4Front(h) + Ipv4Rest(h)
  }

  function Ipv4Front(h: Ipv4H): (s: seq<byte>)
    ensures |s| == 8
  {
    ToBe(16 * h.version + h.ihl, 1) + ToBe(h.diffserv, 1) + ToBe(h.totalLen, 2) + ToBe(h.identification, 2)
    + ToBe(8192 * h.flags + h.fragOffset, 2)
  }

  function Ipv4Rest(h: Ipv4H): (s: seq<byte>)
    ensures |s| == 12
  {
    ToBe(h.ttl, 1) + ToBe(h.protocol, 1) + ToBe(h.hdrChecksum, 2) + ToBe(h.src, 4) + ToBe(h.dst, 4)
  }

  function EthernetOf(s: seq<byte>): EthernetH
    requires |s| >= 14
  {
    EthernetH(FromBe(s[0..6]), FromBe(s[6..12]), FromBe(s[12..14]))
  }

  function Ipv4Of(s: seq<byte>): Ipv4H
    requires |s| >= 34
  {
    Ipv4H(s[14] / 16, s[14] % 16, s[15], FromBe(s[16..18]), FromBe(s[18..20]),
          s[20] / 32, s[20] as int % 32 * 256 + s[21], s[22], s[23],
          FromBe(s[24..26]), FromBe(s[26..30]), FromBe(s[30..34]))
  }

  /** Emitting the headers just extracted reproduces all 34 bytes. */
  lemma DeparseUndoesParse(s: seq<byte>)
    requires |s| >= 34
    ensures EthernetFits(EthernetOf(s)) && Ipv4Fits(Ipv4Of(s))
    ensures EthernetBytes(EthernetOf(s)) + Ipv4Bytes(Ipv4Of(s)) == s[..34]
  {
    FieldsFit(s);
    EthernetBack(s);
    Ipv4FrontBack(s);
    Ipv4RestBack(s);
  }

  lemma FieldsFit(s: seq<byte>)
    requires |s| >= 34
    ensures EthernetFits(EthernetOf(s)) && Ipv4Fits(Ipv4Of(s))
  {
    FieldBounds(s[0..6]);
    FieldBounds(s[6..12]);
    FieldBounds(s[12..14]);
    FieldBounds(s[16..18]);
    FieldBounds(s[18..20]);
    FieldBounds(s[24..26]);
    FieldBounds(s[26..30]);
    FieldBounds(s[30..34]);
    PowersOfTwo();
  }

  lemma EthernetBack(s: seq<byte>)
    requires |s| >= 14
    ensures EthernetBytes(EthernetOf(s)) == s[..14]
  {
    ToFromBe(s[0..6]);
    ToFromBe(s[6..12]);
    ToFromBe(s[12..14]);
    assert s[..14] == s[0..6] + s[6..12] + s[12..14];
  }

  lemma Ipv4FrontBack(s: seq<byte>)
    requires |s| >= 34
    ensures Ipv4Front(Ipv4Of(s)) == s[14..22]
  {
    var h := Ipv4Of(s);
    ToFromBe(s[16..18]);
    ToFromBe(s[18..20]);
    assert ToBe(8192 * h.flags + h.fragOffset, 2) == s[20..22] by {
      FieldBounds(s[20..22]);
      ToFromBe(s[20..22]);
      assert FromBe(s[20..22]) == 8192 * h.flags + h.fragOffset;
    }
    assert ToBe(16 * h.version + h.ihl, 1) == s[14..15] && ToBe(h.diffserv, 1) == s[15..16];
    assert s[14..22] == s[14..15] + s[15..16] + s[16..18] + s[18..20] + s[20..22];
  }

  lemma Ipv4RestBack(s: seq<byte>)
    requires |s| >= 34
    ensures Ipv4Rest(Ipv4Of(s)) == s[22..34]
  {
    var h := Ipv4Of(s);
    ToFromBe(s[24..26]);
    ToFromBe(s[26..30]);
    ToFromBe(s[30..34]);
    assert ToBe(h.ttl, 1) == s[22..23] && ToBe(h.protocol, 1) == s[23..24];
    assert s[22..34] == s[22..23] + s[23..24] + s[24..26] + s[26..30] + s[30..34];
  }

  // ---- parser states ----

  lemma TopSix(s: seq<byte>)
    requires |s| == 8
    ensures FromBe(s) / 0x1_0000 == FromBe(s[..6])
    ensures FromBe(s) / 0x1_0000 % MAC_SPACE == FromBe(s[..6])
  {
    var x := FromBe(s[..6]);
    assert FromBe(s) == 256 * (256 * x + s[6]) + s[7] by {
      assert s[..7][..6] == s[..6];
    }
    FieldBounds(s[..6]);
  }

  /** A 48-bit field, read as the top of a 64-bit load. */
  function LoadMac(pkt: array<byte>, at: nat): (x: nat)
    requires at + 8 <= pkt.Length
    reads pkt
    ensures x == FromBe(pkt[at..at + 6])
  {
    TopSix(pkt[at..at + 8]);
    PowersOfTwo();
    assert pkt[at..at + 8][..6] == pkt[at..at + 6];
    Low(Load(pkt, at, 8) / 0x1_0000, 48)
  }

  method ExtractEthernet(pkt: array<byte>) returns (h: EthernetH, packetOffsetInBits: nat)
    requires pkt.Length >= 14
    ensures h == EthernetOf(pkt[..]) && packetOffsetInBits == 112
  {
    packetOffsetInBits := 0;
    var dst := LoadMac(pkt, BytesOf(packetOffsetInBits));
    packetOffsetInBits := packetOffsetInBits + 48;
    var src := LoadMac(pkt, BytesOf(packetOffsetInBits));
    packetOffsetInBits := packetOffsetInBits + 48;
    var etherType := Load(pkt, BytesOf(packetOffsetInBits), 2);
    packetOffsetInBits := packetOffsetInBits + 16;
    h := EthernetH(dst, src, etherType);
    ghost var s := pkt[..];
    assert pkt[0..6] == s[0..6] && pkt[6..12] == s[6..12] && pkt[12..14] == s[12..14];
  }

  /** Load `n` bytes at the running bit offset. */
  method LoadAt(pkt: array<byte>, offset: nat, n: nat, ghost at: nat, ghost s: seq<byte>) returns (x: nat)
    requires offset / 8 == at && at + n <= pkt.Length && s == pkt[..]
    ensures x == FromBe(s[at..at + n])
  {
    LoadReads(pkt, BytesOf(offset), n);
    x := Load(pkt, BytesOf(offset), n);
  }

  /** The two nibbles of the first byte. */
  method ExtractVersion(pkt: array<byte>, offset: nat, ghost s: seq<byte>)
    returns (version: nat, ihl: nat, packetOffsetInBits: nat)
    requires pkt.Length >= 34 && offset == 112 && s == pkt[..]
    ensures version == s[14] / 16 && ihl == s[14] % 16 && packetOffsetInBits == 120
  {
    version := LoadAt(pkt, offset, 1, 14, s);
    version := Low(version / 16, 4);
    packetOffsetInBits := offset + 4;
    ihl := LoadAt(pkt, packetOffsetInBits, 1, 14, s);
    ihl := Low(ihl, 4);
    packetOffsetInBits := packetOffsetInBits + 4;
    NibbleFields(s);
  }

  /** The flags and the fragment offset, which share a byte. */
  method ExtractFragment(pkt: array<byte>, offset: nat, ghost s: seq<byte>)
    returns (flags: nat, fragOffset: nat, packetOffsetInBits: nat)
    requires pkt.Length >= 34 && offset == 160 && s == pkt[..]
    ensures flags == s[20] / 32 && fragOffset == s[20] as int % 32 * 256 + s[21] && packetOffsetInBits == 176
  {
    flags := LoadAt(pkt, offset, 1, 20, s);
    flags := Low(flags / 32, 3);
    packetOffsetInBits := offset + 3;
    fragOffset := LoadAt(pkt, packetOffsetInBits, 2, 20, s);
    fragOffset := Low(fragOffset, 13);
    packetOffsetInBits := packetOffsetInBits + 13;
    FragmentFields(s);
  }

  method ExtractIpv4(pkt: array<byte>, offset: nat) returns (h: Ipv4H, packetOffsetInBits: nat)
    requires pkt.Length >= 34 && offset == 112
    ensures h == Ipv4Of(pkt[..]) && packetOffsetInBits == 272
  {
    ghost var s := pkt[..];
    var version, ihl, flags, fragOffset;
    version, ihl, packetOffsetInBits := ExtractVersion(pkt, offset, s);
    var diffserv := LoadAt(pkt, packetOffsetInBits, 1, 15, s);
    packetOffsetInBits := packetOffsetInBits + 8;
    var totalLen := LoadAt(pkt, packetOffsetInBits, 2, 16, s);
    packetOffsetInBits := packetOffsetInBits + 16;
    var identification := LoadAt(pkt, packetOffsetInBits, 2, 18, s);
    packetOffsetInBits := packetOffsetInBits + 16;
    flags, fragOffset, packetOffsetInBits := ExtractFragment(pkt, packetOffsetInBits, s);
    var ttl := LoadAt(pkt, packetOffsetInBits, 1, 22, s);
    packetOffsetInBits := packetOffsetInBits + 8;
    var protocol := LoadAt(pkt, packetOffsetInBits, 1, 23, s);
    packetOffsetInBits := packetOffsetInBits + 8;
    var hdrChecksum := LoadAt(pkt, packetOffsetInBits, 2, 24, s);
    packetOffsetInBits := packetOffsetInBits + 16;
    var src := LoadAt(pkt, packetOffsetInBits, 4, 26, s);
    packetOffsetInBits := packetOffsetInBits + 32;
    var dst := LoadAt(pkt, packetOffsetInBits, 4, 30, s);
    packetOffsetInBits := packetOffsetInBits + 32;
    h := Ipv4H(version, ihl, diffserv, totalLen, identification, flags, fragOffset,
               ttl, protocol, hdrChecksum, src, dst);
    ByteFields(s);
  }

  lemma ByteFields(s: seq<byte>)
    requires |s| >= 34
    ensures FromBe(s[15..16]) == s[15] && FromBe(s[22..23]) == s[22] && FromBe(s[23..24]) == s[23]
  {
    FieldBounds(s[15..16]);
    FieldBounds(s[22..23]);
    FieldBounds(s[23..24]);
  }

  /** What the loads of the first, shared byte of the IPv4 state read. */
  lemma NibbleFields(s: seq<byte>)
    requires |s| >= 34
    ensures FromBe(s[14..15]) / 16 % Pow2(4) == s[14] / 16 && FromBe(s[14..15]) % Pow2(4) == s[14] % 16
  {
    FieldBounds(s[14..15]);
    assert Pow2(4) == 16;
  }

  /** What the loads of the two bytes of flags and fragment offset read. */
  lemma FragmentFields(s: seq<byte>)
    requires |s| >= 34
    ensures FromBe(s[20..21]) / 32 % Pow2(3) == s[20] / 32
    ensures FromBe(s[20..22]) % Pow2(13) == s[20] as int % 32 * 256 + s[21]
  {
    FieldBounds(s[20..21]);
    FieldBounds(s[20..22]);
    assert Pow2(3) == 8 && Pow2(13) == 8192;
    ModUnique(s[20] as int * 256 + s[21], 8192, s[20] as int / 32, s[20] as int % 32 * 256 + s[21]);
  }

  // ---- deparser ----

  /** `s` with `field` written over it at `at`. */
  function Splice(s: seq<byte>, at: nat, field: seq<byte>): (r: seq<byte>)
    requires at + |field| <= |s|
    ensures |r| == |s|
  {
    s[..at] + field + s[at + |field|..]
  }

  lemma SpliceNext(s: seq<byte>, at: nat, f: seq<byte>, g: seq<byte>)
    requires at + |f| + |g| <= |s|
    ensures Splice(Splice(s, at, f), at + |f|, g) == Splice(s, at, f + g)
  {
  }

  /** `n` consecutive `write_byte`s of the in-memory bytes of a `width`-byte integer. */
  method WriteBytes(pkt: array<byte>, at: nat, x: nat, width: nat, n: nat)
    requires n <= width && at + n <= pkt.Length
    modifies pkt
    ensures pkt[..] == Splice(old(pkt[..]), at, ToLe(x, width)[..n])
  {
    for i := 0 to n
      invariant pkt[..] == Splice(old(pkt[..]), at, ToLe(x, width)[..i])
    {
      pkt[at + i] := MemByte(x, width, i);
    }
  }

  /** `hton` a `width`-byte integer and emit the first `n` of its bytes. */
  method WriteNetwork(pkt: array<byte>, at: nat, x: nat, width: nat, n: nat)
    requires n <= width && at + n <= pkt.Length
    modifies pkt
    ensures pkt[..] == Splice(old(pkt[..]), at, ToBe(x, width)[..n])
  {
    WriteBytes(pkt, at, Hton(x, width), width, n);
  }

  method WriteField(pkt: array<byte>, at: nat, x: nat, n: nat)
    requires at + n <= pkt.Length
    modifies pkt
    ensures pkt[..] == Splice(old(pkt[..]), at, ToBe(x, n))
  {
    WriteNetwork(pkt, at, x, n, n);
    assert ToBe(x, n)[..n] == ToBe(x, n);
  }

  lemma DropTwoBytes(w: nat, x: nat, n: nat)
    requires w / 256 / 256 == x
    ensures ToBe(w, n + 2)[..n] == ToBe(x, n)
  {
    assert ToBe(w, n + 2) == ToBe(w / 256, n + 1) + [w % 256];
    assert ToBe(w / 256, n + 1) == ToBe(x, n) + [w / 256 % 256];
  }

  /** `x << 16` in 64 bits: a MAC address at the top of a word. */
  function TopOfWord(x: nat): (w: nat)
    requires x < MAC_SPACE
    ensures ToBe(w, 8)[..6] == ToBe(x, 6)
  {
    var w := x * 0x1_0000 % 0x1_0000_0000_0000_0000;
    assert w == x * 0x1_0000;
    DropTwoBytes(w, x, 6);
    w
  }

  method WriteMac(pkt: array<byte>, at: nat, x: nat)
    requires at + 6 <= pkt.Length && x < MAC_SPACE
    modifies pkt
    ensures pkt[..] == Splice(old(pkt[..]), at, ToBe(x, 6))
  {
    WriteNetwork(pkt, at, TopOfWord(x), 8, 6);
  }

  method DeparseEthernet(pkt: array<byte>, h: EthernetH) returns (packetOffsetInBits: nat)
    requires pkt.Length >= 14 && EthernetFits(h)
    modifies pkt
    ensures pkt[..] == Splice(old(pkt[..]), 0, EthernetBytes(h)) && packetOffsetInBits == 112
  {
    ghost var s := pkt[..];
    packetOffsetInBits := 0;
    WriteMac(pkt, BytesOf(packetOffsetInBits), h.dst);
    packetOffsetInBits := packetOffsetInBits + 48;
    WriteMac(pkt, BytesOf(packetOffsetInBits), h.src);
    packetOffsetInBits := packetOffsetInBits + 48;
    WriteField(pkt, BytesOf(packetOffsetInBits), h.etherType, 2);
    packetOffsetInBits := packetOffsetInBits + 16;
    SpliceNext(s, 0, ToBe(h.dst, 6), ToBe(h.src, 6));
    SpliceNext(s, 0, ToBe(h.dst, 6) + ToBe(h.src, 6), ToBe(h.etherType, 2));
  }

  lemma TwoBytes(x: nat, hi: byte, lo: byte)
    requires x == 256 * hi as int + lo
    ensures ToBe(x, 2) == [hi, lo]
  {
    assert x / 256 == hi && x % 256 == lo;
    assert ToBe(hi, 1) == [hi];
  }

  /** How a 13-bit offset of five, three and five bits, shifted left by three, spreads over two
      bytes, and what the two bytes it shares with the flags hold. */
  lemma FragmentBytes(flags: nat, frag: nat, a: nat, b: nat, c: nat)
    requires flags < 8 && a < 32 && b < 8 && c < 32 && frag == 256 * a + 32 * b + c
    ensures ToBe(frag * 8, 2) == [8 * a + b, 8 * c]
    ensures ToBe(8192 * flags + frag, 2) == [32 * flags + a, 32 * b + c]
  {
    assert frag * 8 == 256 * (8 * a + b) + 8 * c;
    TwoBytes(frag * 8, 8 * a + b, 8 * c);
    assert 8192 * flags + frag == 256 * (32 * flags + a) + (32 * b + c);
    TwoBytes(8192 * flags + frag, 32 * flags + a, 32 * b + c);
  }

  lemma JoinedFive(top: byte, low: byte)
    requires low < 32
    ensures low < Pow2(5)
    ensures Joined(top, low, 5) == low as int + 32 * (top as int % 8)
  {
    assert Pow2(5) == 32 && Pow2(3) == 8;
  }

  /** The two partial writes a shared byte receives, top bits first. */
  method WriteShared(pkt: array<byte>, at: nat, n: nat, top: byte, low: byte)
    requires at < pkt.Length && 0 < n < 8 && low < Pow2(n)
    modifies pkt
    ensures pkt[..] == old(pkt[..])[at := Joined(top, low, n)]
  {
    TwoWrites(pkt[at], n, top, low);
    pkt[at] := WritePartial(pkt[at], 8 - n, n, top);
    pkt[at] := WritePartial(pkt[at], n, 0, low);
  }

  method DeparseIpv4(pkt: array<byte>, h: Ipv4H, offset: nat)
    requires pkt.Length >= 34 && Ipv4Fits(h) && offset == 112
    modifies pkt
    ensures pkt[..] == Splice(old(pkt[..]), 14, Ipv4Bytes(h))
  {
    ghost var s := pkt[..];
    var packetOffsetInBits := DeparseIpv4Front(pkt, h, offset);
    DeparseIpv4Rest(pkt, h, packetOffsetInBits);
    SpliceNext(s, 14, Ipv4Front(h), Ipv4Rest(h));
  }

  /** Emit the next field behind those already emitted, and move on. */
  method EmitNext(pkt: array<byte>, offset: nat, x: nat, n: nat, ghost s: seq<byte>, ghost at: nat, ghost f: seq<byte>)
    returns (packetOffsetInBits: nat)
    requires at + |f| + n <= pkt.Length == |s| && offset == 8 * (at + |f|) && pkt[..] == Splice(s, at, f)
    modifies pkt
    ensures pkt[..] == Splice(s, at, f + ToBe(x, n)) && packetOffsetInBits == offset + 8 * n
  {
    WriteField(pkt, BytesOf(offset), x, n);
    SpliceNext(s, at, f, ToBe(x, n));
    packetOffsetInBits := offset + 8 * n;
  }

  method DeparseIpv4Rest(pkt: array<byte>, h: Ipv4H, offset: nat)
    requires pkt.Length >= 34 && Ipv4Fits(h) && offset == 176
    modifies pkt
    ensures pkt[..] == Splice(old(pkt[..]), 22, Ipv4Rest(h))
  {
    ghost var s, f := pkt[..], ToBe(h.ttl, 1);
    WriteField(pkt, BytesOf(offset), h.ttl, 1);
    var packetOffsetInBits := offset + 8;
    packetOffsetInBits := EmitNext(pkt, packetOffsetInBits, h.protocol, 1, s, 22, f);
    f := f + ToBe(h.protocol, 1);
    packetOffsetInBits := EmitNext(pkt, packetOffsetInBits, h.hdrChecksum, 2, s, 22, f);
    f := f + ToBe(h.hdrChecksum, 2);
    packetOffsetInBits := EmitNext(pkt, packetOffsetInBits, h.src, 4, s, 22, f);
    f := f + ToBe(h.src, 4);
    packetOffsetInBits := EmitNext(pkt, packetOffsetInBits, h.dst, 4, s, 22, f);
  }

  /** Version and header length: two partial writes into one byte. */
  method DeparseVersion(pkt: array<byte>, version: nat, ihl: nat, offset: nat) returns (packetOffsetInBits: nat)
    requires pkt.Length >= 34 && version < 16 && ihl < 16 && offset == 112
    modifies pkt
    ensures pkt[..] == Splice(old(pkt[..]), 14, ToBe(16 * version + ihl, 1)) && packetOffsetInBits == 120
  {
    VersionJoined(version, ihl);
    WriteShared(pkt, BytesOf(offset), 4, version, ihl);
    packetOffsetInBits := offset + 8;
  }

  lemma VersionJoined(version: nat, ihl: nat)
    requires version < 16 && ihl < 16
    ensures ihl < Pow2(4) && ToBe(16 * version + ihl, 1) == [Joined(version, ihl, 4)]
  {
    JoinedFour(version, ihl);
    OneByte(16 * version + ihl);
  }

  lemma JoinedFour(top: byte, low: byte)
    requires low < 16
    ensures low < Pow2(4) && Joined(top, low, 4) == low as int + 16 * (top as int % 16)
  {
    assert Pow2(4) == 16;
  }

  lemma OneByte(x: byte)
    ensures ToBe(x, 1) == [x]
  {
    assert ToBe(x / 256, 0) == [] && x % 256 == x;
  }

  /** The three whole-byte fields behind the first byte. */
  method DeparseLengths(pkt: array<byte>, h: Ipv4H, offset: nat, ghost s: seq<byte>, ghost first: seq<byte>)
    returns (packetOffsetInBits: nat)
    requires pkt.Length == |s| >= 34 && offset == 120 && |first| == 1 && pkt[..] == Splice(s, 14, first)
    modifies pkt
    ensures pkt[..] == Splice(s, 14, BeforeFragment(first, h))
    ensures packetOffsetInBits == 160
  {
    ghost var f := first;
    packetOffsetInBits := EmitNext(pkt, offset, h.diffserv, 1, s, 14, f);
    f := f + ToBe(h.diffserv, 1);
    packetOffsetInBits := EmitNext(pkt, packetOffsetInBits, h.totalLen, 2, s, 14, f);
    f := f + ToBe(h.totalLen, 2);
    packetOffsetInBits := EmitNext(pkt, packetOffsetInBits, h.identification, 2, s, 14, f);
  }

  method DeparseIpv4Front(pkt: array<byte>, h: Ipv4H, offset: nat) returns (packetOffsetInBits: nat)
    requires pkt.Length >= 34 && Ipv4Fits(h) && offset == 112
    modifies pkt
    ensures pkt[..] == Splice(old(pkt[..]), 14, Ipv4Front(h)) && packetOffsetInBits == 176
  {
    ghost var s := pkt[..];
    packetOffsetInBits := DeparseVersion(pkt, h.version, h.ihl, offset);
    packetOffsetInBits := DeparseLengths(pkt, h, packetOffsetInBits, s, ToBe(16 * h.version + h.ihl, 1));
    SpliceFragment(s, h);
    packetOffsetInBits := WriteFragment(pkt, packetOffsetInBits, h.flags, h.fragOffset);
  }

  /** The fields before the fragment word, as `DeparseLengths` leaves them. */
  function BeforeFragment(first: seq<byte>, h: Ipv4H): (f: seq<byte>)
    ensures |f| == |first| + 5
  {
    first + ToBe(h.diffserv, 1) + ToBe(h.totalLen, 2) + ToBe(h.identification, 2)
  }

  lemma SpliceFragment(s: seq<byte>, h: Ipv4H)
    requires |s| >= 34
    ensures Splice(Splice(s, 14, BeforeFragment(ToBe(16 * h.version + h.ihl, 1), h)), 20,
                   ToBe(8192 * h.flags + h.fragOffset, 2)) == Splice(s, 14, Ipv4Front(h))
  {
    SpliceNext(s, 14, BeforeFragment(ToBe(16 * h.version + h.ihl, 1), h), ToBe(8192 * h.flags + h.fragOffset, 2));
  }

  /** What the partial writes of flags and offset amount to. */
  lemma FragmentJoined(flags: nat, frag: nat)
    requires flags < 8 && frag < 8192
    ensures var s := ToBe(frag * 8, 2);
            && s[0] / 8 < Pow2(5) && s[1] / 8 < Pow2(5)
            && [Joined(flags, s[0] / 8, 5), Joined(s[0], s[1] / 8, 5)] == ToBe(8192 * flags + frag, 2)
  {
    var q, c := frag / 32, frag % 32;
    var a, b := q / 8, q % 8;
    assert frag == 32 * q + c && q == 8 * a + b;
    FragmentBytes(flags, frag, a, b, c);
    FragmentPair(flags, a, b, c, ToBe(frag * 8, 2), ToBe(8192 * flags + frag, 2));
  }

  lemma FragmentPair(flags: nat, a: nat, b: nat, c: nat, s: seq<byte>, t: seq<byte>)
    requires flags < 8 && a < 32 && b < 8 && c < 32 && s == [8 * a + b, 8 * c] && t == [32 * flags + a, 32 * b + c]
    ensures s[0] / 8 < Pow2(5) && s[1] / 8 < Pow2(5)
    ensures [Joined(flags, s[0] / 8, 5), Joined(s[0], s[1] / 8, 5)] == t
  {
    FragmentHalves(flags, a, b, c);
  }

  lemma FragmentHalves(flags: nat, a: nat, b: nat, c: nat)
    requires flags < 8 && a < 32 && b < 8 && c < 32
    ensures (8 * a + b) / 8 == a < Pow2(5) && 8 * c / 8 == c < Pow2(5)
    ensures Joined(flags, a, 5) == 32 * flags + a && Joined(8 * a + b, c, 5) == 32 * b + c
  {
    ModUnique(8 * a + b, 8, a, b);
    JoinedFive(flags, a);
    JoinedFive(8 * a + b, c);
  }

  /** The flags and the fragment offset: overlapping partial writes into two bytes. */
  method WriteFragment(pkt: array<byte>, offset: nat, flags: nat, fragOffset: nat) returns (packetOffsetInBits: nat)
    requires pkt.Length >= 34 && offset == 160 && flags < 8 && fragOffset < 8192
    modifies pkt
    ensures pkt[..] == Splice(old(pkt[..]), 20, ToBe(8192 * flags + fragOffset, 2))
    ensures packetOffsetInBits == 176
  {
    FragmentJoined(flags, fragOffset);
    packetOffsetInBits := offset;
    var swapped := Hton(fragOffset * 8, 2);
    var hi := MemByte(swapped, 2, 0);
    var lo := MemByte(swapped, 2, 1);
    WriteShared(pkt, BytesOf(packetOffsetInBits), 5, flags, hi / 8);
    packetOffsetInBits := packetOffsetInBits + 3;
    WriteShared(pkt, BytesOf(packetOffsetInBits) + 1, 5, hi, lo / 8);
    packetOffsetInBits := packetOffsetInBits + 13;
  }

  // ---- the program ----

  /** The frames both parser states accept. */
  predicate Extracted(s: Frame)
  {
    |s| >= 34 && Be16(s, 12) == ETHERTYPE_IPV4
  }

  /** A frame the `forward` action was applied to. */
  function Forwarded(s: Frame, dmac: Mac): (r: Frame)
    requires |s| >= 34 && s[22] > 0
    ensures |r| == |s|
  {
    dmac + s[6..22] + [s[22] - 1, s[23], 0, 0] + s[26..]
  }

  /** The host's view of the two maps the program was compiled against. */
  ghost predicate MapsFor(entries: Table, defaults: Table, t: L3fwd.Tables)
    reads entries, defaults
  {
    && entries.Valid() && entries.matching == Lpm && entries.layout == ENTRY_LAYOUT && entries.default == None
    && defaults.Valid() && defaults.matching == Exact && defaults.layout == DEFAULT_LAYOUT
    && Encodes(entries.routes, t.routes) && NativeTable.Canonical(t.routes)
    && defaults.routes == map[] && defaults.default == Some(ValueImage(t.default))
  }

  /** `ubpf_map_lookup` on the entry map, and on the default map after a miss. */
  method ApplyTable(entries: Table, defaults: Table, dst: u32, ghost t: L3fwd.Tables) returns (value: Option<Bytes>)
    requires MapsFor(entries, defaults, t)
    ensures value == Some(ValueImage(NativeTable.Resolve(t.routes, t.default, dst)))
  {
    value := entries.Lookup(KeyImage(dst));
    assert Window(ENTRY_LAYOUT, KeyImage(dst)) == ToLe(dst, 4);
    ghost var found :| IsLongest(entries.routes, UbpfTable.Probe(ToLe(dst, 4)), found)
                       && value == if found.Some? then found else None;
    EncodedLongest(entries.routes, t.routes, dst, found);
    if value.None? {
      value := defaults.Lookup(Zeros(4));
    }
  }

  /** The headers as the action left them. */
  method Deparse(pkt: array<byte>, ethernet: EthernetH, ipv4: Ipv4H)
    requires pkt.Length >= 34 && EthernetFits(ethernet) && Ipv4Fits(ipv4)
    modifies pkt
    ensures pkt[..] == EthernetBytes(ethernet) + Ipv4Bytes(ipv4) + old(pkt[34..])
  {
    ghost var s := pkt[..];
    var packetOffsetInBits := DeparseEthernet(pkt, ethernet);
    DeparseIpv4(pkt, ipv4, packetOffsetInBits);
    SpliceNext(s, 0, EthernetBytes(ethernet), Ipv4Bytes(ipv4));
  }

  /** What `forward` does to the extracted headers. */
  function Hopped(h: Ipv4H): Ipv4H { h.(ttl := (h.ttl + 255) % 256, hdrChecksum := 0) }

  lemma ForwardedEthernet(s: Frame, dmac: Mac)
    requires |s| >= 34
    ensures var e := EthernetOf(s).(dst := FromBe(dmac));
            EthernetFits(e) && EthernetBytes(e) == dmac + s[6..14]
  {
    FieldsFit(s);
    FieldBounds(dmac);
    ToFromBe(dmac);
    ToFromBe(s[6..12]);
    ToFromBe(s[12..14]);
    assert s[6..14] == s[6..12] + s[12..14];
  }

  lemma ForwardedRest(s: Frame)
    requires |s| >= 34 && s[22] > 0
    ensures Ipv4Rest(Hopped(Ipv4Of(s))) == [s[22] - 1, s[23], 0, 0] + s[26..34]
  {
    var h := Hopped(Ipv4Of(s));
    ToFromBe(s[26..30]);
    ToFromBe(s[30..34]);
    assert ToBe(h.ttl, 1) == [s[22] - 1] && ToBe(h.protocol, 1) == [s[23]];
    assert ToBe(0, 2) == [0, 0];
    assert s[26..34] == s[26..30] + s[30..34];
  }

  /** The bytes of rewritten headers, in terms of the frame they were extracted from. */
  lemma ForwardedHeaders(s: Frame, dmac: Mac)
    requires |s| >= 34 && s[22] > 0
    ensures var e, h := EthernetOf(s).(dst := FromBe(dmac)), Hopped(Ipv4Of(s));
            && EthernetFits(e) && Ipv4Fits(h)
            && EthernetBytes(e) + Ipv4Bytes(h) + s[34..] == Forwarded(s, dmac)
  {
    FieldsFit(s);
    ForwardedEthernet(s, dmac);
    ForwardedRest(s);
    Ipv4FrontBack(s);
    assert Ipv4Front(Hopped(Ipv4Of(s))) == Ipv4Front(Ipv4Of(s));
    ForwardedJoins(s, dmac);
  }

  lemma ForwardedJoins(s: Frame, dmac: Mac)
    requires |s| >= 34 && s[22] > 0
    ensures (dmac + s[6..14]) + (s[14..22] + ([s[22] - 1, s[23], 0, 0] + s[26..34])) + s[34..] == Forwarded(s, dmac)
  {
    assert s[6..22] == s[6..14] + s[14..22];
    assert s[26..] == s[26..34] + s[34..];
  }

  /** `entry`: what it returns, the egress port it leaves behind, and the packet buffer. */
  method Entry(pkt: array<byte>, pktLen: nat, entries: Table, defaults: Table, ghost t: L3fwd.Tables)
    returns (ret: nat, outputPort: u32)
    requires pktLen <= pkt.Length && MapsFor(entries, defaults, t)
    modifies pkt
    ensures var s := old(pkt[..]);
            if !Extracted(s[..pktLen]) then ret == 1 && outputPort == NO_PORT && pkt[..] == s
            else if s[22] == 0 then ret == 0 && outputPort == NO_PORT && pkt[..] == s
            else
              match NativeTable.Resolve(t.routes, t.default, Be32(s, 30))
              case Forward(port, dmac) => ret == 1 && outputPort == port && pkt[..] == Forwarded(s, dmac)
              case Punt => ret == 1 && outputPort == PUNT_PORT && pkt[..] == s
              case Drop => ret == 0 && outputPort == NO_PORT && pkt[..] == s
  {
    ghost var s := pkt[..];
    ret, outputPort := 1, NO_PORT;
    // start
    if pktLen < 14 {
      return;
    }
    var ethernet, packetOffsetInBits := ExtractEthernet(pkt);
    FieldBounds(s[12..14]);
    if ethernet.etherType != 0x800 {
      return;
    }
    // ipv4
    if pktLen < BytesOf(packetOffsetInBits + 160) {
      return;
    }
    var ipv4: Ipv4H;
    ipv4, packetOffsetInBits := ExtractIpv4(pkt, packetOffsetInBits);
    DeparseUndoesParse(s);
    assert s == s[..34] + s[34..];
    // accept
    var pass := true;
    if ipv4.ttl == 0 {
      pass := false;
    } else {
      assert ipv4.dst == Be32(s, 30) by { Be32Loads(s, 30); }
      var value := ApplyTable(entries, defaults, ipv4.dst, t);
      if value.None? {
        return;
      }
      ghost var action := NativeTable.Resolve(t.routes, t.default, ipv4.dst);
      ValueImageReadsBack(action);
      var disc := FromLe(value.value[0..4]);
      if disc == 0 {
        ForwardedHeaders(s, action.dmac);
        ipv4 := Hopped(ipv4);
        ethernet := ethernet.(dst := FromLe(value.value[16..24]));
        outputPort := FromLe(value.value[8..10]);
      } else if disc == 1 {
        outputPort := PUNT_PORT;
      } else if disc == 2 {
        pass := false;
      } else {
        return;
      }
    }
    Deparse(pkt, ethernet, ipv4);
    ret := if pass then 1 else 0;
  }

  lemma Be32Loads(s: Frame, at: nat)
    requires at + 4 <= |s|
    ensures FromBe(s[at..at + 4]) == Be32(s, at)
  {
    var f := s[at..at + 4];
    assert f[..3][..2] == f[..2];
    FieldBounds(f[..2]);
  }
}
