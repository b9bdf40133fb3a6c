/** Header parsing and in-place rewriting (crates/up4-engine/src/headers.rs). */
module Headers {
  import opened Bits
  import opened Buckets

  const ETH_HDR_LEN: nat := 14
  const IPV4_MIN_HDR_LEN: nat := 20
  const ETHERTYPE_IPV4: u16 := 0x0800
  const IP_PROTO_TCP: byte := 6
  const IP_PROTO_UDP: byte := 17

  type Frame = seq<byte>

  type Mac = m: seq<byte> | |m| == 6 witness [0, 0, 0, 0, 0, 0]

  // ---- big-endian fields ----

  /** The number a big-endian byte string stands for. */
  function FromBe(s: seq<byte>): nat
  {
    if s == [] then 0 else 256 * FromBe(s[..|s| - 1]) + s[|s| - 1]
  }

  /** The low `n` bytes of `x`, most significant first. */
  function ToBe(x: nat, n: nat): (s: seq<byte>)
    ensures |s| == n
  {
    if n == 0 then [] else ToBe(x / 256, n - 1) + [x % 256]
  }

  lemma {:induction false} FromBeBound(s: seq<byte>)
    ensures FromBe(s) < Pow2(8 * |s|)
  {
    if s != [] {
      FromBeBound(s[..|s| - 1]);
      Pow2Add(8, 8 * (|s| - 1));
      assert Pow2(8) == 256;
    }
  }

  lemma {:induction false} ToFromBe(s: seq<byte>)
    ensures ToBe(FromBe(s), |s|) == s
  {
    if s != [] {
      ToFromBe(s[..|s| - 1]);
    }
  }

  const MAC_SPACE: int := 0x1_0000_0000_0000

  lemma FieldBounds(s: seq<byte>)
    ensures |s| == 1 ==> FromBe(s) == s[0]
    ensures |s| == 2 ==> FromBe(s) == 256 * s[0] as int + s[1]
    ensures |s| == 2 ==> FromBe(s) < 0x1_0000
    ensures |s| == 4 ==> FromBe(s) < WORD
    ensures |s| == 6 ==> FromBe(s) < MAC_SPACE
  {
    FromBeBound(s);
    PowersOfTwo();
    if |s| == 2 {
      assert s[..1][..0] == [];
      assert FromBe(s[..1]) == s[0];
    }
  }

  // ---- parsing ----

  datatype Ethernet = Ethernet(dst: Mac, src: Mac, etherType: u16)

  datatype Ipv4 = Ipv4(offset: nat, hdrLen: nat, ttl: byte, protocol: byte, dst: u32)

  function ParseEthernet(frame: Frame): Option<Ethernet>
  {
    if |frame| < ETH_HDR_LEN then None
    else Some(Ethernet(frame[0..6], frame[6..12], Be16(frame, 12)))
  }

  /** The IPv4 header at `offset`, unless it is cut short, is not version 4, or gives itself a length
      that is too small or does not fit. */
  function ParseIpv4(frame: Frame, offset: nat): Option<Ipv4>
  {
    if |frame| < offset + IPV4_MIN_HDR_LEN then None
    else if frame[offset] / 16 != 4 then None
    else
      var hdrLen := frame[offset] % 16 * 4;
      if hdrLen < IPV4_MIN_HDR_LEN || offset + hdrLen > |frame| then None
      else Some(Ipv4(offset, hdrLen, frame[offset + 8], frame[offset + 9], Be32(frame, offset + 16)))
  }

  function Be16(frame: Frame, at: nat): u16
    requires at + 2 <= |frame|
  {
    256 * frame[at] as int + frame[at + 1]
  }

  function Be32(frame: Frame, at: nat): u32
    requires at + 4 <= |frame|
  {
    0x1_0000 * Be16(frame, at) as int + Be16(frame, at + 2)
  }

  /** A 32-bit number reads back from its bytes. */
  lemma Be32Back(x: u32, rest: seq<byte>)
    ensures Be32(ToBe(x, 4) + rest, 0) == x
  {
    var s := ToBe(x, 4);
    assert s == ToBe(x / 256, 3) + [x % 256];
    assert ToBe(x / 256, 3) == ToBe(x / 256 / 256, 2) + [x / 256 % 256];
    assert ToBe(x / 256 / 256, 2) == ToBe(x / 256 / 256 / 256, 1) + [x / 256 / 256 % 256];
    assert ToBe(x / 256 / 256 / 256, 1) == [x / 256 / 256 / 256 % 256];
  }

  /** A frame with the IPv4 EtherType and, behind it, a header that parses. */
  predicate CoherentIpv4(frame: Frame)
  {
    && |frame| >= ETH_HDR_LEN && Be16(frame, 12) == ETHERTYPE_IPV4
    && ParseIpv4(frame, ETH_HDR_LEN).Some?
  }

  // ---- what scrubbing means ----

  /** Where the transport checksum would start, for the protocols that have one. */
  function TransportChecksumAt(frame: Frame): Option<nat>
    requires |frame| >= 34
  {
    var l4 := ETH_HDR_LEN + frame[14] % 16 * 4;
    if frame[23] == IP_PROTO_TCP then Some(l4 + 16)
    else if frame[23] == IP_PROTO_UDP then Some(l4 + 6)
    else None
  }

  /** Byte `i` belongs to the IPv4 header checksum or to a transport checksum that fits. */
  predicate ChecksumByte(frame: Frame, i: nat)
  {
    && CoherentIpv4(frame)
    && (i == 24 || i == 25 ||
        var at := TransportChecksumAt(frame);
        at.Some? && at.value + 2 <= |frame| && (i == at.value || i == at.value + 1))
  }

  function Scrubbed(frame: Frame): (r: Frame)
    ensures |r| == |frame|
  {
    seq(|frame|, i requires 0 <= i < |frame| => if ChecksumByte(frame, i) then 0 else frame[i])
  }

  // ---- byte by byte ----

  /** What a coherent IPv4 frame is, on its bytes: EtherType 0x0800, version 4, and a header of at least five words,
      options included, that fits. */
  lemma CoherentOnBytes(frame: Frame)
    ensures CoherentIpv4(frame) <==>
              && |frame| >= 34 && frame[12] == 8 && frame[13] == 0 && frame[14] / 16 == 4 && frame[14] % 16 >= 5
              && 14 + 4 * (frame[14] as int % 16) <= |frame|
  {
    if |frame| >= 14 {
      assert Be16(frame, 12) == 256 * frame[12] as int + frame[13];
    }
  }

  /** What a scrub leaves of a coherent frame, on its bytes: zeroes at 24 and 25, and behind the header, as long as it
      says it is, at 16 and 17 of TCP and at 6 and 7 of UDP, if they lie in the frame. */
  lemma ScrubbedOnBytes(frame: Frame, i: nat)
    requires CoherentIpv4(frame) && i < |frame|
    ensures var l4 := 14 + 4 * (frame[14] as int % 16);
            Scrubbed(frame)[i] ==
            if i == 24 || i == 25 then 0
            else if frame[23] == 6 && l4 + 18 <= |frame| && (i == l4 + 16 || i == l4 + 17) then 0
            else if frame[23] == 17 && l4 + 8 <= |frame| && (i == l4 + 6 || i == l4 + 7) then 0
            else frame[i]
  {
    CoherentOnBytes(frame);
  }

  /** Any other frame is left alone. */
  lemma IncoherentLeftAlone(frame: Frame)
    requires !CoherentIpv4(frame)
    ensures Scrubbed(frame) == frame
  {
  }

  // ---- in-place operations ----

  method SetDst(frame: array<byte>, mac: Mac)
    modifies frame
    ensures frame.Length < ETH_HDR_LEN ==> frame[..] == old(frame[..])
    ensures frame.Length >= ETH_HDR_LEN ==> frame[..] == mac + old(frame[6..])
  {
    if frame.Length >= ETH_HDR_LEN {
      forall i | 0 <= i < 6 {
        frame[i] := mac[i];
      }
    }
  }

  method ZeroAt(frame: array<byte>, at: nat)
    modifies frame
    ensures frame[..] == if at + 2 <= frame.Length then old(frame[..])[at := 0][at + 1 := 0] else old(frame[..])
  {
    if at + 2 <= frame.Length {
      frame[at], frame[at + 1] := 0, 0;
    }
  }

  /** Clear the checksum bytes of a frame in place, found where the headers put them. */
  method ZeroInnerChecksums(frame: array<byte>)
    modifies frame
    ensures frame[..] == Scrubbed(old(frame[..]))
  {
    ghost var was := frame[..];
    var eth := ParseEthernet(frame[..]);
    if eth.None? || eth.value.etherType != ETHERTYPE_IPV4 {
      assert frame[..] == Scrubbed(was);
      return;
    }
    var ip := ParseIpv4(frame[..], ETH_HDR_LEN);
    if ip.None? {
      assert frame[..] == Scrubbed(was);
      return;
    }
    ZeroAt(frame, ip.value.offset + 10);
    var l4 := ip.value.offset + ip.value.hdrLen;
    if ip.value.protocol == IP_PROTO_TCP {
      ZeroAt(frame, l4 + 16);
    } else if ip.value.protocol == IP_PROTO_UDP {
      ZeroAt(frame, l4 + 6);
    }
    assert frame[..] == Scrubbed(was);
  }
}
