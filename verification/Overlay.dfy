/** The overlay header on every fabric segment (crates/up4-wire/src/lib.rs). */
module Overlay {
  import opened Bits
  import opened Headers

  const OVERLAY_HDR_LEN: nat := 12
  const VERSION: byte := 1

  datatype Hdr = Hdr(ingressVport: u16, sequence: u32, tsUs: u32)

  datatype Decoded = Decoded(hdr: Hdr) | ShortBuffer | BadVersion(got: byte)

  function Encode(h: Hdr): (s: seq<byte>)
    ensures |s| == OVERLAY_HDR_LEN
  {
    [VERSION * 16, 0] + ToBe(h.ingressVport, 2) + ToBe(h.sequence, 4) + ToBe(h.tsUs, 4)
  }

  /** Only the version nibble is checked; the low nibble and the second byte may hold anything. */
  function Decode(buf: seq<byte>): Decoded
  {
    if |buf| < OVERLAY_HDR_LEN then ShortBuffer
    else if buf[0] / 16 != VERSION then BadVersion(buf[0] / 16)
    else Decoded(Hdr(Be16(buf, 2), Be32(buf, 4), Be32(buf, 8)))
  }

  /** Whatever follows the header, decoding recovers it. */
  lemma DecodeEncode(h: Hdr, rest: seq<byte>)
    ensures Decode(Encode(h) + rest) == Decoded(h)
  {
    var buf := Encode(h) + rest;
    Be32Back(h.sequence, ToBe(h.tsUs, 4) + rest);
    Be32Back(h.tsUs, rest);
    assert buf[4..] == ToBe(h.sequence, 4) + (ToBe(h.tsUs, 4) + rest);
    assert buf[8..] == ToBe(h.tsUs, 4) + rest;
    assert Be32(buf, 4) == Be32(buf[4..], 0) && Be32(buf, 8) == Be32(buf[8..], 0);
    assert ToBe(h.ingressVport, 2) == ToBe(h.ingressVport / 256, 1) + [h.ingressVport % 256];
    assert ToBe(h.ingressVport / 256, 1) == [h.ingressVport / 256 % 256];
  }

  // ---- byte by byte ----

  lemma TwoBytesOf(x: u16)
    ensures ToBe(x, 2) == [x / 0x100, x % 0x100]
  {
    assert ToBe(x, 2) == ToBe(x / 0x100, 1) + [x % 0x100];
    assert ToBe(x / 0x100, 1) == [x / 0x100 % 0x100];
  }

  lemma FourBytesOf(x: u32)
    ensures ToBe(x, 4) == [x / 0x100 / 0x100 / 0x100, x / 0x100 / 0x100 % 0x100, x / 0x100 % 0x100, x % 0x100]
  {
    var a := x / 0x100;
    var b := a / 0x100;
    assert ToBe(x, 4) == ToBe(a, 3) + [x % 0x100];
    assert ToBe(a, 3) == ToBe(b, 2) + [a % 0x100];
    assert ToBe(b, 2) == ToBe(b / 0x100, 1) + [b % 0x100];
    assert ToBe(b / 0x100, 1) == [b / 0x100 % 0x100];
  }

  /** The header on the wire: version 1 in the high nibble, a zero byte, then port, number and time in network order. */
  lemma EncodeOnBytes(h: Hdr)
    ensures var p, s, t := h.ingressVport, h.sequence, h.tsUs;
            Encode(h) == [16, 0, p / 0x100, p % 0x100]
                         + [s / 0x100 / 0x100 / 0x100, s / 0x100 / 0x100 % 0x100, s / 0x100 % 0x100, s % 0x100]
                         + [t / 0x100 / 0x100 / 0x100, t / 0x100 / 0x100 % 0x100, t / 0x100 % 0x100, t % 0x100]
  {
    TwoBytesOf(h.ingressVport);
    FourBytesOf(h.sequence);
    FourBytesOf(h.tsUs);
  }

  /** What is decoded, on its bytes: any buffer of at least twelve bytes whose first nibble is 1. */
  lemma DecodeOnBytes(buf: seq<byte>)
    ensures Decode(buf).ShortBuffer? <==> |buf| < 12
    ensures Decode(buf).Decoded? <==> |buf| >= 12 && buf[0] / 16 == 1
    ensures |buf| >= 12 && buf[0] / 16 != 1 ==> Decode(buf) == BadVersion(buf[0] / 16)
    ensures Decode(buf).Decoded? ==>
              var h := Decode(buf).hdr;
              && h.ingressVport == 0x100 * buf[2] as int + buf[3]
              && h.sequence == 0x100_0000 * buf[4] as int + 0x1_0000 * buf[5] as int + 0x100 * buf[6] as int + buf[7]
              && h.tsUs == 0x100_0000 * buf[8] as int + 0x1_0000 * buf[9] as int + 0x100 * buf[10] as int + buf[11]
  {
  }
}
