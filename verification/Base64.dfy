/** Padded base64 over the standard alphabet, section 4 of RFC 4648 (crates/up4-ctl/src/b64.rs). Text is its bytes. */
module Base64 {
  import opened Bits
  import opened Buckets

  const PAD: byte := 61

  type Sextet = d: int | 0 <= d < 64

  /** Table 1 of RFC 4648: A-Z, a-z, 0-9, plus, slash. */
  function Letter(d: Sextet): (c: byte)
    ensures c != PAD
  {
    if d < 26 then 65 + d
    else if d < 52 then 97 + (d - 26)
    else if d < 62 then 48 + (d - 52)
    else if d == 62 then 43
    else 47
  }

  /** Where a byte stands in the alphabet. */
  function Position(c: byte): (r: Option<Sextet>)
    ensures r.Some? ==> Letter(r.value) == c
    ensures r.None? ==> forall d: Sextet :: Letter(d) != c
  {
    if 65 <= c <= 90 then Some(c - 65)
    else if 97 <= c <= 122 then Some(c - 97 + 26)
    else if 48 <= c <= 57 then Some(c - 48 + 52)
    else if c == 43 then Some(62)
    else if c == 47 then Some(63)
    else None
  }

  // ---- one group ----

  /** Byte `i` of a group, zero past its end. */
  function Byte(chunk: seq<byte>, i: nat): byte { if i < |chunk| then chunk[i] else 0 }

  function Word(chunk: seq<byte>): nat
  {
    Byte(chunk, 0) as int * 65536 + Byte(chunk, 1) as int * 256 + Byte(chunk, 2)
  }

  function Digit(n: nat, i: nat): (d: Sextet)
    requires n < 16777216 && i < 4
  {
    match i
    case 0 => n / 262144
    case 1 => n / 4096 % 64
    case 2 => n / 64 % 64
    case _ => n % 64
  }

  /** Character `i` of a group: one digit more than there are bytes, then padding. */
  function Char(chunk: seq<byte>, i: nat): byte
    requires i < 4
  {
    if i <= |chunk| then Letter(Digit(Word(chunk), i)) else PAD
  }

  function Group(chunk: seq<byte>): (q: seq<byte>)
    ensures |q| == 4
  {
    [Char(chunk, 0), Char(chunk, 1), Char(chunk, 2), Char(chunk, 3)]
  }

  function Value(c: byte, i: nat): Option<Sextet>
  {
    if c == PAD && i >= 2 then Some(0) else Position(c)
  }

  /** The bytes a group of four claims to hold. */
  function Claimed(q: seq<byte>): nat
    requires |q| == 4
  {
    if q[2] == PAD then 1 else if q[3] == PAD then 2 else 3
  }

  function Unpacked(n: nat): (b: seq<byte>)
    requires n < 16777216
    ensures |b| == 3
  {
    [n / 65536, n / 256 % 256, n % 256]
  }

  function Packed(a: Sextet, b: Sextet, c: Sextet, d: Sextet): (n: nat)
    ensures n < 16777216
  {
    a as int * 262144 + b as int * 4096 + c as int * 64 + d
  }

  lemma PackedDigits(a: Sextet, b: Sextet, c: Sextet, d: Sextet)
    ensures var n := Packed(a, b, c, d);
            Digit(n, 0) == a && Digit(n, 1) == b && Digit(n, 2) == c && Digit(n, 3) == d
  {
    var n, x := Packed(a, b, c, d), a as int * 64 + b;
    ModUnique(n, 64, x * 64 + c, d);
    ModUnique(n, 4096, x, c as int * 64 + d);
    ModUnique(n, 262144, a, b as int * 4096 + c as int * 64 + d);
  }

  function Ungroup(q: seq<byte>): (r: Option<seq<byte>>)
    requires |q| == 4
    ensures r.Some? ==> |r.value| == Claimed(q)
  {
    var a, b, c, d := Value(q[0], 0), Value(q[1], 1), Value(q[2], 2), Value(q[3], 3);
    if a.None? || b.None? || c.None? || d.None? then None
    else Some(Unpacked(Packed(a.value, b.value, c.value, d.value))[..Claimed(q)])
  }

  /** A group with nothing hidden: padding runs to the end, and the bits it cuts off are zero. */
  predicate Tidy(q: seq<byte>)
    requires |q| == 4
  {
    && (q[2] == PAD ==> q[3] == PAD && (Position(q[1]).Some? ==> Position(q[1]).value % 16 == 0))
    && (q[2] != PAD && q[3] == PAD ==> Position(q[2]).Some? ==> Position(q[2]).value % 4 == 0)
  }

  lemma LetterBack(d: Sextet, i: nat)
    ensures Value(Letter(d), i) == Some(d)
  {
  }

  lemma DigitsRebuild(n: nat)
    requires n < 16777216
    ensures Packed(Digit(n, 0), Digit(n, 1), Digit(n, 2), Digit(n, 3)) == n
  {
    var x := n / 64;
    var y := x / 64;
    assert n == 64 * x + n % 64 && x == 64 * y + x % 64 && y == 64 * (y / 64) + y % 64;
    ModUnique(n, 4096, y, 64 * (x % 64) + n % 64);
    ModUnique(n, 262144, y / 64, 4096 * (y % 64) + 64 * (x % 64) + n % 64);
  }

  lemma BytesUnpack(b0: byte, b1: byte, b2: byte)
    ensures Unpacked(b0 as int * 65536 + b1 as int * 256 + b2) == [b0, b1, b2]
  {
    var n := b0 as int * 65536 + b1 as int * 256 + b2;
    ModUnique(n, 65536, b0, b1 as int * 256 + b2);
    ModUnique(n, 256, b0 as int * 256 + b1, b2);
    ModUnique(b0 as int * 256 + b1, 256, b0, b1);
  }

  lemma WordUnpacks(chunk: seq<byte>)
    requires 1 <= |chunk| <= 3
    ensures Word(chunk) < 16777216 && Unpacked(Word(chunk))[..|chunk|] == chunk
    ensures |chunk| < 3 ==> Digit(Word(chunk), 3) == 0
    ensures |chunk| < 2 ==> Digit(Word(chunk), 2) == 0
  {
    var n, b0, b1, b2 := Word(chunk), Byte(chunk, 0), Byte(chunk, 1), Byte(chunk, 2);
    BytesUnpack(b0, b1, b2);
    if |chunk| < 3 {
      ModUnique(n, 64, b0 as int * 1024 + b1 as int * 4, 0);
    }
  }

  lemma GroupBack(chunk: seq<byte>)
    requires 1 <= |chunk| <= 3
    ensures Ungroup(Group(chunk)) == Some(chunk)
  {
    var n := Word(chunk);
    WordUnpacks(chunk);
    LetterBack(Digit(n, 0), 0);
    LetterBack(Digit(n, 1), 1);
    LetterBack(Digit(n, 2), 2);
    LetterBack(Digit(n, 3), 3);
    DigitsRebuild(n);
  }

  /** The word a group's bytes make up is the group's own exactly when the bits past them are zero. */
  lemma WordOfClaimed(n: nat, k: nat)
    requires n < 16777216 && 1 <= k <= 3
    ensures Word(Unpacked(n)[..k]) == (if k == 1 then n / 65536 * 65536 else if k == 2 then n / 256 * 256 else n)
  {
  }

  lemma CutOne(a: Sextet, b: Sextet)
    ensures var n := Packed(a, b, 0, 0); n / 65536 * 65536 == Packed(a, b / 16 * 16, 0, 0)
  {
  }

  lemma CutTwo(a: Sextet, b: Sextet, c: Sextet)
    ensures var n := Packed(a, b, c, 0); n / 256 * 256 == Packed(a, b, c / 4 * 4, 0)
  {
    ModUnique(Packed(a, b, c, 0), 256, a as int * 1024 + b as int * 16 + c / 4, c as int % 4 * 64);
  }

  /** Writing the bytes of a group again: the same letters, but for the bits its padding cuts off. */
  lemma Rewritten(a: Sextet, b: Sextet, c: Sextet, d: Sextet, k: nat)
    requires 1 <= k <= 3 && (k < 3 ==> d == 0) && (k < 2 ==> c == 0)
    ensures Group(Unpacked(Packed(a, b, c, d))[..k]) ==
            if k == 1 then [Letter(a), Letter(b / 16 * 16), PAD, PAD]
            else if k == 2 then [Letter(a), Letter(b), Letter(c / 4 * 4), PAD]
            else [Letter(a), Letter(b), Letter(c), Letter(d)]
  {
    WordOfClaimed(Packed(a, b, c, d), k);
    if k == 1 {
      CutOne(a, b);
      PackedDigits(a, b / 16 * 16, 0, 0);
    } else if k == 2 {
      CutTwo(a, b, c);
      PackedDigits(a, b, c / 4 * 4, 0);
    } else {
      PackedDigits(a, b, c, d);
    }
  }

  lemma LettersDiffer(d: Sextet, e: Sextet)
    ensures Letter(d) == Letter(e) <==> d == e
  {
  }

  /** Reading a group and writing it again gives it back exactly when it is tidy. */
  lemma UngroupBack(q: seq<byte>)
    requires |q| == 4 && Ungroup(q).Some?
    ensures Group(Ungroup(q).value) == q <==> Tidy(q)
  {
    var a, b, c, d := Value(q[0], 0).value, Value(q[1], 1).value, Value(q[2], 2).value, Value(q[3], 3).value;
    var k := Claimed(q);
    assert q[0] == Letter(a) && q[1] == Letter(b);
    if k == 1 {
      BytesPastFirst(a, b, c, d);
      Rewritten(a, b, 0, 0, k);
      LettersDiffer(b, b / 16 * 16);
    } else {
      Rewritten(a, b, c, d, k);
      LettersDiffer(c, c / 4 * 4);
    }
  }

  /** A group that claims one byte shows nothing of its last two digits. */
  lemma BytesPastFirst(a: Sextet, b: Sextet, c: Sextet, d: Sextet)
    ensures Unpacked(Packed(a, b, c, d))[..1] == Unpacked(Packed(a, b, 0, 0))[..1]
  {
    var hi := a as int * 4 + b / 16;
    ModUnique(Packed(a, b, c, d), 65536, hi, b as int % 16 * 4096 + c as int * 64 + d);
    ModUnique(Packed(a, b, 0, 0), 65536, hi, b as int % 16 * 4096);
  }

  // ---- whole texts ----

  function Text(bytes: seq<byte>): seq<byte>
  {
    if bytes == [] then [] else if |bytes| <= 3 then Group(bytes) else Group(bytes[..3]) + Text(bytes[3..])
  }

  function Join(a: Option<seq<byte>>, b: Option<seq<byte>>): Option<seq<byte>>
  {
    if a.None? || b.None? then None else Some(a.value + b.value)
  }

  function Bytes(text: seq<byte>): Option<seq<byte>>
  {
    if text == [] then Some([]) else if |text| < 4 then None else Join(Ungroup(text[..4]), Bytes(text[4..]))
  }

  predicate Canonical(text: seq<byte>)
  {
    if |text| < 4 then text == []
    else if |text| == 4 then Tidy(text)
    else text[2] != PAD && text[3] != PAD && Canonical(text[4..])
  }

  /** Decoding undoes encoding, on every byte string. */
  lemma {:induction false} DecodeUndoesEncode(bytes: seq<byte>)
    ensures Bytes(Text(bytes)) == Some(bytes)
  {
    if bytes != [] {
      var chunk := if |bytes| <= 3 then bytes else bytes[..3];
      var rest := bytes[|chunk|..];
      GroupBack(chunk);
      DecodeUndoesEncode(rest);
      assert Text(bytes) == Group(chunk) + Text(rest);
      assert Text(bytes)[..4] == Group(chunk) && Text(bytes)[4..] == Text(rest);
      assert bytes == chunk + rest;
    }
  }

  lemma {:induction false} TextLength(bytes: seq<byte>)
    ensures |Text(bytes)| == (|bytes| + 2) / 3 * 4
  {
    if |bytes| > 3 {
      TextLength(bytes[3..]);
    }
  }

  lemma Longer(text: seq<byte>, bytes: seq<byte>)
    requires |text| > 4 && |Text(bytes)| == |text|
    ensures |bytes| > 3 && Text(bytes)[..4] == Group(bytes[..3]) && Text(bytes)[4..] == Text(bytes[3..])
    ensures Text(bytes)[2] != PAD && Text(bytes)[3] != PAD
  {
    TextLength(bytes);
  }

  /** Encoding undoes decoding exactly on the canonical texts: decoding also accepts others. */
  lemma {:induction false} EncodeUndoesDecode(text: seq<byte>)
    requires Bytes(text).Some?
    ensures Text(Bytes(text).value) == text <==> Canonical(text)
    decreases |text|
  {
    if |text| == 4 {
      assert text[..4] == text && text[4..] == [] && Bytes(text[4..]) == Some([]);
      UngroupBack(text);
    } else if |text| > 4 {
      var q, rest := text[..4], text[4..];
      var chunk, tail := Ungroup(q).value, Bytes(rest).value;
      EncodeUndoesDecode(rest);
      UngroupBack(q);
      assert Bytes(text).value == chunk + tail && text == q + rest;
      if text[2] != PAD && text[3] != PAD {
        FullGroup(chunk, tail, q, rest);
      } else {
        PaddedEarly(text, chunk + tail);
      }
    }
  }

  /** A text whose first of several groups is padded is written by no encoding. */
  lemma PaddedEarly(text: seq<byte>, bytes: seq<byte>)
    requires |text| > 4 && (text[2] == PAD || text[3] == PAD)
    ensures Text(bytes) != text
  {
    if |Text(bytes)| == |text| {
      Longer(text, bytes);
    }
  }

  /** "Zh==" reads as "f", which is written "Zg==". */
  lemma DecodeAcceptsMore()
    ensures Bytes([90, 104, PAD, PAD]) == Some([102]) && !Canonical([90, 104, PAD, PAD])
    ensures Text([102]) == [90, 103, PAD, PAD]
  {
    var q: seq<byte> := [90, 104, PAD, PAD];
    assert q[..4] == q && q[4..] == [] && Bytes([]) == Some([]);
    assert Packed(25, 33, 0, 0) == 6688768;
    assert Unpacked(6688768)[..1] == [102];
    JoinNothing([102], Ungroup(q));
  }

  lemma FullGroup(chunk: seq<byte>, tail: seq<byte>, q: seq<byte>, rest: seq<byte>)
    requires |chunk| == 3 && Group(chunk) == q && rest != [] && Bytes(rest) == Some(tail)
    ensures Text(chunk + tail) == q + rest <==> Text(tail) == rest
  {
    var all := chunk + tail;
    assert all[..3] == chunk && all[3..] == tail;
    NothingFromSomething(rest);
    assert Text(all) == q + Text(tail);
    assert (q + Text(tail))[4..] == Text(tail) && (q + rest)[4..] == rest;
  }

  lemma NothingFromSomething(rest: seq<byte>)
    requires rest != [] && Bytes(rest).Some?
    ensures Bytes(rest).value != []
  {
  }

  // ---- the loops ----

  method EncodeGroup(chunk: seq<byte>) returns (out: seq<byte>)
    ensures out == Group(chunk)
  {
    out := [];
    for i := 0 to 4
      invariant out == Group(chunk)[..i]
    {
      out := out + [Char(chunk, i)];
    }
  }

  lemma TextStep(bytes: seq<byte>, at: nat, end: nat)
    requires at < |bytes| && end == if at + 3 < |bytes| then at + 3 else |bytes|
    ensures Text(bytes[at..]) == Group(bytes[at..end]) + Text(bytes[end..])
  {
    var rest := bytes[at..];
    assert rest[..end - at] == bytes[at..end] && rest[end - at..] == bytes[end..];
  }

  method Encode(bytes: seq<byte>) returns (out: seq<byte>)
    ensures out == Text(bytes) && |out| == (|bytes| + 2) / 3 * 4
  {
    out := [];
    var at := 0;
    assert bytes[0..] == bytes;
    while at < |bytes|
      invariant at <= |bytes| && out + Text(bytes[at..]) == Text(bytes)
    {
      var end := if at + 3 < |bytes| then at + 3 else |bytes|;
      TextStep(bytes, at, end);
      var group := EncodeGroup(bytes[at..end]);
      out, at := out + group, end;
    }
    TextLength(bytes);
  }

  /** The answer, given what was decoded of the first `at` characters. */
  function Left(text: seq<byte>, at: nat, out: seq<byte>): Option<seq<byte>>
    requires at <= |text|
  {
    Join(Some(out), Bytes(text[at..]))
  }

  lemma LeftStep(text: seq<byte>, at: nat, out: seq<byte>)
    requires at + 4 <= |text|
    ensures Left(text, at, out) ==
            match Ungroup(text[at..at + 4])
            case None => None
            case Some(chunk) => Left(text, at + 4, out + chunk)
  {
    var rest := text[at..];
    assert rest[..4] == text[at..at + 4] && rest[4..] == text[at + 4..];
    var chunk, tail := Ungroup(rest[..4]), Bytes(rest[4..]);
    if chunk.Some? && tail.Some? {
      assert out + (chunk.value + tail.value) == (out + chunk.value) + tail.value;
    }
  }

  lemma LeftEnds(text: seq<byte>, out: seq<byte>)
    ensures Left(text, 0, []) == Bytes(text) && Left(text, |text|, out) == Some(out)
  {
    JoinNothing(out, Bytes(text));
    assert text[0..] == text && text[|text|..] == [];
  }

  lemma JoinNothing(out: seq<byte>, b: Option<seq<byte>>)
    ensures Join(Some([]), b) == b && Join(Some(out), Some([])) == Some(out)
  {
    if b.Some? {
      assert [] + b.value == b.value;
    }
    assert out + [] == out;
  }

  method DecodeGroups(text: seq<byte>, groups: nat) returns (r: Option<seq<byte>>)
    requires |text| == 4 * groups
    ensures r == Bytes(text)
  {
    var out: seq<byte> := [];
    LeftEnds(text, out);
    for k := 0 to groups
      invariant Left(text, 4 * k, out) == Bytes(text)
    {
      LeftStep(text, 4 * k, out);
      var chunk := DecodeGroup(text[4 * k..4 * k + 4]);
      if chunk.None? {
        return None;
      }
      out := out + chunk.value;
    }
    LeftEnds(text, out);
    return Some(out);
  }

  method Decode(text: seq<byte>) returns (r: Option<seq<byte>>)
    ensures r == Bytes(text)
  {
    if |text| % 4 != 0 {
      NotWholeGroups(text);
      return None;
    }
    r := DecodeGroups(text, |text| / 4);
  }

  method DecodeGroup(q: seq<byte>) returns (r: Option<seq<byte>>)
    requires |q| == 4
    ensures r == Ungroup(q)
  {
    var n: nat, bytes: nat := 0, 3;
    for i := 0 to 4
      invariant forall j :: 0 <= j < i ==> Value(q[j], j).Some?
      invariant n == Gathered(q, i) < Capacity(i)
      invariant bytes == if i > 2 && q[2] == PAD then 1 else if i > 3 && q[3] == PAD then 2 else 3
    {
      var value: int := 0;
      if q[i] == PAD && i >= 2 {
        bytes := if i - 1 < bytes then i - 1 else bytes;
      } else {
        var p := Position(q[i]);
        if p.None? {
          assert Value(q[i], i).None?;
          return None;
        }
        value := p.value;
      }
      n := n * 64 + value;
    }
    GatheredIsPacked(q);
    return Some(Unpacked(n)[..bytes]);
  }

  function Capacity(i: nat): nat
    requires i <= 4
  {
    match i case 0 => 1 case 1 => 64 case 2 => 4096 case 3 => 262144 case _ => 16777216
  }

  /** The accumulator after `i` characters. */
  function Gathered(q: seq<byte>, i: nat): nat
    requires |q| == 4 && i <= 4 && forall j :: 0 <= j < i ==> Value(q[j], j).Some?
  {
    if i == 0 then 0 else Gathered(q, i - 1) * 64 + Value(q[i - 1], i - 1).value
  }

  lemma GatheredIsPacked(q: seq<byte>)
    requires |q| == 4 && forall j :: 0 <= j < 4 ==> Value(q[j], j).Some?
    ensures Gathered(q, 4) ==
            Packed(Value(q[0], 0).value, Value(q[1], 1).value, Value(q[2], 2).value, Value(q[3], 3).value)
  {
    assert Gathered(q, 4) == Gathered(q, 3) * 64 + Value(q[3], 3).value;
    assert Gathered(q, 3) == Gathered(q, 2) * 64 + Value(q[2], 2).value;
    assert Gathered(q, 2) == Gathered(q, 1) * 64 + Value(q[1], 1).value;
  }

  lemma {:induction false} NotWholeGroups(text: seq<byte>)
    requires |text| % 4 != 0
    ensures Bytes(text).None?
  {
    if |text| >= 4 {
      NotWholeGroups(text[4..]);
    }
  }

  // ---- against RFC 4648 ----

  /** The standard alphabet, in order; read back, a letter counts from 'A', 'a' or '0'; the last two are '+', '/'. */
  lemma LettersAreStandard(d: Sextet, c: byte)
    ensures d < 26 ==> Letter(d) == 'A' as int + d
    ensures 26 <= d < 52 ==> Letter(d) == 'a' as int + d - 26
    ensures 52 <= d < 62 ==> Letter(d) == '0' as int + d - 52
    ensures Letter(62) == '+' as int && Letter(63) == '/' as int && PAD == '=' as int
    ensures Position(c).Some? <==> 'A' as int <= c <= 'Z' as int || 'a' as int <= c <= 'z' as int
                                   || '0' as int <= c <= '9' as int || c == '+' as int || c == '/' as int
  {
  }

  /** "f", "fo" and "foo" of section 10 of RFC 4648. */
  lemma Vectors()
    ensures Text([102]) == [90, 103, 61, 61] && Text([102, 111]) == [90, 109, 56, 61]
    ensures Text([102, 111, 111]) == [90, 109, 57, 118]
  {
    assert Word([102]) == 0x66_0000 && Word([102, 111]) == 0x66_6F00 && Word([102, 111, 111]) == 0x66_6F6F;
  }

  /** Four digits weigh what three bytes weigh: the encoding is the number in base 64, most significant first. */
  lemma GroupKeepsNumber(a: byte, b: byte, c: byte)
    ensures var q := Group([a, b, c]);
            && Position(q[0]).Some? && Position(q[1]).Some? && Position(q[2]).Some? && Position(q[3]).Some?
            && 0x4_0000 * Position(q[0]).value as int + 0x1000 * Position(q[1]).value as int
               + 0x40 * Position(q[2]).value as int + Position(q[3]).value
               == 0x1_0000 * a as int + 0x100 * b as int + c
  {
    var n := Word([a, b, c]);
    LetterBack(Digit(n, 0), 0);
    LetterBack(Digit(n, 1), 1);
    LetterBack(Digit(n, 2), 2);
    LetterBack(Digit(n, 3), 3);
    DigitsRebuild(n);
  }

  /** One or two bytes are padded with zeroes to three, and the digits that hold only those become padding. */
  lemma ShortGroups(a: byte, b: byte)
    ensures Group([a]) == Group([a, 0, 0])[..2] + [61, 61] && Group([a, b]) == Group([a, b, 0])[..3] + [61]
  {
  }
}
