/**
 The packets of the serial line in plain bytes: hexadecimal as a debugger reads and writes it, the sum of
 the bytes, and what the receiver makes of any two characters after a '#'.
 */
module PacketBytes {
  import opened Bits
  import opened GdbPacket

  /** The value of a hexadecimal digit of either case, or -1. */
  function HexDigit(c: Byte): int {
    if 0x30 <= c <= 0x39 then c - 0x30
    else if 0x41 <= c <= 0x46 then c - 0x41 + 10
    else if 0x61 <= c <= 0x66 then c - 0x61 + 10
    else -1
  }

  function ByteSum(s: seq<Byte>): nat { if s == [] then 0 else s[0] + ByteSum(s[1..]) }

  lemma {:induction false} ByteSumLast(s: seq<Byte>)
    requires s != []
    ensures ByteSum(s) == ByteSum(s[..|s| - 1]) + s[|s| - 1]
  {
    if |s| == 1 {
      assert s[1..] == [] && s[..0] == [];
    } else {
      ByteSumLast(s[1..]);
      assert s[1..][..|s| - 2] == s[..|s| - 1][1..];
    }
  }

  lemma {:induction false} ChecksumIsByteSum(s: seq<Byte>)
    ensures Checksum(s) == ByteSum(s) % 256
  {
    if s == [] {
    } else {
      ChecksumIsByteSum(s[..|s| - 1]);
      ByteSumLast(s);
    }
  }

  lemma AsciiBytes(s: string, i: nat)
    requires i < |s| && s[i] < 256 as char
    ensures |Ascii(s)| == |s| && Ascii(s)[i] == s[i] as int
  {
  }

  // ---------------------------------------------------------------------------------------
  // Sending

  predicate UpperHex(c: Byte) { 0x30 <= c <= 0x39 || 0x41 <= c <= 0x46 }

  /** A frame is '$', the packet, '#', and the sum of its bytes modulo 256 in two upper-case digits. */
  lemma FrameIs(packet: seq<Byte>) returns (c: Byte, d: Byte)
    ensures Frame(packet) == [0x24] + packet + [0x23, c, d]
    ensures UpperHex(c) && UpperHex(d) && 16 * HexDigit(c) + HexDigit(d) == ByteSum(packet) % 256
  {
    ChecksumIsByteSum(packet);
    var sum := Checksum(packet);
    c, d := HexChar(sum / 16), HexChar(sum % 16);
  }

  /** Frames go out up to the first one answered with '+', and ten at most. */
  lemma FrameCountIs(replies: seq<Byte>)
    ensures
      var n := FrameCount(replies);
      && 1 <= n <= 10 && (forall k :: 0 <= k < n - 1 && k < |replies| ==> replies[k] != 0x2B)
      && n - 1 <= |replies|
    ensures
      var n := FrameCount(replies);
      n < 10 && n <= |replies| ==> replies[n - 1] == 0x2B
  {
  }

  // ---------------------------------------------------------------------------------------
  // Receiving

  /** Letters count from 0 instead of 10. */
  function Misread(c: Byte): int { if HexDigit(c) >= 10 then HexDigit(c) - 10 else HexDigit(c) }

  /** The byte two characters are taken for; one that is no digit sets all the bits above it too. */
  function Understood(c: Byte, d: Byte): int {
    if HexDigit(d) < 0 then 255 else if HexDigit(c) < 0 then 240 + Misread(d) else 16 * Misread(c) + Misread(d)
  }

  lemma {:induction false} OrAllOnes(x: nat, k: nat)
    requires x < Pow2(k)
    ensures Or(x, Pow2(k) - 1) == Pow2(k) - 1
  {
    if k == 0 {
    } else {
      OrHalves(x, Pow2(k) - 1);
      OrAllOnes(x / 2, k - 1);
    }
  }

  lemma ValueIs(c: Byte)
    ensures if HexDigit(c) < 0 then HexValue(c) == 0xFFFF_FFFF_FFFF_FFFF else HexValue(c) == Misread(c) < 16
  {
  }

  /** Whatever was read before, a character that is no digit leaves all ones. */
  lemma NoDigitRead(num: Word)
    ensures AppendHex(num, ALL_ONES) == ALL_ONES
  {
    WordPower();
    hide Or, Shl, Pow2;
    OrAllOnes(Shl(num, 4) % WORD_LIMIT, 64);
  }

  lemma DigitAfterOnes(v: Word)
    requires v < 16
    ensures AppendHex(ALL_ONES, v) == 0xFFFF_FFFF_FFFF_FFF0 + v
  {
    ShlIsProduct(ALL_ONES, 4);
    assert Pow2(4) == 16;
    hide Or, Shl, Pow2;
    assert Shl(ALL_ONES, 4) % WORD_LIMIT == 0xFFFF_FFFF_FFFF_FFF0;
    OrDisjoint(0xFFFF_FFFF_FFFF_FFF0, v, 4);
  }

  lemma ReadTwo(c: Byte, d: Byte)
    ensures ReadHex([c, d]) == AppendHex(AppendHex(0, HexValue(c)), HexValue(d))
  {
    assert [c, d][..1] == [c] && [c][..0] == [];
    assert ReadHex([]) == 0;
    hide HexValue, AppendHex;
    assert ReadHex([c]) == AppendHex(0, HexValue(c));
  }

  lemma TrailerRead(c: Byte, d: Byte)
    ensures ReadHex([c, d]) % 256 == Understood(c, d)
  {
    ValueIs(c);
    ValueIs(d);
    ReadTwo(c, d);
    hide ReadHex, AppendHex, HexValue;
    if HexDigit(d) < 0 {
      NoDigitRead(AppendHex(0, HexValue(c)));
    } else if HexDigit(c) < 0 {
      NoDigitRead(0);
      DigitAfterOnes(HexValue(d));
    } else {
      OneDigit(0, HexValue(c));
      OneDigit(HexValue(c), HexValue(d));
    }
  }

  /** The line logged about a character that is no digit. */
  function Line(c: Byte): seq<Byte> {
    if HexDigit(c) < 0 then Ascii("[!] Got invalid char when expecting hex (`") + [c] + Ascii("`)\n") else []
  }

  function Refusal(): seq<Byte> { Ascii("[!] gdb: Got invalid checksum, requesting packet again\n") + [0x2D] }

  lemma LinesLogged(c: Byte, d: Byte)
    ensures Warnings([c, d]) == Line(c) + Line(d) && Warnings([c]) == Line(c) && Warnings([]) == []
  {
    assert [c, d][..1] == [c] && [c][..0] == [];
    ValueIs(c);
    ValueIs(d);
    hide HexValue, HexDigit, Ascii;
    assert Warnings([]) == [];
    assert Warnings([c]) == Warnings([]) + Line(c);
  }

  lemma Located(noise: seq<Byte>, packet: seq<Byte>, after: seq<Byte>)
    requires 0x24 !in noise
    ensures
      var input := noise + [0x24] + packet + after;
      FirstIndex(input, DOLLAR) == |noise| < |input| && input[|noise| + 1..] == packet + after
  {
    var input := noise + [0x24] + packet + after;
    forall k | 0 <= k < |noise|
      ensures input[k] != 0x24
    {
      assert input[k] == noise[k];
    }
    FirstIndexIs(input, DOLLAR, |noise|);
  }

  lemma BodyLocated(packet: seq<Byte>, after: seq<Byte>)
    requires 0x23 !in packet && (after != [] ==> after[0] == 0x23)
    ensures FirstIndex(packet + after, HASH) == |packet| && (packet + after)[..|packet|] == packet
  {
    var input := packet + after;
    forall k | 0 <= k < |packet|
      ensures input[k] != 0x23
    {
      assert input[k] == packet[k];
    }
    FirstIndexIs(input, HASH, |packet|);
  }

  lemma TrailerSplit(packet: seq<Byte>, c: Byte, d: Byte, tail: seq<Byte>)
    ensures
      var after := (packet + [0x23, c, d] + tail)[|packet| + 1..];
      && |after| >= 2 && after[..2] == [c, d] && after[2..] == tail
  {
    var after := (packet + [0x23, c, d] + tail)[|packet| + 1..];
    assert after == [c, d] + tail;
  }

  /**
   Whatever two characters follow its '#', a packet that fits is accepted at once exactly when its bytes sum
   to the byte they are taken for; otherwise the receiver asks again and goes on with what follows.
   */
  lemma TrailerIsAcceptedIff(noise: seq<Byte>, packet: seq<Byte>, c: Byte, d: Byte, tail: seq<Byte>, size: nat)
    requires 0x24 !in noise && 0x23 !in packet && |packet| < size
    ensures
      Receive(noise + [0x24] + packet + [0x23, c, d] + tail, size)
      == if ByteSum(packet) % 256 == Understood(c, d) then Accepted(packet, tail, Line(c) + Line(d) + [0x2B])
         else ReceiveBody(tail, size, Line(c) + Line(d) + Refusal())
  {
    var after := [0x23, c, d] + tail;
    var input := packet + after;
    assert noise + [0x24] + packet + [0x23, c, d] + tail == noise + [0x24] + packet + after;
    assert input == packet + [0x23, c, d] + tail;
    hide *;
    TrailerSplit(packet, c, d, tail);
    Located(noise, packet, after);
    BodyLocated(packet, after);
    ChecksumIsByteSum(packet);
    TrailerRead(c, d);
    LinesLogged(c, d);
    OnceFound(input, size, |packet|);
    BodyStep(input, size, []);
    RepliesAre();
    ReceiveAt(noise + [0x24] + packet + after, size, |noise|);
    NothingBefore(ReceiveOnce(input, size).out);
  }

  lemma ReceiveAt(input: seq<Byte>, size: nat, d: nat)
    requires FirstIndex(input, DOLLAR) == d < |input|
    ensures Receive(input, size) == ReceiveBody(input[d + 1..], size, [])
  {
  }

  lemma RepliesAre()
    ensures Reply(true) == [0x2B] && Reply(false) == Refusal() && HASH == 0x23 && DOLLAR == 0x24
  {
  }

  lemma NothingBefore(s: seq<Byte>)
    ensures [] + s == s
  {
  }

  /**
   A right checksum in hexadecimal of either case: the packet is accepted with '+' exactly when neither digit
   is a letter; otherwise it is refused, with '-' at the end of what is sent.
   */
  lemma HexTrailerIsAcceptedIff(noise: seq<Byte>, packet: seq<Byte>, c: Byte, d: Byte, tail: seq<Byte>, size: nat)
    requires 0x24 !in noise && 0x23 !in packet && |packet| < size
    requires HexDigit(c) >= 0 && HexDigit(d) >= 0 && 16 * HexDigit(c) + HexDigit(d) == ByteSum(packet) % 256
    ensures
      Receive(noise + [0x24] + packet + [0x23, c, d] + tail, size)
      == if c <= 0x39 && d <= 0x39 then Accepted(packet, tail, [0x2B]) else ReceiveBody(tail, size, Refusal())
    ensures Refusal()[|Refusal()| - 1] == 0x2D
  {
    assert Understood(c, d) == ByteSum(packet) % 256 <==> c <= 0x39 && d <= 0x39;
    assert Line(c) + Line(d) == [] && [] + [0x2B] == [0x2B] && [] + Refusal() == Refusal();
    hide ByteSum, Receive, ReceiveBody, Ascii;
    TrailerIsAcceptedIff(noise, packet, c, d, tail, size);
  }

  /** A line that ends before '$', inside a packet that fits, or inside its checksum: the receiver waits. */
  lemma PartialBlocks(noise: seq<Byte>, packet: seq<Byte>, c: Byte, size: nat)
    requires 0x24 !in noise && 0x23 !in packet && |packet| < size
    ensures Receive(noise, size) == Blocked([])
    ensures Receive(noise + [0x24] + packet, size) == Blocked([])
    ensures Receive(noise + [0x24] + packet + [0x23], size) == Blocked([])
    ensures Receive(noise + [0x24] + packet + [0x23, c], size) == Blocked(Line(c))
  {
    FirstIndexIs(noise, DOLLAR, |noise|);
    LinesLogged(c, c);
    EndsIn(noise, packet, [], size);
    EndsIn(noise, packet, [0x23], size);
    EndsIn(noise, packet, [0x23, c], size);
    assert noise + [0x24] + packet + [] == noise + [0x24] + packet;
    assert [0x23][1..] == [] && [0x23, c][1..] == [c];
  }

  lemma EndsIn(noise: seq<Byte>, packet: seq<Byte>, after: seq<Byte>, size: nat)
    requires 0x24 !in noise && 0x23 !in packet && |packet| < size
    requires |after| < 3 && (after != [] ==> after[0] == 0x23)
    ensures
      Receive(noise + [0x24] + packet + after, size)
      == Blocked(if after == [] then [] else Warnings(after[1..]))
  {
    var input := packet + after;
    Located(noise, packet, after);
    BodyLocated(packet, after);
    ReceiveAt(noise + [0x24] + packet + after, size, |noise|);
    BodyStep(input, size, []);
    hide ReceiveBody, Receive, FirstIndex, Warnings, Checksum, ReadHex;
    NothingBefore(ReceiveOnce(input, size).out);
    if after != [] {
      assert input[|packet| + 1..] == after[1..];
    } else {
      assert input == packet;
    }
  }

  /** Once the buffer is full of bytes other than '#', the division by zero follows, whatever comes next. */
  lemma FullBufferFaults(noise: seq<Byte>, body: seq<Byte>, rest: seq<Byte>)
    requires 0x24 !in noise && 0x23 !in body
    ensures Receive(noise + [0x24] + body + rest, |body|) == Faulted(rest, Ascii("[-] Check failed with error "))
  {
    var input := body + rest;
    Located(noise, body, rest);
    ReceiveAt(noise + [0x24] + body + rest, |body|, |noise|);
    BodyStep(input, |body|, []);
    forall k | 0 <= k < |body|
      ensures input[k] != 0x23
    {
      assert input[k] == body[k];
    }
    assert FirstIndex(input, HASH) >= |body|;
    hide ReceiveBody, Receive, FirstIndex, Ascii;
    NothingBefore(ReceiveOnce(input, |body|).out);
    assert input[|body|..] == rest;
  }
}
