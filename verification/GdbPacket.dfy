/**
 Packets of the GDB remote serial protocol over a serial line: the sender with its retries, the
 receiver with its retransmission requests. A line's input is what is still to come; reading past
 its end blocks.
 */
module GdbPacket {
  import opened Bits

  type Byte = b: nat | b < 256

  const DOLLAR: Byte := 0x24
  const HASH: Byte := 0x23
  const PLUS: Byte := 0x2B
  const MINUS: Byte := 0x2D
  const ALL_ONES: Word := 0xFFFF_FFFF_FFFF_FFFF
  const MAX_FRAMES: nat := 10

  /** The digit characters a sender writes. */
  function HexChar(v: nat): Byte
    requires v < 16
  {
    if v < 10 then 0x30 + v else 0x41 + v - 10
  }

  /** str_to_hex: a letter counts from zero, anything else is all ones. */
  function HexValue(c: Byte): Word {
    if 0x30 <= c <= 0x39 then c - 0x30
    else if 0x41 <= c <= 0x46 then c - 0x41
    else if 0x61 <= c <= 0x66 then c - 0x61
    else ALL_ONES
  }

  /** One more digit, shifted in from the right. */
  function AppendHex(num: Word, v: Word): Word { OrWord(Shl(num, 4) % WORD_LIMIT, v) }

  function ReadHex(s: seq<Byte>): Word {
    if s == [] then 0 else AppendHex(ReadHex(s[..|s| - 1]), HexValue(s[|s| - 1]))
  }

  /** A uint8_t sum. */
  function Checksum(s: seq<Byte>): Byte {
    if s == [] then 0 else (Checksum(s[..|s| - 1]) + s[|s| - 1]) % 256
  }

  function Frame(packet: seq<Byte>): seq<Byte> {
    [DOLLAR] + packet + [HASH, HexChar(Checksum(packet) / 16), HexChar(Checksum(packet) % 16)]
  }

  function Repeat(s: seq<Byte>, n: nat): seq<Byte> { if n == 0 then [] else s + Repeat(s, n - 1) }

  /** The index of the first b, or the length if there is none. */
  function FirstIndex(s: seq<Byte>, b: Byte): (i: nat)
    ensures i <= |s| && (forall k :: 0 <= k < i ==> s[k] != b) && (i < |s| ==> s[i] == b)
  {
    if s == [] || s[0] == b then 0 else 1 + FirstIndex(s[1..], b)
  }

  lemma FirstIndexIs(s: seq<Byte>, b: Byte, i: nat)
    requires i <= |s| && (forall k :: 0 <= k < i ==> s[k] != b) && (i < |s| ==> s[i] == b)
    ensures FirstIndex(s, b) == i
  {
  }

  // ---------------------------------------------------------------------------------------
  // Receiving

  function Ascii(s: string): seq<Byte> { seq(|s|, i requires 0 <= i < |s| => s[i] as int % 256) }

  /** The lines the receiver logs; they go out on the same line as its replies. */
  function NotHex(c: Byte): seq<Byte> { Ascii("[!] Got invalid char when expecting hex (`") + [c] + Ascii("`)\n") }

  const BAD_CHECKSUM := Ascii("[!] gdb: Got invalid checksum, requesting packet again\n")

  /** All that is printed of the line about a full buffer: the formatter divides by zero on its error's name. */
  const CHECK_FAILED := Ascii("[-] Check failed with error ")

  function Warnings(digits: seq<Byte>): seq<Byte> {
    if digits == [] then []
    else
      var n := |digits| - 1;
      Warnings(digits[..n]) + if HexValue(digits[n]) == ALL_ONES then NotHex(digits[n]) else []
  }

  /**
   How a receive ends, and what it has sent: the packet and the rest of the input, a division by zero
   while reporting a full buffer, or blocked on input.
   */
  datatype Reception =
    | Accepted(packet: seq<Byte>, rest: seq<Byte>, sent: seq<Byte>)
    | Faulted(rest: seq<Byte>, sent: seq<Byte>)
    | Blocked(sent: seq<Byte>)

  /** The log line and the answer to a checksum. */
  function Reply(good: bool): seq<Byte> { if good then [PLUS] else BAD_CHECKSUM + [MINUS] }

  /** One pass from the label retry, with a buffer of size bytes. */
  datatype Attempt =
    | Good(body: seq<Byte>, left: seq<Byte>, out: seq<Byte>)
    | Bad(left: seq<Byte>, out: seq<Byte>)
    | Full(left: seq<Byte>, out: seq<Byte>)
    | Starved(out: seq<Byte>)

  function ReceiveOnce(input: seq<Byte>, size: nat): (a: Attempt)
    ensures a.Bad? ==> |a.left| < |input|
  {
    var h := FirstIndex(input, HASH);
    if h >= size then if |input| >= size then Full(input[size..], CHECK_FAILED) else Starved([])
    else if h == |input| then Starved([])
    else if h + 3 > |input| then Starved(Warnings(input[h + 1..]))
    else
      var digits, left := input[h + 1..h + 3], input[h + 3..];
      if ReadHex(digits) % 256 == Checksum(input[..h]) then Good(input[..h], left, Warnings(digits) + Reply(true))
      else Bad(left, Warnings(digits) + Reply(false))
  }

  function ReceiveBody(input: seq<Byte>, size: nat, sent: seq<Byte>): Reception
    decreases |input|
  {
    match ReceiveOnce(input, size)
    case Good(body, left, out) => Accepted(body, left, sent + out)
    case Bad(left, out) => ReceiveBody(left, size, sent + out)
    case Full(left, out) => Faulted(left, sent + out)
    case Starved(out) => Blocked(sent + out)
  }

  function Receive(input: seq<Byte>, size: nat): Reception {
    var d := FirstIndex(input, DOLLAR);
    if d == |input| then Blocked([]) else ReceiveBody(input[d + 1..], size, [])
  }

  /** The input is some bytes, the packet, '#', two characters that decode to its sum, and the rest. */
  ghost predicate Framed(input: seq<Byte>, before: seq<Byte>, packet: seq<Byte>, c: Byte, d: Byte, rest: seq<Byte>) {
    input == before + packet + [HASH, c, d] + rest && ReadHex([c, d]) % 256 == Checksum(packet)
  }

  lemma FramedHere(input: seq<Byte>, h: nat)
    requires h + 3 <= |input| && input[h] == HASH && ReadHex(input[h + 1..h + 3]) % 256 == Checksum(input[..h])
    ensures Framed(input, [], input[..h], input[h + 1], input[h + 2], input[h + 3..])
  {
    assert input[h + 1..h + 3] == [input[h + 1], input[h + 2]];
    hide ReadHex, Checksum;
  }

  lemma FramedLater(input: seq<Byte>, n: nat, before: seq<Byte>, packet: seq<Byte>, c: Byte, d: Byte, rest: seq<Byte>)
    requires n <= |input| && Framed(input[n..], before, packet, c, d, rest)
    ensures Framed(input, input[..n] + before, packet, c, d, rest)
  {
    hide ReadHex, Checksum;
    assert input == input[..n] + input[n..];
    assert input[..n] + (before + packet + [HASH, c, d] + rest) == (input[..n] + before) + packet + [HASH, c, d] + rest;
  }

  /**
   An accepted packet fits with a terminator, holds no '#', stood in the input before its checksum, and sums
   to it.
   */
  lemma {:induction false} AcceptedIsChecked(input: seq<Byte>, size: nat, sent: seq<Byte>)
    requires ReceiveBody(input, size, sent).Accepted?
    ensures
      var r := ReceiveBody(input, size, sent);
      |r.packet| < size && HASH !in r.packet && exists before, c, d :: Framed(input, before, r.packet, c, d, r.rest)
    decreases |input|
  {
    hide ReadHex, Checksum, Framed, Warnings, Reply, ReceiveBody, FirstIndex;
    var h, a := FirstIndex(input, HASH), ReceiveOnce(input, size);
    BodyStep(input, size, sent);
    if a.Good? {
      FramedHere(input, h);
    } else {
      AcceptedIsChecked(a.left, size, sent + a.out);
      var r := ReceiveBody(a.left, size, sent + a.out);
      var before, c, d :| Framed(a.left, before, r.packet, c, d, r.rest);
      FramedLater(input, h + 3, before, r.packet, c, d, r.rest);
    }
  }

  // ---------------------------------------------------------------------------------------
  // Frames and what becomes of them

  /** What the two checksum characters of a frame read back as. */
  function Decoded(sum: Byte): nat {
    16 * HexValue(HexChar(sum / 16)) + HexValue(HexChar(sum % 16))
  }

  predicate DecimalNibbles(sum: Byte) { sum / 16 <= 9 && sum % 16 <= 9 }

  lemma TwoDigits(c: Byte, d: Byte)
    requires HexValue(c) < 16 && HexValue(d) < 16
    ensures ReadHex([c, d]) == 16 * HexValue(c) + HexValue(d)
  {
    assert [c, d][..1] == [c] && [c][..0] == [];
    assert ReadHex([]) == 0;
    hide HexValue, AppendHex;
    assert ReadHex([c]) == AppendHex(0, HexValue(c));
    OneDigit(0, HexValue(c));
    OneDigit(HexValue(c), HexValue(d));
  }

  lemma OneDigit(num: Word, v: Word)
    requires num < 16 && v < 16
    ensures AppendHex(num, v) == 16 * num + v
  {
    ShlIsProduct(num, 4);
    assert Pow2(4) == 16;
    hide Shl, Pow2, Or;
    assert Shl(num, 4) % WORD_LIMIT == 16 * num;
    OrDisjoint(16 * num, v, 4);
  }

  lemma DecodedFrame(sum: Byte)
    ensures ReadHex([HexChar(sum / 16), HexChar(sum % 16)]) == Decoded(sum) < 256
    ensures Decoded(sum) == sum <==> DecimalNibbles(sum)
    ensures Decoded(sum) != (sum + DOLLAR) % 256
  {
    TwoDigits(HexChar(sum / 16), HexChar(sum % 16));
  }

  /** The bytes after a frame's packet. */
  function Trailer(packet: seq<Byte>): seq<Byte> {
    [HASH, HexChar(Checksum(packet) / 16), HexChar(Checksum(packet) % 16)]
  }

  lemma TrailerParts(body: seq<Byte>, packet: seq<Byte>, tail: seq<Byte>)
    ensures
      var input, h := body + Trailer(packet) + tail, |body|;
      && h + 3 <= |input| && input[h] == HASH && input[..h] == body && input[h + 3..] == tail
      && input[h + 1..h + 3] == [HexChar(Checksum(packet) / 16), HexChar(Checksum(packet) % 16)]
      && forall k :: 0 <= k < h ==> input[k] == body[k]
  {
    hide Checksum, HexChar;
  }

  /** A frame's own digits are hexadecimal, so no warning is about them. */
  lemma NoWarnings(c: Byte, d: Byte)
    requires HexValue(c) < 16 && HexValue(d) < 16
    ensures Warnings([c, d]) == []
  {
    assert [c, d][..1] == [c] && [c][..0] == [];
    assert Warnings([]) == [];
    assert Warnings([c]) == [];
  }

  lemma BodyEnds(input: seq<Byte>, size: nat, sent: seq<Byte>, h: nat)
    requires FirstIndex(input, HASH) == h < size && h + 3 <= |input| && Warnings(input[h + 1..h + 3]) == []
    ensures
      ReceiveBody(input, size, sent)
      == if ReadHex(input[h + 1..h + 3]) % 256 == Checksum(input[..h])
         then Accepted(input[..h], input[h + 3..], sent + [PLUS])
         else ReceiveBody(input[h + 3..], size, sent + Reply(false))
  {
    hide Warnings, Checksum, ReadHex, FirstIndex;
    assert [] + Reply(true) == Reply(true) == [PLUS];
    assert [] + Reply(false) == Reply(false);
  }

  /** A received body that is followed by the trailer of a packet. */
  lemma BodyBeforeTrailer(body: seq<Byte>, packet: seq<Byte>, tail: seq<Byte>, size: nat, sent: seq<Byte>)
    requires HASH !in body && |body| < size
    ensures
      ReceiveBody(body + Trailer(packet) + tail, size, sent)
      == if Decoded(Checksum(packet)) == Checksum(body) then Accepted(body, tail, sent + [PLUS])
         else ReceiveBody(tail, size, sent + Reply(false))
  {
    hide *;
    var input, h := body + Trailer(packet) + tail, |body|;
    TrailerParts(body, packet, tail);
    assert forall k :: 0 <= k < h ==> body[k] in body;
    FirstIndexIs(input, HASH, h);
    DecodedFrame(Checksum(packet));
    HexDigits(Checksum(packet));
    NoWarnings(HexChar(Checksum(packet) / 16), HexChar(Checksum(packet) % 16));
    BodyEnds(input, size, sent, h);
  }

  lemma HexDigits(sum: Byte)
    ensures HexValue(HexChar(sum / 16)) < 16 && HexValue(HexChar(sum % 16)) < 16
  {
  }

  lemma FrameParts(noise: seq<Byte>, packet: seq<Byte>, tail: seq<Byte>)
    ensures
      var input, d := noise + Frame(packet) + tail, |noise|;
      && d < |input| && input[d] == DOLLAR && (forall k :: 0 <= k < d ==> input[k] == noise[k])
      && input[d + 1..] == packet + Trailer(packet) + tail
      && input[d..] == [DOLLAR] + packet + Trailer(packet) + tail
  {
    hide Checksum, HexChar;
  }

  /**
   A frame after noise without '$' is accepted at once, with its packet, exactly when neither
   checksum digit is a letter; otherwise the receiver asks again, whatever follows.
   */
  lemma FrameIsAcceptedIff(noise: seq<Byte>, packet: seq<Byte>, tail: seq<Byte>, size: nat)
    requires DOLLAR !in noise && HASH !in packet && |packet| < size
    ensures
      Receive(noise + Frame(packet) + tail, size)
      == if DecimalNibbles(Checksum(packet)) then Accepted(packet, tail, [PLUS])
         else ReceiveBody(tail, size, Reply(false))
  {
    hide FirstIndex, Checksum, Decoded, DecimalNibbles, HexChar, ReceiveBody, Frame, Trailer;
    var input, d := noise + Frame(packet) + tail, |noise|;
    FrameParts(noise, packet, tail);
    assert forall k :: 0 <= k < d ==> noise[k] in noise;
    FirstIndexIs(input, DOLLAR, d);
    DecodedFrame(Checksum(packet));
    BodyBeforeTrailer(packet, packet, tail, size, []);
    assert [] + [PLUS] == [PLUS] && [] + Reply(false) == Reply(false);
  }

  lemma {:induction false} DollarSum(packet: seq<Byte>)
    ensures Checksum([DOLLAR] + packet) == (Checksum(packet) + DOLLAR) % 256
  {
    var s := [DOLLAR] + packet;
    if packet == [] {
      assert s[..0] == [];
      assert Checksum([]) == 0;
    } else {
      var p, b := packet[..|packet| - 1], packet[|packet| - 1];
      DollarSum(p);
      assert s[..|s| - 1] == [DOLLAR] + p && s[|s| - 1] == b;
      AddSwaps(Checksum(p), DOLLAR, b);
    }
  }

  lemma AddSwaps(a: nat, b: nat, c: nat)
    ensures ((a + b) % 256 + c) % 256 == ((a + c) % 256 + b) % 256
  {
  }

  /** The frames of some packets, one after the other. */
  function Frames(packets: seq<seq<Byte>>): seq<Byte> {
    if packets == [] then [] else Frame(packets[0]) + Frames(packets[1..])
  }

  lemma FirstFrame(packets: seq<seq<Byte>>)
    requires packets != []
    ensures Frames(packets) == [DOLLAR] + packets[0] + Trailer(packets[0]) + Frames(packets[1..])
  {
    FrameParts([], packets[0], Frames(packets[1..]));
    assert [] + Frame(packets[0]) + Frames(packets[1..]) == Frames(packets);
  }

  lemma TooLong(body: seq<Byte>, packet: seq<Byte>, tail: seq<Byte>, size: nat, sent: seq<Byte>)
    requires HASH !in body && |body| >= size
    ensures
      var r := ReceiveBody(body + Trailer(packet) + tail, size, sent);
      r.Faulted? && r.sent == sent + CHECK_FAILED
  {
    TrailerParts(body, packet, tail);
    assert forall k :: 0 <= k < |body| ==> body[k] in body;
    FirstIndexIs(body + Trailer(packet) + tail, HASH, |body|);
  }

  /** A packet that does not fit is not refused: reporting it divides by zero, and no reply is sent. */
  lemma TooLongPacketFaults(noise: seq<Byte>, packet: seq<Byte>, tail: seq<Byte>, size: nat)
    requires DOLLAR !in noise && HASH !in packet && |packet| >= size
    ensures
      var r := Receive(noise + Frame(packet) + tail, size);
      r.Faulted? && r.sent == CHECK_FAILED
  {
    hide FirstIndex, Checksum, HexChar, ReceiveBody, Frame, Trailer;
    var input, d := noise + Frame(packet) + tail, |noise|;
    FrameParts(noise, packet, tail);
    assert forall k :: 0 <= k < d ==> noise[k] in noise;
    FirstIndexIs(input, DOLLAR, d);
    TooLong(packet, packet, tail, size, []);
    assert [] + CHECK_FAILED == CHECK_FAILED;
  }

  lemma NothingArrives(size: nat, sent: seq<Byte>)
    ensures !ReceiveBody([], size, sent).Accepted?
  {
  }

  lemma LaterFrameFails(packet: seq<Byte>, tail: seq<Byte>, size: nat, sent: seq<Byte>)
    requires HASH !in packet
    ensures
      var r := ReceiveBody([DOLLAR] + packet + Trailer(packet) + tail, size, sent);
      if |packet| + 1 < size then r == ReceiveBody(tail, size, sent + Reply(false)) else r.Faulted?
  {
    var body := [DOLLAR] + packet;
    assert HASH !in body && |body| == |packet| + 1;
    hide *;
    if |body| < size {
      DollarSum(packet);
      DecodedFrame(Checksum(packet));
      BodyBeforeTrailer(body, packet, tail, size, sent);
    } else {
      TooLong(body, packet, tail, size, sent);
    }
  }

  /**
   At retry the '$' of a frame is taken for part of the packet, and no sum comes out right: after a
   refusal no sequence of frames, of the same packet or of others, is ever accepted.
   */
  lemma {:induction false} LaterFramesFail(packets: seq<seq<Byte>>, size: nat, sent: seq<Byte>)
    requires forall p :: p in packets ==> HASH !in p
    ensures !ReceiveBody(Frames(packets), size, sent).Accepted?
    decreases |packets|
  {
    if packets == [] {
      NothingArrives(size, sent);
    } else {
      hide *;
      FirstFrame(packets);
      assert packets[0] in packets;
      LaterFrameFails(packets[0], Frames(packets[1..]), size, sent);
      LaterFramesFail(packets[1..], size, sent + Reply(false));
    }
  }

  /**
   After noise without '$', a packet gets through exactly when its checksum has no letters, however
   often the sender repeats it and whatever frames it sends after it.
   */
  lemma DeliveredIff(noise: seq<Byte>, packet: seq<Byte>, later: seq<seq<Byte>>, size: nat)
    requires DOLLAR !in noise && HASH !in packet && |packet| < size && forall p :: p in later ==> HASH !in p
    ensures
      var r := Receive(noise + Frames([packet] + later), size);
      r.Accepted? <==> DecimalNibbles(Checksum(packet))
    ensures
      var r := Receive(noise + Frames([packet] + later), size);
      r.Accepted? ==> r.packet == packet && r.rest == Frames(later) && r.sent == [PLUS]
  {
    assert ([packet] + later)[1..] == later;
    assert noise + Frames([packet] + later) == noise + Frame(packet) + Frames(later);
    hide Receive, ReceiveBody, Frame, Frames, DecimalNibbles, Checksum;
    FrameIsAcceptedIff(noise, packet, Frames(later), size);
    LaterFramesFail(later, size, Reply(false));
  }

  lemma {:induction false} RepeatedFrames(packet: seq<Byte>, n: nat)
    ensures Repeat(Frame(packet), n) == Frames(seq(n, i => packet))
  {
    if n == 0 {
    } else {
      RepeatedFrames(packet, n - 1);
      assert seq(n, i => packet)[1..] == seq(n - 1, i => packet);
    }
  }

  /** The packet OK, of sum 0x9A, is lost however often the sender sends its frame. */
  lemma OkIsLost(n: nat, size: nat)
    requires size > 2
    ensures !Receive(Repeat(Frame(Ascii("OK")), n), size).Accepted?
  {
    var packet := Ascii("OK");
    assert packet == [0x4F, 0x4B];
    assert packet[..1] == [0x4F] && packet[..1][..0] == [];
    assert Checksum([]) == 0 && Checksum(packet[..1]) == 0x4F && Checksum(packet) == 0x9A;
    RepeatedFrames(packet, n);
    hide Receive, Checksum, Frame, Frames, Repeat, Ascii;
    if n > 0 {
      var later := seq(n - 1, i => packet);
      assert seq(n, i => packet) == [packet] + later;
      DeliveredIff([], packet, later, size);
      assert [] + Frames([packet] + later) == Frames([packet] + later);
    } else {
      NoFrames(packet, size);
    }
  }

  lemma NoFrames(packet: seq<Byte>, size: nat)
    ensures !Receive(Repeat(Frame(packet), 0), size).Accepted?
  {
    assert Repeat(Frame(packet), 0) == [];
  }

  // ---------------------------------------------------------------------------------------
  // The line, and the code that uses it

  class SerialLine {
    var input: seq<Byte>
    var output: seq<Byte>

    method Print(text: seq<Byte>)
      modifies this`output
      ensures output == old(output) + text
    {
      output := output + text;
    }

    method Putc(c: Byte)
      modifies this`output
      ensures output == old(output) + [c]
    {
      output := output + [c];
    }

    /** ready is false when serial_getc would wait for ever. */
    method Getc() returns (ready: bool, c: Byte)
      modifies this`input
      ensures ready == (old(input) != [])
      ensures if ready then c == old(input)[0] && input == old(input)[1..] else input == []
    {
      ready, c := input != [], 0;
      if ready {
        c := input[0];
        input := input[1..];
      }
    }
  }

  lemma {:induction false} RepeatOnce(s: seq<Byte>, n: nat)
    ensures Repeat(s, n) + s == Repeat(s, n + 1)
  {
    if n == 0 {
      assert s + Repeat(s, 0) == s == [] + s;
    } else {
      RepeatOnce(s, n - 1);
      assert s + Repeat(s, n - 1) + s == s + (Repeat(s, n - 1) + s);
    }
  }

  lemma NoRepeat(s: seq<Byte>)
    ensures Repeat(s, 0) == []
  {
  }

  method PutFrame(line: SerialLine, packet: seq<Byte>, checksum: Byte)
    requires checksum == Checksum(packet)
    modifies line`output
    ensures line.output == old(line.output) + Frame(packet)
  {
    line.Putc(DOLLAR);
    var i := 0;
    while i < |packet|
      invariant i <= |packet| && line.output == old(line.output) + ([DOLLAR] + packet[..i])
    {
      line.Putc(packet[i]);
      i := i + 1;
    }
    assert packet[..i] == packet;
    line.Putc(HASH);
    line.Putc(HexChar(checksum / 16));
    line.Putc(HexChar(checksum % 16));
  }

  /** The frames gdb_send_packet sends for these replies: one each, up to the first '+', at most ten. */
  function FrameCount(replies: seq<Byte>): nat {
    if FirstIndex(replies, PLUS) < MAX_FRAMES then FirstIndex(replies, PLUS) + 1 else MAX_FRAMES
  }

  method SendPacket(line: SerialLine, packet: seq<Byte>) returns (done: bool)
    modifies line
    ensures
      var n := FrameCount(old(line.input));
      && n <= MAX_FRAMES && line.output == old(line.output) + Repeat(Frame(packet), n)
      && done == (n <= |old(line.input)|)
      && line.input == if done then old(line.input)[n..] else []
  {
    var checksum: Byte := 0;
    var i := 0;
    while i < |packet|
      invariant i <= |packet| && checksum == Checksum(packet[..i])
    {
      checksum := (checksum + packet[i]) % 256;
      i := i + 1;
      assert packet[..i][..i - 1] == packet[..i - 1];
    }
    assert packet[..i] == packet;
    hide Frame, Checksum, Repeat, HexChar;
    assert Repeat(Frame(packet), 0) == [] by { NoRepeat(Frame(packet)); }
    var retries: Byte := 10;
    ghost var replies, n := line.input, 0;
    while retries != 0
      invariant n == 10 - retries <= |replies| && line.input == replies[n..]
      invariant forall k :: 0 <= k < n ==> replies[k] != PLUS
      invariant line.output == old(line.output) + Repeat(Frame(packet), n)
      decreases retries
    {
      retries := retries - 1;
      PutFrame(line, packet, checksum);
      RepeatOnce(Frame(packet), n);
      n := n + 1;
      var ready, c := line.Getc();
      if !ready {
        FirstIndexIs(replies, PLUS, n - 1);
        return false;
      }
      if c == PLUS {
        FirstIndexIs(replies, PLUS, n - 1);
        return true;
      }
    }
    done := true;
  }

  datatype Status = Received | DivideError | Waiting

  /** str_to_hex, with its warning. */
  method StrToHex(line: SerialLine, c: Byte) returns (v: Word)
    modifies line`output
    ensures v == HexValue(c) && line.output == old(line.output) + if v == ALL_ONES then NotHex(c) else []
  {
    v := HexValue(c);
    if v == ALL_ONES {
      line.Print(NotHex(c));
    }
  }

  lemma NoDigits(start: seq<Byte>, input: seq<Byte>)
    ensures input[..0] == [] && ReadHex([]) == 0 && start + Warnings([]) == start && input[0..] == input
  {
  }

  lemma NextDigit(start: seq<Byte>, input: seq<Byte>, k: nat, c: Byte)
    requires k < |input| && input[k] == c
    ensures ReadHex(input[..k + 1]) == AppendHex(ReadHex(input[..k]), HexValue(c))
    ensures
      start + Warnings(input[..k + 1])
      == (start + Warnings(input[..k])) + if HexValue(c) == ALL_ONES then NotHex(c) else []
  {
    assert input[..k + 1][..k] == input[..k];
    hide NotHex;
  }

  method SerialReadHex(line: SerialLine, count: nat) returns (ready: bool, num: Word)
    modifies line
    ensures ready == (count <= |old(line.input)|)
    ensures
      var digits := if ready then old(line.input)[..count] else old(line.input);
      && line.input == old(line.input)[|digits|..] && line.output == old(line.output) + Warnings(digits)
      && (ready ==> num == ReadHex(digits))
  {
    hide *;
    ghost var input, start := line.input, line.output;
    num := 0;
    var left: nat := count;
    NoDigits(start, input);
    while left != 0
      invariant left <= count && count - left <= |input| && line.input == input[count - left..]
      invariant num == ReadHex(input[..count - left]) && line.output == start + Warnings(input[..count - left])
    {
      var c, v;
      ready, c := line.Getc();
      if !ready {
        assert input[..count - left] == input;
        return;
      }
      NextDigit(start, input, count - left, c);
      left := left - 1;
      v := StrToHex(line, c);
      num := AppendHex(num, v);
    }
    ready := true;
  }

  /** Skips input up to and with the first '$'. */
  method WaitForDollar(line: SerialLine) returns (ready: bool)
    modifies line`input
    ensures
      var d := FirstIndex(old(line.input), DOLLAR);
      ready == (d < |old(line.input)|) && line.input == if ready then old(line.input)[d + 1..] else []
  {
    ghost var input, n := line.input, 0;
    var c;
    ready, c := line.Getc();
    while ready && c != DOLLAR
      invariant n <= |input| && (forall k :: 0 <= k < n ==> input[k] != DOLLAR)
      invariant ready == (n < |input|) && (ready ==> c == input[n])
      invariant line.input == if ready then input[n + 1..] else []
      decreases |line.input|, ready
    {
      ready, c := line.Getc();
      n := n + 1;
    }
    FirstIndexIs(input, DOLLAR, n);
  }

  /** From retry to the '#'. */
  method ReadBody(line: SerialLine, buf: array<Byte>, size: nat) returns (status: Status, off: nat, sum: Byte)
    requires size <= buf.Length
    modifies line`input, buf
    ensures
      var input := old(line.input);
      var h := FirstIndex(input, HASH);
      && buf[size..] == old(buf[size..])
      && match status
         case Received => h < size && h < |input| && off == h && buf[..h] == input[..h]
             && sum == Checksum(input[..h]) && line.input == input[h + 1..]
         case DivideError => size <= h && size <= |input| && line.input == input[size..]
         case Waiting => (h < size || |input| < size) && h == |input| && line.input == []
  {
    ghost var input, after := line.input, buf[size..];
    sum, off := 0, 0;
    while true
      invariant off <= size && off <= |input| && line.input == input[off..] && buf[size..] == after
      invariant (forall k :: 0 <= k < off ==> input[k] != HASH) && buf[..off] == input[..off]
          && sum == Checksum(input[..off])
      decreases size - off
    {
      if off >= size {
        return DivideError, off, sum;
      }
      var ready, c := line.Getc();
      if !ready {
        FirstIndexIs(input, HASH, off);
        return Waiting, off, sum;
      }
      if c == HASH {
        FirstIndexIs(input, HASH, off);
        return Received, off, sum;
      }
      sum := (sum + c) % 256;
      assert input[..off + 1][..off] == input[..off];
      buf[off] := c;
      off := off + 1;
    }
  }

  /** The receive has ended like this, with this input left, these bytes sent, and this in the buffer. */
  ghost predicate Ends(r: Reception, status: Status, input: seq<Byte>, sent: seq<Byte>, buf: seq<Byte>) {
    match r
    case Accepted(packet, rest, out) =>
      && status == Received && input == rest && sent == out
      && |packet| < |buf| && buf[..|packet|] == packet && buf[|packet|] == 0
    case Faulted(rest, out) => status == DivideError && input == rest && sent == out
    case Blocked(out) => status == Waiting && input == [] && sent == out
  }

  /** From the terminator to the reply: two digits against the sum. */
  method CheckSum(line: SerialLine, sum: Byte) returns (ready: bool, good: bool)
    modifies line
    ensures ready == (2 <= |old(line.input)|)
    ensures !ready ==> line.input == [] && line.output == old(line.output) + Warnings(old(line.input))
    ensures ready ==> (good <==> ReadHex(old(line.input)[..2]) % 256 == sum) && line.input == old(line.input)[2..]
    ensures ready ==> line.output == old(line.output) + Warnings(old(line.input)[..2]) + Reply(good)
  {
    hide Warnings, ReadHex, Ascii;
    var num;
    good := false;
    ready, num := SerialReadHex(line, 2);
    if ready {
      good := num % 256 == sum;
      if good {
        line.Putc(PLUS);
      } else {
        line.Print(BAD_CHECKSUM);
        line.Putc(MINUS);
      }
    }
  }

  lemma AfterHash(input: seq<Byte>, h: nat)
    requires h + 3 <= |input|
    ensures input[h + 1..][..2] == input[h + 1..h + 3] && input[h + 1..][2..] == input[h + 3..]
  {
  }

  /** What ReceiveOnce is once the '#' has been found. */
  lemma OnceFound(input: seq<Byte>, size: nat, h: nat)
    requires h == FirstIndex(input, HASH) && h < size && h < |input|
    ensures
      var (a, left, sum) := (ReceiveOnce(input, size), input[h + 1..], Checksum(input[..h]));
      if |left| < 2 then a == Starved(Warnings(left))
      else
        var good := ReadHex(left[..2]) % 256 == sum;
        && a.out == Warnings(left[..2]) + Reply(good)
        && a == if good then Good(input[..h], left[2..], a.out) else Bad(left[2..], a.out)
  {
    hide Warnings, ReadHex, Checksum, Reply, FirstIndex;
    if h + 3 <= |input| {
      AfterHash(input, h);
    }
  }

  /** One pass from retry, with what it sends. */
  method ReadOnce(line: SerialLine, buf: array<Byte>, size: nat) returns (status: Status, good: bool)
    requires size <= buf.Length
    modifies line, buf
    ensures buf[size..] == old(buf[size..])
    ensures line.output == old(line.output) + ReceiveOnce(old(line.input), size).out
    ensures match ReceiveOnce(old(line.input), size)
      case Good(body, left, _) => status == Received && good && line.input == left && |body| < size
          && buf[..|body|] == body && buf[|body|] == 0
      case Bad(left, _) => status == Received && !good && line.input == left
      case Full(left, _) => status == DivideError && line.input == left
      case Starved(_) => status == Waiting && line.input == []
  {
    hide Warnings, ReadHex, Checksum, Ascii;
    ghost var input, after := line.input, buf[size..];
    var off, sum, ready;
    good := false;
    status, off, sum := ReadBody(line, buf, size);
    if status == DivideError {
      line.Print(CHECK_FAILED);
    } else if status == Received {
      hide ReceiveOnce;
      OnceFound(input, size, off);
      buf[off] := 0;
      assert buf[size..] == after;
      ready, good := CheckSum(line, sum);
      if !ready {
        status := Waiting;
      }
    }
  }

  lemma BodyStep(input: seq<Byte>, size: nat, sent: seq<Byte>)
    ensures
      var a := ReceiveOnce(input, size);
      ReceiveBody(input, size, sent)
      == if a.Good? then Accepted(a.body, a.left, sent + a.out)
         else if a.Bad? then ReceiveBody(a.left, size, sent + a.out)
         else if a.Full? then Faulted(a.left, sent + a.out)
         else Blocked(sent + a.out)
    ensures ReceiveOnce(input, size).Bad? ==> |ReceiveOnce(input, size).left| < |input|
  {
  }

  lemma SentSoFar(start: seq<Byte>, sent: seq<Byte>, out: seq<Byte>, output: seq<Byte>)
    requires output == (start + sent) + out
    ensures output == start + (sent + out) && output[|start|..] == sent + out && start <= output
  {
  }

  /** From the label retry to the end. */
  method ReadUntilGood(line: SerialLine, buf: array<Byte>, size: nat) returns (status: Status)
    requires size <= buf.Length
    modifies line, buf
    ensures old(line.output) <= line.output && buf[size..] == old(buf[size..])
    ensures Ends(ReceiveBody(old(line.input), size, []), status, line.input, line.output[|old(line.output)|..], buf[..])
  {
    hide ReceiveBody, ReceiveOnce;
    ghost var all, start, after, sent := ReceiveBody(line.input, size, []), line.output, buf[size..], [];
    var good := false;
    while true
      invariant all == ReceiveBody(line.input, size, sent) && line.output == start + sent && buf[size..] == after
      decreases |line.input|
    {
      ghost var out := ReceiveOnce(line.input, size).out;
      BodyStep(line.input, size, sent);
      status, good := ReadOnce(line, buf, size);
      SentSoFar(start, sent, out, line.output);
      if status != Received || good {
        break;
      }
      sent := sent + out;
    }
  }

  method ReceivePacket(line: SerialLine, buf: array<Byte>, size: nat) returns (status: Status)
    requires size <= buf.Length
    modifies line, buf
    ensures old(line.output) <= line.output && buf[size..] == old(buf[size..])
    ensures Ends(Receive(old(line.input), size), status, line.input, line.output[|old(line.output)|..], buf[..])
  {
    var ready := WaitForDollar(line);
    if ready {
      status := ReadUntilGood(line, buf, size);
    } else {
      status := Waiting;
    }
  }
}
