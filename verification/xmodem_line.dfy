/** src/Xmodem/Xmodem.c, one packet: what Xmodem_get_header makes of the characters that arrive, and what a sender
    must put on the line for it. */
module XmodemLine {
  import opened Crc16

  type Bytes = seq<bv8>

  const SOH: bv8 := 0x01
  const STX: bv8 := 0x02
  const EOT: bv8 := 0x04
  const ACK: bv8 := 0x06
  const NAK: bv8 := 0x15
  const CAN: bv8 := 0x18
  const PAD: bv8 := 0x1A            // XMODEM_EOF, the ^Z that fills up the last block
  const CAN_COUNT := 3

  const ERR_TIMEOUT := -1
  const ERR_EOF := -2
  const ERR_CANCEL := -3
  const ERR_FRAME := -4
  const ERR_CHKSUM := -5
  const ERR_SEQUENCE := -6

  /** One call of Xmodem_getc: a character, or nothing within the timeout. */
  datatype Event = Got(c: bv8) | Silence

  /** What one call of Xmodem_get_header reports. */
  datatype Outcome = Packet(blk: bv8, data: Bytes) | Eof | Timeout | Cancel | Frame | Chksum {
    function Code(): int {
      match this
      case Packet(_, _) => 0
      case Eof => ERR_EOF
      case Timeout => ERR_TIMEOUT
      case Cancel => ERR_CANCEL
      case Frame => ERR_FRAME
      case Chksum => ERR_CHKSUM
    }
  }

  // ---------------------------------------------------------------- reading characters

  /** Xmodem_flush: read until nothing comes. */
  function Flush(input: seq<Event>): seq<Event> {
    if input == [] then [] else if input[0].Silence? then input[1..] else Flush(input[1..])
  }

  /** Up to n characters; fewer when the line falls silent, the silence being used up. */
  function ReadBytes(input: seq<Event>, n: nat): (r: (Bytes, seq<Event>))
    ensures |r.0| <= n && |r.1| <= |input|
  {
    if n == 0 then ([], input)
    else if input == [] then ([], [])
    else if input[0].Silence? then ([], input[1..])
    else var r := ReadBytes(input[1..], n - 1); ([input[0].c] + r.0, r.1)
  }

  datatype Scan = Found(start: bv8) | Stopped(outcome: Outcome)

  /** The search for the first character of a packet.  `cans` and `chars` count the CAN and all characters so far. */
  function ScanHeader(input: seq<Event>, cans: nat, chars: nat): (Scan, seq<Event>) {
    if input == [] then (Stopped(Timeout), [])
    else if input[0].Silence? then (Stopped(Timeout), Flush(input[1..]))
    else
      var c := input[0].c;
      if c == SOH || c == STX then (Found(c), input[1..])
      else if c == CAN && cans + 1 == CAN_COUNT then (Stopped(Cancel), input[1..])
      else if c == EOT && chars == 0 then (Stopped(Eof), input[1..])
      else ScanHeader(input[1..], if c == CAN then cans + 1 else cans, chars + 1)
  }

  function Size(start: bv8): nat {
    if start == SOH then 128 else 1024
  }

  function Sum(data: Bytes): bv8 {
    if data == [] then 0 else Sum(data[..|data| - 1]) + data[|data| - 1]
  }

  /** The check bytes that belong to a block: CRC-16 high byte first, or one byte of sum. */
  function CheckBytes(data: Bytes, crcMode: bool): (r: Bytes)
    ensures |r| == if crcMode then 2 else 1
  {
    if crcMode then [High(Ccitt(0, data)), Low(Ccitt(0, data))] else [Sum(data)]
  }

  /** Everything after the first character of a packet. */
  function ReadBody(input: seq<Event>, start: bv8, crcMode: bool): (Outcome, seq<Event>) {
    var h := ReadBytes(input, 2);
    if |h.0| < 2 then (Chksum, h.1)
    else
      var d := ReadBytes(h.1, Size(start));
      if |d.0| < Size(start) then (Timeout, d.1)
      else
        var k := ReadBytes(d.1, if crcMode then 2 else 1);
        if |k.0| < if crcMode then 2 else 1 then (Timeout, k.1)
        else if h.0[0] ^ h.0[1] != 0xff then (Frame, Flush(k.1))
        else if k.0 != CheckBytes(d.0, crcMode) then (Chksum, k.1)
        else (Packet(h.0[0], d.0), k.1)
  }

  /** One call of Xmodem_get_header on the characters to come. */
  function Attempt(input: seq<Event>, crcMode: bool): (Outcome, seq<Event>) {
    var s := ScanHeader(input, 0, 0);
    match s.0
    case Found(start) => ReadBody(s.1, start, crcMode)
    case Stopped(o) => (o, s.1)
  }

  /** n calls, one after the other: what they report, and what they leave on the line. */
  function Attempts(input: seq<Event>, n: nat, crcMode: bool): (r: (seq<Outcome>, seq<Event>))
    ensures |r.0| == n
  {
    if n == 0 then ([], input)
    else
      var before := Attempts(input, n - 1, crcMode);
      var a := Attempt(before.1, crcMode);
      (before.0 + [a.0], a.1)
  }

  lemma OneMore(input: seq<Event>, log: seq<Outcome>, rest: seq<Event>, crcMode: bool)
    requires Attempts(input, |log|, crcMode) == (log, rest)
    ensures var a := Attempt(rest, crcMode); Attempts(input, |log| + 1, crcMode) == (log + [a.0], a.1)
  {
    hide Attempt;
  }

  // ---------------------------------------------------------------- what a sender puts on the line

  function Line(bytes: Bytes): (r: seq<Event>)
    ensures |r| == |bytes|
  {
    if bytes == [] then [] else [Got(bytes[0])] + Line(bytes[1..])
  }

  predicate IsBlock(data: Bytes) { |data| == 128 || |data| == 1024 }

  function StartOf(data: Bytes): bv8 {
    if |data| == 128 then SOH else STX
  }

  /** A packet whose number, complement and check bytes may be anything. */
  function RawPacket(start: bv8, blk: bv8, cblk: bv8, data: Bytes, check: Bytes): Bytes {
    [start] + ([blk, cblk] + (data + check))
  }

  function GoodPacket(blk: bv8, data: Bytes, crcMode: bool): Bytes {
    RawPacket(StartOf(data), blk, blk ^ 0xff, data, CheckBytes(data, crcMode))
  }

  lemma {:induction false} ReadLine(bytes: Bytes, rest: seq<Event>)
    ensures ReadBytes(Line(bytes) + rest, |bytes|) == (bytes, rest)
  {
    if bytes == [] {
      assert Line(bytes) + rest == rest;
    } else {
      var input := Line(bytes) + rest;
      assert input[0] == Got(bytes[0]) && input[1..] == Line(bytes[1..]) + rest;
      assert [bytes[0]] + bytes[1..] == bytes;
      ReadLine(bytes[1..], rest);
    }
  }

  lemma {:induction false} LineConcat(a: Bytes, b: Bytes)
    ensures Line(a + b) == Line(a) + Line(b)
  {
    if a == [] {
      assert a + b == b;
    } else {
      assert (a + b)[1..] == a[1..] + b;
      LineConcat(a[1..], b);
    }
  }

  function Judge(blk: bv8, cblk: bv8, data: Bytes, check: Bytes, crcMode: bool, rest: seq<Event>)
    : (Outcome, seq<Event>)
  {
    if blk ^ cblk != 0xff then (Frame, Flush(rest))
    else if check != CheckBytes(data, crcMode) then (Chksum, rest)
    else (Packet(blk, data), rest)
  }

  lemma BodyJudged(blk: bv8, cblk: bv8, data: Bytes, check: Bytes, crcMode: bool, rest: seq<Event>)
    requires IsBlock(data) && |check| == if crcMode then 2 else 1
    ensures ReadBody(Line([blk, cblk] + (data + check)) + rest, StartOf(data), crcMode) ==
            Judge(blk, cblk, data, check, crcMode, rest)
  {
    hide CheckBytes, Line, ReadBytes, Flush;
    LineConcat([blk, cblk], data + check);
    LineConcat(data, check);
    var r2 := Line(check) + rest;
    var r1 := Line(data) + r2;
    assert Line([blk, cblk] + (data + check)) + rest == Line([blk, cblk]) + r1;
    ReadLine([blk, cblk], r1);
    ReadLine(data, r2);
    ReadLine(check, rest);
  }

  /** A complete packet, followed by anything, is judged by its number bytes first and its check bytes second. */
  lemma PacketJudged(blk: bv8, cblk: bv8, data: Bytes, check: Bytes, crcMode: bool, rest: seq<Event>)
    requires IsBlock(data) && |check| == if crcMode then 2 else 1
    ensures Attempt(Line(RawPacket(StartOf(data), blk, cblk, data, check)) + rest, crcMode) ==
            Judge(blk, cblk, data, check, crcMode, rest)
  {
    hide CheckBytes, ReadBytes, Flush, ReadBody, Judge;
    var start, tail := StartOf(data), [blk, cblk] + (data + check);
    var input := Line(RawPacket(start, blk, cblk, data, check)) + rest;
    assert RawPacket(start, blk, cblk, data, check)[1..] == tail;
    assert input[0] == Got(start) && input[1..] == Line(tail) + rest;
    BodyJudged(blk, cblk, data, check, crcMode, rest);
  }

  lemma ComplementFits(blk: bv8)
    ensures blk ^ (blk ^ 0xff) == 0xff
  {
  }

  /** What a sender frames, the receiver takes out again: number and data, with the line left right behind it. */
  lemma PacketRoundTrip(blk: bv8, data: Bytes, crcMode: bool, rest: seq<Event>)
    requires IsBlock(data)
    ensures Attempt(Line(GoodPacket(blk, data, crcMode)) + rest, crcMode) == (Packet(blk, data), rest)
  {
    hide Ccitt, Sum, High, Low, Attempt, RawPacket;
    ComplementFits(blk);
    PacketJudged(blk, blk ^ 0xff, data, CheckBytes(data, crcMode), crcMode, rest);
  }

  /** In CRC mode, damage confined to two neighbouring data bytes changes the check bytes that belong to the data. */
  lemma BurstChangesCheck(a: Bytes, x0: bv8, x1: bv8, y0: bv8, y1: bv8, c: Bytes)
    requires x0 != y0 || x1 != y1
    ensures CheckBytes(a + [x0, x1] + c, true) != CheckBytes(a + [y0, y1] + c, true)
  {
    hide Ccitt, High, Low;
    CcittDetectsBurst(0, a, x0, x1, y0, y1, c);
    CheckBytesApart(Ccitt(0, a + [x0, x1] + c), Ccitt(0, a + [y0, y1] + c));
  }

  /** In CRC mode, damage confined to two neighbouring data bytes is always reported as a checksum error. */
  lemma DamagedDataFound(blk: bv8, a: Bytes, x0: bv8, x1: bv8, y0: bv8, y1: bv8, c: Bytes, rest: seq<Event>)
    requires IsBlock(a + [x0, x1] + c) && (x0 != y0 || x1 != y1)
    ensures var data := a + [x0, x1] + c; var bad := a + [y0, y1] + c;
      Attempt(Line(RawPacket(StartOf(data), blk, blk ^ 0xff, bad, CheckBytes(data, true))) + rest, true) ==
      (Chksum, rest)
  {
    hide Ccitt, Sum, High, Low, Attempt, RawPacket;
    var data, bad := a + [x0, x1] + c, a + [y0, y1] + c;
    ComplementFits(blk);
    BurstChangesCheck(a, x0, x1, y0, y1, c);
    assert StartOf(data) == StartOf(bad);
    PacketJudged(blk, blk ^ 0xff, bad, CheckBytes(data, true), true, rest);
  }

  lemma CheckBytesApart(c: bv16, d: bv16)
    requires c != d
    ensures [High(c), Low(c)] != [High(d), Low(d)]
  {
    if High(c) == High(d) {
      assert Low(c) != Low(d);
    } else {
      assert [High(c), Low(c)][0] != [High(d), Low(d)][0];
    }
    assert [High(c), Low(c)][1] == Low(c) && [High(d), Low(d)][1] == Low(d);
  }

  /** A block number that does not match its complement is reported before the data is looked at. */
  lemma DamagedNumberFound(blk: bv8, cblk: bv8, data: Bytes, crcMode: bool, rest: seq<Event>)
    requires IsBlock(data) && cblk != blk ^ 0xff
    ensures Attempt(Line(RawPacket(StartOf(data), blk, cblk, data, CheckBytes(data, crcMode))) + rest, crcMode) ==
            (Frame, Flush(rest))
  {
    hide Ccitt, Sum, High, Low, Attempt, RawPacket;
    assert blk ^ cblk != 0xff by { if blk ^ cblk == 0xff { ComplementUnique(blk, cblk); } }
    PacketJudged(blk, cblk, data, CheckBytes(data, crcMode), crcMode, rest);
  }

  lemma ComplementUnique(blk: bv8, cblk: bv8)
    requires blk ^ cblk == 0xff
    ensures cblk == blk ^ 0xff
  {
  }
}
