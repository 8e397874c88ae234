/** src/Xmodem/Xmodem.c: the receiver as code over its XMODEM_T record, proved to follow XmodemLine and
    XmodemProtocol. */
module Xmodem {
  import opened Crc16
  import opened XmodemLine
  import opened XmodemProtocol

  lemma {:induction false} ReadBytesSnoc(input: seq<Event>, n: nat)
    ensures var r := ReadBytes(input, n);
      ReadBytes(input, n + 1) ==
      if |r.0| < n then r
      else if r.1 == [] then (r.0, [])
      else if r.1[0].Silence? then (r.0, r.1[1..])
      else (r.0 + [r.1[0].c], r.1[1..])
  {
    if n == 0 {
      OneByte(input);
      assert ReadBytes(input, 0) == ([], input);
      if input != [] && input[0].Got? { assert [] + [input[0].c] == [input[0].c]; }
    } else if input != [] && input[0].Got? {
      ReadBytesSnoc(input[1..], n - 1);
      var q := ReadBytes(input[1..], n - 1);
      if |q.0| == n - 1 && q.1 != [] && q.1[0].Got? {
        assert [input[0].c] + (q.0 + [q.1[0].c]) == ([input[0].c] + q.0) + [q.1[0].c];
      }
    }
  }

  lemma SumSnoc(data: Bytes, k: nat)
    requires k < |data|
    ensures Sum(data[..k + 1]) == Sum(data[..k]) + data[k]
  {
    assert data[..k + 1][..k] == data[..k];
  }

  class Receiver {
    const pkt: array<bv8>          // unsigned char pkt[1024]
    var bufp: nat                  // where in pkt the unread bytes start
    var len: int
    var blk: bv8
    var cblk: bv8
    var crc1: bv8
    var crc2: bv8
    var nextBlk: bv8
    var crcMode: bool
    var atEof: bool
    var txAck: bool
    var input: seq<Event>          // what the line still has to say
    var sent: Bytes                // what has been sent back
    ghost var origin: Rx           // the state Xmodem_open left
    ghost var line: seq<Event>     // what the line had to say from then on
    ghost var log: seq<Outcome>    // what every later call of Xmodem_get_header reported
    ghost var delivered: Bytes     // what Xmodem_read has handed out
    ghost var before: Bytes        // what had been sent when the transfer was open

    constructor (input: seq<Event>)
      ensures this.input == input && sent == [] && fresh(pkt) && Shaped()
    {
      pkt := new bv8[1024];
      bufp, len, blk, cblk, crc1, crc2, nextBlk := 0, 0, 0, 0, 0, 0, 0;
      crcMode, atEof, txAck := false, false, false;
      this.input, sent := input, [];
      origin, line, log, delivered, before := Opened(0, []), input, [], [], [];
    }

    ghost predicate Shaped()
      reads this
    {
      pkt.Length == 1024
    }

    ghost function State(): Rx
      reads this
    {
      RxAfter(origin, log, crcMode)
    }

    /** The log is what the line has said so far, attempt by attempt, and the rest of the line is still to come. */
    ghost predicate Heard()
      reads this
    {
      Attempts(line, |log|, crcMode) == (log, input)
    }

    /** Between two calls of Xmodem_read the record says what the protocol state says. */
    ghost predicate Valid()
      reads this, pkt
    {
      var rx := State();
      && Shaped() && Heard()
      && (rx.status.Running? ==>
            && !atEof && 0 <= len && bufp + len <= 1024 && rx.left == READ_RETRIES
            && nextBlk == rx.next && txAck == rx.txAck && rx.stream == delivered + pkt[bufp..bufp + len])
      && (!rx.status.Running? ==> rx.stream == delivered)
      && (rx.status.Ended? <==> atEof)
      && sent == before + rx.sent
    }

    /** Xmodem_getc */
    method Getc() returns (ok: bool, c: bv8)
      modifies this`input
      ensures ok <==> old(input) != [] && old(input)[0].Got?
      ensures ok ==> c == old(input)[0].c
      ensures input == if old(input) == [] then [] else old(input)[1..]
    {
      c := 0;
      if input == [] {
        return false, c;
      }
      var e := input[0];
      input := input[1..];
      if e.Silence? {
        return false, c;
      }
      return true, e.c;
    }

    /** Xmodem_flush */
    method FlushInput()
      modifies this`input
      ensures input == Flush(old(input))
    {
      var ok := true;
      while ok
        invariant ok ==> Flush(input) == Flush(old(input))
        invariant !ok ==> input == Flush(old(input))
        decreases ok, |input|
      {
        var c;
        ok, c := Getc();
      }
    }

    /** The first loop of Xmodem_get_header. */
    method FindHeader() returns (r: Scan)
      modifies this`input, this`sent
      ensures (r, input) == ScanHeader(old(input), 0, 0)
      ensures r.Stopped? ==> !r.outcome.Packet?
      ensures sent == old(sent) + if r == Stopped(Eof) then [ACK] else []
    {
      var cans, chars := 0, 0;
      while true
        invariant ScanHeader(input, cans, chars) == ScanHeader(old(input), 0, 0)
        invariant sent == old(sent)
        decreases |input|
      {
        var ok, c := Getc();
        if ok {
          chars := chars + 1;
          if c == SOH || c == STX {
            return Found(c);
          } else if c == CAN {
            cans := cans + 1;
            if cans == CAN_COUNT {
              return Stopped(Cancel);
            }
          } else if c == EOT && chars == 1 {
            sent := sent + [ACK];
            return Stopped(Eof);
          }
        } else {
          FlushInput();
          return Stopped(Timeout);
        }
      }
    }

    /** The data loop of Xmodem_get_header: fills pkt[0..len]. */
    method ReadData() returns (ok: bool)
      requires Shaped() && 0 <= len <= 1024
      modifies this`input, pkt
      ensures var r := ReadBytes(old(input), len);
        input == r.1 && (ok <==> |r.0| == len) && (ok ==> pkt[..len] == r.0)
    {
      ghost var start := input;
      var i := 0;
      while i < len
        invariant 0 <= i <= len
        invariant ReadBytes(start, i) == (pkt[..i], input)
      {
        ReadBytesSnoc(start, i);
        ghost var head := pkt[..i];
        var got, c := Getc();
        if !got {
          ShortStaysShort(start, i + 1, len);
          return false;
        }
        pkt[i] := c;
        assert pkt[..i + 1] == head + [c];
        i := i + 1;
      }
      return true;
    }

    /** The checksum loop, for senders that do not speak CRC. */
    method SumOfPacket() returns (s: bv8)
      requires Shaped() && 0 <= len <= 1024
      ensures s == Sum(pkt[..len])
    {
      s := 0;
      var i := 0;
      while i < len
        invariant 0 <= i <= len
        invariant s == Sum(pkt[..i])
      {
        SumSnoc(pkt[..len], i);
        assert pkt[..len][..i + 1] == pkt[..i + 1] && pkt[..len][..i] == pkt[..i];
        s := s + pkt[i];
        i := i + 1;
      }
    }

    /** Block number and complement. */
    method ReadNumbers() returns (ok: bool)
      modifies this`input, this`blk, this`cblk
      ensures var r := ReadBytes(old(input), 2); input == r.1 && (ok <==> |r.0| == 2) && (ok ==> r.0 == [blk, cblk])
    {
      TwoBytes(input);
      ok, blk := Getc();
      if ok {
        ok, cblk := Getc();
      }
    }

    /** One check byte, or two in CRC mode. */
    method ReadCheck() returns (ok: bool)
      modifies this`input, this`crc1, this`crc2
      ensures var r := ReadBytes(old(input), if crcMode then 2 else 1);
        && input == r.1 && (ok <==> |r.0| == if crcMode then 2 else 1)
        && (ok ==> r.0 == if crcMode then [crc1, crc2] else [crc1])
    {
      OneByte(input);
      TwoBytes(input);
      ok, crc1 := Getc();
      if ok && crcMode {
        ok, crc2 := Getc();
      }
    }

    /** Everything of Xmodem_get_header after the first character. */
    method ReadPacket(start: bv8) returns (stat: int, ghost o: Outcome)
      requires Shaped()
      modifies this`input, this`blk, this`cblk, this`crc1, this`crc2, this`len, this`bufp, pkt
      ensures (o, input) == ReadBody(old(input), start, crcMode) && stat == o.Code() && !o.Eof?
      ensures o.Packet? ==> blk == o.blk && len == |o.data| && IsBlock(o.data) && bufp == 0 && pkt[..len] == o.data
    {
      hide CheckBytes, Flush, ReadBytes;
      var ok := ReadNumbers();
      if !ok {
        return ERR_CHKSUM, Chksum;
      }
      len := Size(start);
      bufp := 0;
      ok := ReadData();
      if !ok {
        return ERR_TIMEOUT, Timeout;
      }
      ok := ReadCheck();
      if !ok {
        return ERR_TIMEOUT, Timeout;
      }
      if blk ^ cblk != 0xff {
        FlushInput();
        return ERR_FRAME, Frame;
      }
      var good := Check();
      if !good {
        return ERR_CHKSUM, Chksum;
      }
      return 0, Packet(blk, pkt[..len]);
    }

    /** The checksum comparison of Xmodem_get_header. */
    method Check() returns (good: bool)
      requires Shaped() && 0 <= len <= 1024
      ensures good <==> (if crcMode then [crc1, crc2] else [crc1]) == CheckBytes(pkt[..len], crcMode)
    {
      hide Ccitt, Sum, High, Low, Joined;
      if crcMode {
        var cksum := XmodemCrc16(pkt[..len]);
        JoinedBytes(cksum, crc1, crc2);
        good := cksum == Joined(crc1, crc2);
      } else {
        var cksum := SumOfPacket();
        good := crc1 == cksum;
        assert [crc1][0] == crc1;
      }
    }

    /** Xmodem_get_header */
    method GetHeader() returns (stat: int, ghost o: Outcome)
      requires Shaped()
      modifies this`input, this`sent, this`txAck, this`blk, this`cblk, this`crc1, this`crc2, this`len, this`bufp, pkt
      ensures (o, input) == Attempt(old(input), crcMode) && stat == o.Code()
      ensures sent == old(sent) + HeaderSignals(old(txAck), o) && !txAck
      ensures o.Packet? ==> blk == o.blk && len == |o.data| && IsBlock(o.data) && bufp == 0 && pkt[..len] == o.data
    {
      hide ReadBody, ScanHeader;
      if txAck {
        sent := sent + [ACK];
        txAck := false;
      }
      var r := FindHeader();
      match r
      case Found(start) =>
        stat, o := ReadPacket(start);
      case Stopped(out) =>
        stat, o := out.Code(), out;
    }

    /** The end of Xmodem_open. */
    method Begin(ghost o: Outcome)
      requires Shaped() && !atEof && o.Packet? && blk == o.blk && len == |o.data| && IsBlock(o.data) && bufp == 0
          && pkt[..len] == o.data
      modifies this`nextBlk, this`txAck, this`origin, this`line, this`log, this`delivered, this`before
      ensures Valid() && log == [] && delivered == [] && before == sent && origin == Opened(o.blk, o.data)
      ensures input == old(input) && line == input && sent == old(sent) && crcMode == old(crcMode)
    {
      hide RxAfter, Attempts, Opened, IsBlock, State;
      SizeOfBlock(o.data);
      ghost var data := pkt[..len];
      OpenedFields(o.blk, o.data);
      nextBlk := blk + 1;
      txAck := true;
      origin, line, log, delivered, before := Opened(o.blk, o.data), input, [], [], sent;
      NothingYet(origin, line, crcMode);
      assert delivered + pkt[bufp..bufp + len] == data;
      assert before + [] == before;
      assert State() == origin by { StateIs(); }
    }

    lemma StateIs()
      ensures State() == RxAfter(origin, log, crcMode)
    {
    }

    /** The record as Xmodem_open starts with it. */
    method Reset()
      modifies this`bufp, this`len, this`blk, this`cblk, this`crc1, this`crc2, this`nextBlk, this`atEof, this`txAck,
        this`crcMode
      ensures !atEof && !txAck && crcMode
    {
      bufp, len, blk, cblk, crc1, crc2, nextBlk := 0, 0, 0, 0, 0, 0, 0;
      atEof, txAck := false, false;
      crcMode := true;
    }

    /** Ask for the first block; after its share of attempts CRC mode is given up. */
    method AskFirst(crcRetries: int) returns (left: int)
      modifies this`crcMode, this`sent
      ensures left == crcRetries - 1 && crcMode == (old(crcMode) && left > 0)
      ensures sent == old(sent) + [Request(crcMode)]
    {
      left := crcRetries - 1;
      if left <= 0 { crcMode := false; }
      sent := sent + [Request(crcMode)];
    }

    /** Xmodem_open: the first good packet, whatever its number, opens the transfer. */
    method Open() returns (r: int, err: int, ghost first: Outcome)
      requires Shaped()
      modifies this, pkt
      ensures var o := OpenAfter(old(input), MAX_RETRIES, MAX_RETRIES_WITH_CRC, true);
        && first == o.outcome && input == o.rest && sent == old(sent) + o.sent && crcMode == o.crcMode
        && (if o.outcome.Packet? then r == 0 else r == -1 && err == o.outcome.Code() < 0)
      ensures r == 0 ==> Valid() && log == [] && delivered == [] && before == sent && line == input
      ensures r == 0 ==> origin == Opened(first.blk, first.data) && IsBlock(first.data)
    {
      hide Attempt, HeaderSignals, RxStep, Request, OpenAfter, Opened, OpenLeft, Valid, State, RxAfter, Attempts,
          IsBlock;
      first := Timeout;
      err := ERR_TIMEOUT;
      ghost var w, done: Bytes := OpenAfter(input, MAX_RETRIES, MAX_RETRIES_WITH_CRC, true), [];
      OpenBegins(input);
      var retries, crcRetries := MAX_RETRIES, MAX_RETRIES_WITH_CRC;
      Reset();
      while retries > 0
        invariant 0 <= retries <= MAX_RETRIES && Shaped() && !atEof && !txAck && err == ERR_TIMEOUT && first == Timeout
        invariant crcMode ==> crcRetries > 0
        invariant OpenLeft(w, done, input, retries, crcRetries, crcMode) && sent == old(sent) + done
        decreases retries
      {
        OpenStep(w, done, input, retries, crcRetries, crcMode);
        retries := retries - 1;
        var stat;
        stat, first := GetHeader();
        ghost var o := first;
        done := done + HeaderSignals(false, o);
        if stat == 0 {
          Begin(o);
          return 0, 0, o;
        }
        err := stat;
        if stat == ERR_TIMEOUT {
          crcRetries := AskFirst(crcRetries);
          done := done + [Request(crcMode)];
        } else {
          return -1, err, first;
        }
      }
      OpenEnds(w, done, input, crcRetries, crcMode);
      return -1, err, first;
    }

    /** The padding loop of Xmodem_read. */
    method TrimPacket()
      requires Shaped() && 128 <= len <= 1024
      modifies this`len
      ensures 0 <= len <= old(len) && pkt[..len] == Trim(pkt[..old(len)])
    {
      ghost var data := pkt[..len];
      if pkt[len - 1] == PAD && pkt[len - 2] == PAD && pkt[len - 3] == PAD {
        while len > 0 && pkt[len - 1] == PAD
          invariant 0 <= len <= old(len)
          invariant StripPads(pkt[..len]) == StripPads(data)
        {
          assert pkt[..len][..len - 1] == pkt[..len - 1];
          len := len - 1;
        }
      }
    }

    /** In the retry loop: no block is being read out, and `left` attempts remain. */
    ghost predicate Asking(left: int)
      reads this
    {
      var rx := State();
      && Shaped() && Heard() && !atEof && rx.status.Running? && rx.left == left
      && nextBlk == rx.next && txAck == rx.txAck && rx.stream == delivered && sent == before + rx.sent
    }

    /** The record right after a call of Xmodem_get_header in state rx that reported o. */
    ghost predicate Observed(rx: Rx, o: Outcome)
      reads this, pkt
    {
      && Shaped() && !atEof && rx.status.Running? && 1 <= rx.left && nextBlk == rx.next && !txAck
      && rx.stream == delivered && sent == before + rx.sent + HeaderSignals(rx.txAck, o)
      && (o.Packet? ==>
              blk == o.blk && 0 <= len == |o.data| && IsBlock(o.data) && bufp == 0
              && pkt[bufp..bufp + len] == o.data)
    }

    ghost predicate Logs(rx: Rx, o: Outcome)
      reads this
    {
      State() == RxStep(rx, o, crcMode) && Heard()
    }

    /** A call of Xmodem_get_header in the retry loop, entered in the log. */
    method Observe(ghost left: int) returns (stat: int, ghost o: Outcome, ghost rx: Rx)
      requires Asking(left) && 1 <= left
      modifies this, pkt
      ensures rx == old(State()) && rx.left == left && Observed(rx, o) && Logs(rx, o) && stat == o.Code()
      ensures delivered == old(delivered) && origin == old(origin) && crcMode == old(crcMode) && before == old(before)
          && line == old(line)
      ensures |log| == |old(log)| + 1 && log[..|old(log)|] == old(log)
      ensures |input| <= |old(input)| && (o.Packet? ==> |input| < |old(input)|)
    {
      hide Attempt, HeaderSignals, RxStep, Attempts, RxAfter;
      rx := State();
      AttemptShrinks(input, crcMode);
      OneMore(line, log, input, crcMode);
      stat, o := GetHeader();
      log := log + [o];
      Logged(origin, log, o, crcMode);
      if o.Packet? { assert pkt[bufp..bufp + len] == pkt[..len]; }
    }

    /** What the retry loop leaves alone whatever it meets. */
    twostate predicate SameTransfer()
      reads this
    {
      delivered == old(delivered) && origin == old(origin) && crcMode == old(crcMode) && before == old(before)
      && log == old(log) && input == old(input) && line == old(line)
    }

    /** The expected block: acknowledged at the next call of Xmodem_get_header, its padding removed. */
    method TakeBlock(ghost rx: Rx, ghost o: Outcome)
      requires Observed(rx, o) && Logs(rx, o) && o.Packet? && o.blk == rx.next
      modifies this`txAck, this`nextBlk, this`len
      ensures Valid() && SameTransfer() && State().status.Running? && bufp == 0
    {
      hide RxAfter, HeaderSignals, Trim, Request, StartOf;
      txAck := true;
      nextBlk := nextBlk + 1;
      assert pkt[..len] == pkt[bufp..bufp + len];
      TrimPacket();
      assert pkt[bufp..bufp + len] == pkt[..len];
    }

    /** The block before it, once more: acknowledged at once. */
    method ReAck(ghost rx: Rx, ghost o: Outcome)
      requires Observed(rx, o) && Logs(rx, o) && o.Packet? && o.blk != rx.next && o.blk == rx.next - 1
      modifies this`sent
      ensures SameTransfer() && State().status.Running? && bufp == 0
      ensures if rx.left > 1 then Asking(rx.left - 1) else Valid()
    {
      hide RxAfter, HeaderSignals, Trim, Request, StartOf;
      sent := sent + [ACK];
    }

    /** The end of the transmission, or an error that is not worth another try. */
    method Stop(ghost rx: Rx, ghost o: Outcome, stat: int)
      requires Observed(rx, o) && Logs(rx, o) && !o.Packet? && !o.Timeout? && stat == o.Code()
      modifies this`sent, this`atEof
      ensures SameTransfer() && Valid() && State().status == if o.Eof? then Ended else Failed(o.Code())
    {
      hide RxAfter, HeaderSignals, Trim, Request;
      if stat == ERR_EOF {
        sent := sent + [ACK];
        atEof := true;
      }
    }

    /** Anything that calls for another try. */
    method AskAgain(ghost rx: Rx, ghost o: Outcome, ghost code: int)
      requires Observed(rx, o) && Logs(rx, o)
      requires (o.Timeout? && code == ERR_TIMEOUT)
          || (o.Packet? && o.blk != rx.next && o.blk != rx.next - 1 && code == ERR_SEQUENCE)
      modifies this`sent
      ensures SameTransfer()
      ensures if rx.left > 1 then Asking(rx.left - 1) && State().status.Running?
              else Valid() && State().status == Failed(code)
    {
      hide RxAfter, HeaderSignals, Trim, StartOf;
      sent := sent + [Request(crcMode)];
    }

    /** What the retry loop does with the report of an attempt; `out` says that the loop is left with a break. */
    method Handle(stat0: int, ghost rx: Rx, ghost o: Outcome) returns (stat: int, out: bool)
      requires Observed(rx, o) && Logs(rx, o) && stat0 == o.Code()
      modifies this`txAck, this`nextBlk, this`len, this`sent, this`atEof
      ensures SameTransfer()
      ensures if !out && rx.left > 1 then Asking(rx.left - 1) && State().status.Running? else Valid()
      ensures State().status.Running? && (out || rx.left == 1) ==> stat == 0 && bufp == 0 && o.Packet?
      ensures State().status.Ended? ==> stat == ERR_EOF
      ensures State().status.Failed? ==> stat < 0 && State().status.code == stat
    {
      hide RxAfter, RxStep, HeaderSignals, Request, Valid, Asking, Logs;
      stat := stat0;
      if stat == 0 && blk == nextBlk {
        TakeBlock(rx, o);
        return stat, true;
      }
      if stat == 0 && blk == nextBlk - 1 {
        ReAck(rx, o);
        return stat, false;
      }
      if stat != 0 && stat != ERR_TIMEOUT {
        Stop(rx, o, stat);
        return stat, true;
      }
      if stat == 0 {
        stat := ERR_SEQUENCE;
      }
      AskAgain(rx, o, stat);
      return stat, false;
    }

    /** One round of the retry loop of Xmodem_read. */
    method TryOnce(ghost left: int) returns (stat: int, out: bool)
      requires Asking(left) && 1 <= left
      modifies this, pkt
      ensures delivered == old(delivered) && origin == old(origin) && crcMode == old(crcMode) && before == old(before)
          && line == old(line)
      ensures |log| == |old(log)| + 1 && log[..|old(log)|] == old(log)
      ensures if !out && left > 1 then Asking(left - 1) && State().status.Running? else Valid()
      ensures (out || left == 1) && State().status.Running? ==> stat == 0 && bufp == 0 && |input| < |old(input)|
      ensures State().status.Ended? ==> stat == ERR_EOF
      ensures State().status.Failed? ==> stat < 0 && State().status.code == stat
      ensures |input| <= |old(input)|
    {
      hide RxAfter, RxStep, HeaderSignals, Request, Valid, Asking, Logs, State;
      ghost var o, rx;
      stat, o, rx := Observe(left);
      stat, out := Handle(stat, rx, o);
    }

    /** The retry loop of Xmodem_read. */
    method NextBlock() returns (stat: int)
      requires Valid() && State().status.Running? && len == 0
      modifies this, pkt
      ensures Valid() && delivered == old(delivered) && origin == old(origin) && crcMode == old(crcMode)
          && before == old(before) && line == old(line)
      ensures |old(log)| < |log| && log[..|old(log)|] == old(log)
      ensures State().status.Running? ==> stat == 0 && bufp == 0 && |input| < |old(input)|
      ensures State().status.Ended? ==> stat == ERR_EOF
      ensures State().status.Failed? ==> stat < 0 && State().status.code == stat
    {
      hide RxAfter;
      stat := ERR_CANCEL;
      var retries := READ_RETRIES;
      assert pkt[bufp..bufp + len] == [];
      while true
        invariant Asking(retries) && 1 <= retries <= READ_RETRIES
        invariant delivered == old(delivered) && origin == old(origin) && crcMode == old(crcMode)
            && before == old(before) && line == old(line)
        invariant |old(log)| <= |log| && log[..|old(log)|] == old(log) && |input| <= |old(input)|
        decreases retries
      {
        ghost var l0 := log;
        var out;
        stat, out := TryOnce(retries);
        assert log[..|old(log)|] == log[..|l0|][..|old(log)|];
        retries := retries - 1;
        if out || retries == 0 {
          return;
        }
      }
    }

    /** The length that marks a transfer as over. */
    method GiveUp()
      requires Valid() && !State().status.Running?
      modifies this`len
      ensures Valid() && SameTransfer() && len == -1
    {
      len := -1;
    }

    /** The memcpy of Xmodem_read: what is there, but not more than asked for. */
    method CopyOut(size: int) returns (piece: Bytes)
      requires Valid() && State().status.Running? && size > 0
      modifies this`len, this`bufp, this`delivered
      ensures Valid() && delivered == old(delivered) + piece && |piece| <= size && (old(len) > 0 ==> |piece| > 0)
    {
      hide RxAfter;
      var n := if size < len then size else len;
      piece := pkt[bufp..bufp + n];
      assert pkt[bufp..bufp + len] == piece + pkt[bufp + n..bufp + len];
      delivered := delivered + piece;
      len := len - n;
      bufp := bufp + n;
    }

    /** Between two reads: what the caller can see of the protocol state. */
    lemma Visible()
      requires Valid() && !State().status.Failed?
      ensures State().status.Running? <==> !atEof
      ensures State().status.Running? ==> len >= 0
    {
    }

    /** Xmodem_read.  A transfer that has failed must not be read again: its length is -1, which the code would hand to
        memcpy. */
    method Read(size: int) returns (got: Bytes, err: int)
      requires Valid() && !State().status.Failed?
      modifies this, pkt
      ensures Valid() && origin == old(origin) && crcMode == old(crcMode) && before == old(before) && line == old(line)
      ensures delivered == old(delivered) + got && (|got| <= size || got == [])
      ensures |got| < size ==> !State().status.Running?
      ensures |old(log)| <= |log| && log[..|old(log)|] == old(log)
      ensures State().status.Failed? ==> err == State().status.code < 0
      ensures State().status.Running? ==> err == 0
    {
      hide RxAfter, Valid;
      got, err := [], 0;
      Visible();
      var left := size;
      while !atEof && left > 0
        invariant Valid() && origin == old(origin) && crcMode == old(crcMode) && before == old(before)
            && line == old(line)
        invariant !State().status.Failed? && err == 0 && (State().status.Running? <==> !atEof)
        invariant delivered == old(delivered) + got
        invariant |got| + left == size && (got == [] || left >= 0)
        invariant |old(log)| <= |log| && log[..|old(log)|] == old(log)
        decreases |input|, left
      {
        Visible();
        if len == 0 {
          ghost var l0 := log;
          var stat := NextBlock();
          assert log[..|old(log)|] == log[..|l0|][..|old(log)|];
          if stat < 0 {
            err := stat;
            GiveUp();
            return;
          }
        }
        Visible();
        var piece := CopyOut(left);
        got := got + piece;
        left := left - |piece|;
      }
    }

    /** What a reader has at any time between two reads, when the line has met the receiver with a run of the sender: a
        prefix of the file, as long as no duplicate was the last of five attempts; and at the end of the transmission
        the whole file, exactly if none was. */
    lemma DeliveredFromSender(blocks: seq<Bytes>, heard: seq<bool>)
      requires Valid() && blocks != [] && AllBlocks(blocks) && origin == Opened(BlkNo(0), blocks[0])
      requires |heard| == |log| && SenderRun(blocks, 0, origin, log, heard, crcMode)
      ensures State().status != Failed(ERR_SEQUENCE)
      ensures Mistakes(origin, log, crcMode) == 0 ==> delivered <= Expected(blocks, |blocks|)
      ensures atEof ==> (delivered == Expected(blocks, |blocks|) <==> Mistakes(origin, log, crcMode) == 0)
    {
      hide RxAfter, Opened, Mistakes, SenderRun, BlkNo, Expected;
      TransferIsFaithful(blocks, log, heard, crcMode);
      ExpectedGrows(blocks, State().accepted, |blocks|);
      assert delivered <= State().stream;
    }

    /** The same from the characters on the line: when what has come in since the transfer was opened is what the sender
        says, packet by packet, each with any fate that shows, a reader has what DeliveredFromSender promises. */
    lemma DeliveredFromLine(blocks: seq<Bytes>, fates: seq<Fate>, heard: seq<bool>, rest: seq<Event>)
      requires Valid() && crcMode && blocks != [] && AllBlocks(blocks) && origin == Opened(BlkNo(0), blocks[0])
      requires |fates| == |heard| && forall k :: 0 <= k < |fates| ==> Noticed(fates[k])
      requires var w := Spoken(blocks, 0, origin, fates, heard); line == w.0 + rest && |log| <= |w.1|
      ensures log == Spoken(blocks, 0, origin, fates, heard).1[..|log|]
      ensures State().status != Failed(ERR_SEQUENCE)
      ensures Mistakes(origin, log, crcMode) == 0 ==> delivered <= Expected(blocks, |blocks|)
      ensures atEof ==> (delivered == Expected(blocks, |blocks|) <==> Mistakes(origin, log, crcMode) == 0)
    {
      hide RxAfter, Opened, Mistakes, SenderRun, BlkNo, Expected, Attempts, Spoken, AllBlocks;
      var w := Spoken(blocks, 0, origin, fates, heard);
      SpokenIsRun(blocks, 0, origin, fates, heard, rest);
      AttemptsPrefix(line, |w.1|, |log|, true);
      RunPrefix(blocks, 0, origin, w.1, heard[..|w.1|], |log|, true);
      DeliveredFromSender(blocks, heard[..|w.1|][..|log|]);
    }
  }

  lemma {:induction false} ScanShrinks(input: seq<Event>, cans: nat, chars: nat)
    ensures var s := ScanHeader(input, cans, chars); |s.1| <= |input| && (s.0.Found? ==> |s.1| < |input|)
    ensures var s := ScanHeader(input, cans, chars); s.0.Stopped? ==> !s.0.outcome.Packet?
  {
    if input != [] {
      if input[0].Silence? {
        FlushShrinks(input[1..]);
      } else {
        ScanShrinks(input[1..], if input[0].c == CAN then cans + 1 else cans, chars + 1);
      }
    }
  }

  lemma {:induction false} FlushShrinks(input: seq<Event>)
    ensures |Flush(input)| <= |input|
  {
    if input != [] && input[0].Got? { FlushShrinks(input[1..]); }
  }

  /** A packet uses up characters, so a reader that keeps getting packets gets to the end of the line. */
  lemma AttemptShrinks(input: seq<Event>, crcMode: bool)
    ensures var a := Attempt(input, crcMode); |a.1| <= |input| && (a.0.Packet? ==> |a.1| < |input|)
  {
    hide ScanHeader, ReadBytes, Flush, CheckBytes;
    ScanShrinks(input, 0, 0);
    var s := ScanHeader(input, 0, 0);
    if s.0.Found? {
      var h := ReadBytes(s.1, 2);
      var d := ReadBytes(h.1, Size(s.0.start));
      FlushShrinks(ReadBytes(d.1, if crcMode then 2 else 1).1);
    }
  }

  lemma OpenedFields(blk: bv8, data: Bytes)
    ensures var rx := Opened(blk, data);
      && rx.status.Running? && rx.left == READ_RETRIES && rx.next == blk + 1 && rx.txAck
      && rx.stream == data && rx.sent == []
  {
  }

  lemma SizeOfBlock(data: Bytes)
    requires IsBlock(data)
    ensures |data| <= 1024
  {
  }

  lemma NothingYet(origin: Rx, line: seq<Event>, crcMode: bool)
    ensures RxAfter(origin, [], crcMode) == origin && Attempts(line, 0, crcMode) == ([], line)
  {
  }

  /** Appending an outcome to the log is one step of the protocol. */
  lemma Logged(origin: Rx, log: seq<Outcome>, o: Outcome, crcMode: bool)
    requires log != [] && log[|log| - 1] == o
    ensures RxAfter(origin, log, crcMode) == RxStep(RxAfter(origin, log[..|log| - 1], crcMode), o, crcMode)
  {
  }

  lemma OneByte(input: seq<Event>)
    ensures ReadBytes(input, 1) ==
            if input == [] then ([], []) else if input[0].Silence? then ([], input[1..]) else ([input[0].c], input[1..])
  {
    if input != [] && input[0].Got? {
      assert ReadBytes(input[1..], 0) == ([], input[1..]);
      assert [input[0].c] + [] == [input[0].c];
    }
  }

  lemma TwoBytes(input: seq<Event>)
    ensures ReadBytes(input, 2) ==
            if input == [] then ([], [])
            else if input[0].Silence? then ([], input[1..])
            else if input[1..] == [] then ([input[0].c], [])
            else if input[1..][0].Silence? then ([input[0].c], input[1..][1..])
            else ([input[0].c, input[1..][0].c], input[1..][1..])
  {
    OneByte(input);
    ReadBytesSnoc(input, 1);
    if input != [] && input[0].Got? && input[1..] != [] && input[1..][0].Got? {
      assert [input[0].c] + [input[1..][0].c] == [input[0].c, input[1..][0].c];
    }
  }

  /** (crc1 << 8) | crc2 */
  function Joined(hi: bv8, lo: bv8): bv16 {
    ((hi as bv16) << 8) | (lo as bv16)
  }

  lemma SplitJoined(hi: bv8, lo: bv8)
    ensures High(Joined(hi, lo)) == hi && Low(Joined(hi, lo)) == lo
  {
  }

  lemma JoinSplit(c: bv16)
    ensures Joined(High(c), Low(c)) == c
  {
  }

  lemma JoinedBytes(c: bv16, hi: bv8, lo: bv8)
    ensures c == Joined(hi, lo) <==> [hi, lo] == [High(c), Low(c)]
  {
    hide Joined, High, Low;
    assert [hi, lo][0] == hi && [hi, lo][1] == lo && [High(c), Low(c)][0] == High(c) && [High(c), Low(c)][1] == Low(c);
    SplitJoined(hi, lo);
    JoinSplit(c);
  }

  lemma {:induction false} ShortStaysShort(input: seq<Event>, n: nat, m: nat)
    requires n <= m && |ReadBytes(input, n).0| < n
    ensures ReadBytes(input, m) == ReadBytes(input, n)
    decreases m
  {
    if n < m {
      ShortStaysShort(input, n, m - 1);
      ReadBytesSnoc(input, m - 1);
    }
  }
}
