/** The block level of src/Xmodem/Xmodem.c: what Xmodem_read does with the packets that Xmodem_get_header reports, and
    its runs against a stop-and-wait sender over a line that loses and damages packets and acknowledgements. */
module XmodemProtocol {
  import opened XmodemLine

  const READ_RETRIES := 5
  const MAX_RETRIES_WITH_CRC := 30
  const MAX_RETRIES := MAX_RETRIES_WITH_CRC + 20
  const CRC_REQUEST: bv8 := 0x43      // 'C'

  /** The padding rule: a block that ends in three ^Z loses all the ^Z at its end. */
  function Trim(data: Bytes): Bytes {
    if |data| >= 3 && data[|data| - 1] == PAD && data[|data| - 2] == PAD && data[|data| - 3] == PAD
    then StripPads(data) else data
  }

  function StripPads(data: Bytes): Bytes {
    if data == [] || data[|data| - 1] != PAD then data else StripPads(data[..|data| - 1])
  }

  datatype Status = Running | Ended | Failed(code: int)

  /** The receiver between two attempts.  `left` is the number of attempts still allowed for the current block;
      `stream` all bytes handed to the reader since the transfer was opened; `sent` all characters sent back.
      `reAcked` says that the last attempt was answered with an ACK right away, `txAck` that one is owed.
      `accepted` and `repeats` count the blocks taken into the stream and the duplicates taken by mistake. */
  datatype Rx = Rx(next: bv8, left: nat, txAck: bool, reAcked: bool, status: Status, stream: Bytes, sent: Bytes,
                   accepted: nat, repeats: nat)

  /** Xmodem_get_header itself sends the ACK that is owed, and one for an end of transmission. */
  function HeaderSignals(txAck: bool, o: Outcome): Bytes {
    (if txAck then [ACK] else []) + (if o.Eof? then [ACK] else [])
  }

  function Request(crcMode: bool): bv8 { if crcMode then CRC_REQUEST else NAK }

  /** Another attempt is asked for, or the last one has failed with `code`. */
  function Again(rx: Rx, signals: Bytes, code: int, crcMode: bool): Rx {
    var r := rx.(txAck := false, reAcked := false, sent := rx.sent + signals + [Request(crcMode)]);
    if rx.left <= 1 then r.(left := 0, status := Failed(code)) else r.(left := rx.left - 1)
  }

  /** One attempt of the retry loop of Xmodem_read.  A duplicate that uses up the last attempt leaves the loop with a
      success code and is handed to the reader like a new block, untrimmed. */
  function RxStep(rx: Rx, o: Outcome, crcMode: bool): Rx {
    var signals := HeaderSignals(rx.txAck, o);
    match o
    case Packet(blk, data) =>
      if blk == rx.next then
        rx.(next := rx.next + 1, left := READ_RETRIES, txAck := true, reAcked := false,
            stream := rx.stream + Trim(data), sent := rx.sent + signals, accepted := rx.accepted + 1)
      else if blk == rx.next - 1 then
        var r := rx.(txAck := false, reAcked := true, sent := rx.sent + signals + [ACK]);
        if rx.left <= 1 then r.(left := READ_RETRIES, stream := rx.stream + data, repeats := rx.repeats + 1)
        else r.(left := rx.left - 1)
      else Again(rx, signals, ERR_SEQUENCE, crcMode)
    case Eof => rx.(txAck := false, reAcked := false, status := Ended, sent := rx.sent + signals + [ACK])
    case Timeout => Again(rx, signals, ERR_TIMEOUT, crcMode)
    case _ => rx.(txAck := false, reAcked := false, status := Failed(o.Code()), sent := rx.sent + signals)
  }

  function RxAfter(rx: Rx, log: seq<Outcome>, crcMode: bool): Rx {
    if log == [] then rx else RxStep(RxAfter(rx, log[..|log| - 1], crcMode), log[|log| - 1], crcMode)
  }

  /** The state Xmodem_open leaves behind: the first block, whatever its number, is the stream, untrimmed. */
  function Opened(blk: bv8, data: Bytes): Rx {
    Rx(blk + 1, READ_RETRIES, true, false, Running, data, [], 1, 0)
  }

  /** What Xmodem_open comes to: the report of its last attempt, the line after it, what has been sent, the mode it has
      settled on, and how often nothing came. */
  datatype Opening = Opening(outcome: Outcome, rest: seq<Event>, sent: Bytes, crcMode: bool, timeouts: nat)

  /** Xmodem_open with `retries` attempts left, `crcRetries` of them in CRC mode. */
  function OpenAfter(input: seq<Event>, retries: nat, crcRetries: int, crcMode: bool): Opening
    requires retries > 0
    decreases retries
  {
    var a := Attempt(input, crcMode);
    var signals := HeaderSignals(false, a.0);
    if !a.0.Timeout? then Opening(a.0, a.1, signals, crcMode, 0)
    else
      var mode := crcMode && crcRetries - 1 > 0;
      var asked := signals + [Request(mode)];
      if retries == 1 then Opening(a.0, a.1, asked, mode, 1)
      else
        var o := OpenAfter(a.1, retries - 1, crcRetries - 1, mode);
        o.(sent := asked + o.sent, timeouts := o.timeouts + 1)
  }

  /** In the loop of Xmodem_open: what is still to come, after `done` has been sent. */
  predicate OpenLeft(w: Opening, done: Bytes, input: seq<Event>, retries: nat, crcRetries: int, crcMode: bool) {
    if retries == 0 then w.outcome == Timeout && w.rest == input && w.crcMode == crcMode && w.sent == done
    else
      var o := OpenAfter(input, retries, crcRetries, crcMode);
      w.outcome == o.outcome && w.rest == o.rest && w.crcMode == o.crcMode && w.sent == done + o.sent
  }

  lemma OpenStep(w: Opening, done: Bytes, input: seq<Event>, retries: nat, crcRetries: int, crcMode: bool)
    requires retries > 0 && OpenLeft(w, done, input, retries, crcRetries, crcMode)
    ensures var a := Attempt(input, crcMode); var signals := HeaderSignals(false, a.0);
      if a.0.Timeout? then
        var mode := crcMode && crcRetries - 1 > 0;
        OpenLeft(w, done + signals + [Request(mode)], a.1, retries - 1, crcRetries - 1, mode)
      else w.outcome == a.0 && w.rest == a.1 && w.crcMode == crcMode && w.sent == done + signals
  {
    hide Attempt, HeaderSignals, Request;
    var a := Attempt(input, crcMode);
    if a.0.Timeout? {
      var mode := crcMode && crcRetries - 1 > 0;
      var asked := HeaderSignals(false, a.0) + [Request(mode)];
      assert done + HeaderSignals(false, a.0) + [Request(mode)] == done + asked;
      if retries > 1 {
        var o := OpenAfter(a.1, retries - 1, crcRetries - 1, mode);
        assert done + (asked + o.sent) == done + asked + o.sent;
      }
    }
  }

  lemma OpenBegins(input: seq<Event>)
    ensures OpenLeft(OpenAfter(input, MAX_RETRIES, MAX_RETRIES_WITH_CRC, true), [], input,
                     MAX_RETRIES, MAX_RETRIES_WITH_CRC, true)
  {
    hide OpenAfter;
    var w := OpenAfter(input, MAX_RETRIES, MAX_RETRIES_WITH_CRC, true);
    assert [] + w.sent == w.sent;
  }

  lemma OpenEnds(w: Opening, done: Bytes, input: seq<Event>, crcRetries: int, crcMode: bool)
    requires OpenLeft(w, done, input, 0, crcRetries, crcMode)
    ensures w.outcome == Timeout && w.rest == input && w.crcMode == crcMode && w.sent == done
  {
  }

  /** The receiver stays in CRC mode exactly as long as fewer attempts have timed out than it has for that mode, asks
      once for each time-out, and gives up with the first other error or after its last attempt. */
  lemma {:induction false} OpeningAccount(input: seq<Event>, retries: nat, crcRetries: int, crcMode: bool)
    requires retries > 0 && (crcMode ==> crcRetries > 0)
    ensures var o := OpenAfter(input, retries, crcRetries, crcMode);
      && o.timeouts <= retries && (o.outcome.Timeout? <==> o.timeouts == retries)
      && (o.crcMode <==> crcMode && o.timeouts < crcRetries)
      && |o.sent| == o.timeouts + (if o.outcome.Eof? then 1 else 0)
      && forall k :: 0 <= k < o.timeouts ==> o.sent[k] == Request(crcMode && k + 1 < crcRetries)
    decreases retries
  {
    hide Attempt, Request;
    var a := Attempt(input, crcMode);
    if a.0.Timeout? && retries > 1 {
      OpeningAccount(a.1, retries - 1, crcRetries - 1, crcMode && crcRetries - 1 > 0);
    }
  }

  // ---------------------------------------------------------------- the sender and the line

  /** Block i of a transfer is numbered i + 1, modulo 256. */
  function BlkNo(i: nat): bv8 {
    if i == 0 then 1 else BlkNo(i - 1) + 1
  }

  /** What an attempt can meet while the sender offers block s, or the end of transmission after the last block: that,
      nothing, or something damaged.  Damage is recognised (DamagedDataFound, DamagedNumberFound). */
  predicate Possible(blocks: seq<Bytes>, s: nat, o: Outcome) {
    match o
    case Packet(blk, data) => s < |blocks| && blk == BlkNo(s) && data == blocks[s]
    case Eof => s >= |blocks|
    case _ => true
  }

  /** The block the sender offers at the next attempt: it moves on when it hears an acknowledgement. */
  function Offered(rx: Rx, s: nat, heard: bool): nat {
    if (rx.txAck || rx.reAcked) && heard then s + 1 else s
  }

  /** `log` is what the receiver meets in a run that starts with the sender at block s; heard[k] says whether an
      acknowledgement sent before attempt k gets through. */
  predicate SenderRun(blocks: seq<Bytes>, s: nat, rx: Rx, log: seq<Outcome>, heard: seq<bool>, crcMode: bool)
    requires |heard| == |log|
    decreases |log|
  {
    log == [] ||
    (&& rx.status.Running?
     && Possible(blocks, Offered(rx, s, heard[0]), log[0])
     && SenderRun(blocks, Offered(rx, s, heard[0]), RxStep(rx, log[0], crcMode), log[1..], heard[1..], crcMode))
  }

  function Forward(rx: Rx, log: seq<Outcome>, crcMode: bool): Rx
    decreases |log|
  {
    if log == [] then rx else Forward(RxStep(rx, log[0], crcMode), log[1..], crcMode)
  }

  lemma {:induction false} ForwardIsAfter(rx: Rx, log: seq<Outcome>, crcMode: bool)
    ensures Forward(rx, log, crcMode) == RxAfter(rx, log, crcMode)
    decreases |log|
  {
    if log != [] {
      ForwardIsAfter(RxStep(rx, log[0], crcMode), log[1..], crcMode);
      AfterFromFirst(rx, log, crcMode);
    }
  }

  lemma {:induction false} AfterFromFirst(rx: Rx, log: seq<Outcome>, crcMode: bool)
    requires log != []
    ensures RxAfter(rx, log, crcMode) == RxAfter(RxStep(rx, log[0], crcMode), log[1..], crcMode)
    decreases |log|
  {
    hide RxStep;
    var front, last := log[..|log| - 1], log[|log| - 1];
    if |log| == 1 {
      assert front == [] && log[1..] == [];
      assert RxAfter(rx, front, crcMode) == rx;
    } else {
      AfterFromFirst(rx, front, crcMode);
      assert front[1..] == log[1..][..|log[1..]| - 1];
    }
  }

  // ---------------------------------------------------------------- safety

  /** The bytes a reader should have after n blocks: the first as it came, the others with their padding removed. */
  function Expected(blocks: seq<Bytes>, n: nat): Bytes
    requires 1 <= n <= |blocks|
  {
    if n == 1 then blocks[0] else Expected(blocks, n - 1) + Trim(blocks[n - 1])
  }

  lemma {:induction false} ExpectedGrows(blocks: seq<Bytes>, n: nat, m: nat)
    requires 1 <= n <= m <= |blocks|
    ensures Expected(blocks, n) <= Expected(blocks, m)
    decreases m
  {
    if n < m {
      ExpectedGrows(blocks, n, m - 1);
    }
  }

  ghost predicate AllBlocks(blocks: seq<Bytes>) {
    forall i :: 0 <= i < |blocks| ==> IsBlock(blocks[i])
  }

  /** What holds between two attempts: the sender is at the last accepted block or at the one after it, and it is at
      the last accepted one as long as an acknowledgement is under way. */
  ghost predicate InStep(blocks: seq<Bytes>, s: nat, rx: Rx) {
    && 1 <= rx.accepted <= |blocks| && rx.next == BlkNo(rx.accepted)
    && (s == rx.accepted - 1 || (s == rx.accepted && !rx.txAck && !rx.reAcked))
    && |rx.stream| >= |Expected(blocks, rx.accepted)| + 128 * rx.repeats
    && (rx.repeats == 0 ==> rx.stream == Expected(blocks, rx.accepted))
    && (rx.status.Ended? ==> rx.accepted == |blocks|)
    && rx.status != Failed(ERR_SEQUENCE)
    && (rx.status.Running? ==> 1 <= rx.left <= READ_RETRIES)
  }

  lemma Neighbours(n: nat)
    requires n > 0
    ensures BlkNo(n - 1) == BlkNo(n) - 1 && BlkNo(n - 1) != BlkNo(n)
  {
  }

  lemma NextNumber(n: nat)
    ensures BlkNo(n + 1) == BlkNo(n) + 1
  {
  }

  lemma NextBlockInStep(blocks: seq<Bytes>, rx: Rx, data: Bytes, crcMode: bool)
    requires InStep(blocks, rx.accepted, rx.(txAck := false, reAcked := false)) && rx.status.Running?
    requires rx.accepted < |blocks| && data == blocks[rx.accepted]
    ensures InStep(blocks, rx.accepted, RxStep(rx, Packet(rx.next, data), crcMode))
  {
    hide Trim, HeaderSignals, Request, BlkNo, StartOf;
    NextNumber(rx.accepted);
    var n := rx.accepted + 1;
    assert Expected(blocks, n) == Expected(blocks, rx.accepted) + Trim(data);
  }

  lemma OldBlockInStep(blocks: seq<Bytes>, rx: Rx, blk: bv8, data: Bytes, crcMode: bool)
    requires rx.accepted >= 1 && rx.status.Running?
    requires InStep(blocks, rx.accepted - 1, rx.(txAck := false, reAcked := false))
    requires |data| >= 128 && blk == rx.next - 1 && blk != rx.next
    ensures InStep(blocks, rx.accepted - 1, RxStep(rx, Packet(blk, data), crcMode))
  {
    hide Trim, HeaderSignals, Request, BlkNo, StartOf;
  }

  lemma PacketInStep(blocks: seq<Bytes>, s: nat, rx: Rx, blk: bv8, data: Bytes, crcMode: bool)
    requires AllBlocks(blocks) && InStep(blocks, s, rx.(txAck := false, reAcked := false)) && rx.status.Running?
    requires Possible(blocks, s, Packet(blk, data))
    ensures InStep(blocks, s, RxStep(rx, Packet(blk, data), crcMode))
  {
    hide RxStep, BlkNo, Expected;
    if s == rx.accepted {
      NextBlockInStep(blocks, rx, data, crcMode);
    } else {
      Neighbours(rx.accepted);
      OldBlockInStep(blocks, rx, blk, data, crcMode);
    }
  }

  lemma StepInStep(blocks: seq<Bytes>, s: nat, rx: Rx, o: Outcome, heard: bool, crcMode: bool)
    requires AllBlocks(blocks) && InStep(blocks, s, rx) && rx.status.Running?
        && Possible(blocks, Offered(rx, s, heard), o)
    ensures InStep(blocks, Offered(rx, s, heard), RxStep(rx, o, crcMode))
  {
    hide Trim, HeaderSignals, Request, BlkNo, Expected;
    var t := Offered(rx, s, heard);
    assert InStep(blocks, t, rx.(txAck := false, reAcked := false));
    if o.Packet? {
      hide RxStep, InStep, Possible;
      PacketInStep(blocks, t, rx, o.blk, o.data, crcMode);
    }
  }

  lemma {:induction false} RunsInStep(blocks: seq<Bytes>, s: nat, rx: Rx, log: seq<Outcome>, heard: seq<bool>,
      crcMode: bool)
    returns (t: nat)
    requires AllBlocks(blocks) && InStep(blocks, s, rx)
    requires |heard| == |log| && SenderRun(blocks, s, rx, log, heard, crcMode)
    ensures InStep(blocks, t, Forward(rx, log, crcMode))
    decreases |log|
  {
    hide RxStep, InStep, Possible;
    if log != [] {
      var s1 := Offered(rx, s, heard[0]);
      StepInStep(blocks, s, rx, log[0], heard[0], crcMode);
      t := RunsInStep(blocks, s1, RxStep(rx, log[0], crcMode), log[1..], heard[1..], crcMode);
    } else {
      t := s;
    }
  }

  /** The guard of the faulty branch: a duplicate met with one attempt left. */
  predicate LastChanceDuplicate(rx: Rx, o: Outcome) {
    o.Packet? && o.blk != rx.next && o.blk == rx.next - 1 && rx.left <= 1
  }

  /** How often a run takes that branch. */
  function Mistakes(rx: Rx, log: seq<Outcome>, crcMode: bool): nat
    decreases |log|
  {
    if log == [] then 0
    else (if LastChanceDuplicate(rx, log[0]) then 1 else 0) + Mistakes(RxStep(rx, log[0], crcMode), log[1..], crcMode)
  }

  lemma {:induction false} RepeatsAreMistakes(rx: Rx, log: seq<Outcome>, crcMode: bool)
    ensures Forward(rx, log, crcMode).repeats == rx.repeats + Mistakes(rx, log, crcMode)
    decreases |log|
  {
    if log != [] {
      RepeatsAreMistakes(RxStep(rx, log[0], crcMode), log[1..], crcMode);
    }
  }

  /** Safety in every run: whatever the line loses or damages, the accepted blocks are the sender's blocks in order,
      each once, although block numbers repeat after 256; the reader's bytes are exactly theirs if and only if no
      duplicate arrived as the last of the five attempts for a block; a transfer that ends has accepted every block;
      and no run stops with a sequence error. */
  lemma TransferIsFaithful(blocks: seq<Bytes>, log: seq<Outcome>, heard: seq<bool>, crcMode: bool)
    requires blocks != [] && AllBlocks(blocks) && |heard| == |log|
    requires SenderRun(blocks, 0, Opened(BlkNo(0), blocks[0]), log, heard, crcMode)
    ensures var rx := RxAfter(Opened(BlkNo(0), blocks[0]), log, crcMode);
      && 1 <= rx.accepted <= |blocks|
      && (rx.stream == Expected(blocks, rx.accepted) <==> Mistakes(Opened(BlkNo(0), blocks[0]), log, crcMode) == 0)
      && (rx.status.Ended? ==> rx.accepted == |blocks|)
      && rx.status != Failed(ERR_SEQUENCE)
  {
    var rx0 := Opened(BlkNo(0), blocks[0]);
    NextNumber(0);
    assert InStep(blocks, 0, rx0);
    hide RxStep, Forward, RxAfter;
    var t := RunsInStep(blocks, 0, rx0, log, heard, crcMode);
    ForwardIsAfter(rx0, log, crcMode);
    RepeatsAreMistakes(rx0, log, crcMode);
  }

  /** A run that shows it: the first ACK is lost, four repetitions of the block are lost as well, and the fifth arrives.
      The reader then has the first block twice. */
  lemma FirstBlockTwice(blocks: seq<Bytes>, crcMode: bool)
    requires blocks != []
    ensures var rx := Opened(BlkNo(0), blocks[0]);
      var log := [Timeout, Timeout, Timeout, Timeout, Packet(BlkNo(0), blocks[0])];
      && SenderRun(blocks, 0, rx, log, [false, false, false, false, false], crcMode)
      && Forward(rx, log, crcMode).stream == blocks[0] + blocks[0]
      && Forward(rx, log, crcMode).accepted == 1
  {
    hide HeaderSignals, Request;
    var b := Packet(BlkNo(0), blocks[0]);
    assert [Timeout, Timeout, Timeout, Timeout, b][1..] == [Timeout, Timeout, Timeout, b];
    assert [Timeout, Timeout, Timeout, b][1..] == [Timeout, Timeout, b];
    assert [Timeout, Timeout, b][1..] == [Timeout, b];
    assert [Timeout, b][1..] == [b];
    assert [b][1..] == [];
    assert [false, false, false, false, false][1..] == [false, false, false, false];
    assert [false, false, false, false][1..] == [false, false, false];
    assert [false, false, false][1..] == [false, false];
    assert [false, false][1..] == [false];
    var r0 := Opened(BlkNo(0), blocks[0]);
    var r1 := RxStep(r0, Timeout, crcMode);
    var r2 := RxStep(r1, Timeout, crcMode);
    var r3 := RxStep(r2, Timeout, crcMode);
    var r4 := RxStep(r3, Timeout, crcMode);
    var r5 := RxStep(r4, b, crcMode);
    assert r4.left == 1 && r4.next == BlkNo(0) + 1;
    assert Forward(r4, [b], crcMode) == Forward(r5, [], crcMode);
    assert Forward(r2, [Timeout, Timeout, b], crcMode) == Forward(r4, [b], crcMode);
    assert Forward(r0, [Timeout, Timeout, Timeout, Timeout, b], crcMode) == Forward(r2, [Timeout, Timeout, b], crcMode);
    assert SenderRun(blocks, 0, r5, [], [], crcMode);
    assert SenderRun(blocks, 0, r4, [b], [false], crcMode);
    assert SenderRun(blocks, 0, r3, [Timeout, b], [false, false], crcMode);
    assert SenderRun(blocks, 0, r2, [Timeout, Timeout, b], [false, false, false], crcMode);
    assert SenderRun(blocks, 0, r1, [Timeout, Timeout, Timeout, b], [false, false, false, false], crcMode);
  }

  // ---------------------------------------------------------------- progress

  /** The run ends with every block accepted, and without a duplicate taken for a new block. */
  predicate Completes(blocks: seq<Bytes>, s: nat, rx: Rx, log: seq<Outcome>, heard: seq<bool>, crcMode: bool) {
    && |heard| == |log| && SenderRun(blocks, s, rx, log, heard, crcMode) && Mistakes(rx, log, crcMode) == 0
    && var r := Forward(rx, log, crcMode); r.status.Ended? && r.accepted == |blocks|
  }

  /** The blocks from number i on and the end of transmission, with nothing lost. */
  function Undisturbed(blocks: seq<Bytes>, i: nat): (log: seq<Outcome>)
    requires i <= |blocks|
    ensures |log| == |blocks| - i + 1
    decreases |blocks| - i
  {
    if i == |blocks| then [Eof] else [Packet(BlkNo(i), blocks[i])] + Undisturbed(blocks, i + 1)
  }

  function AllHeard(n: nat): (h: seq<bool>)
    ensures |h| == n
  {
    seq(n, _ => true)
  }

  /** The sender is about to offer the next block, or the receiver can still afford a duplicate. */
  predicate Recoverable(s: nat, rx: Rx) {
    Offered(rx, s, true) == rx.accepted || rx.left > 1
  }

  /** One attempt in front of a run that completes. */
  lemma CompletesFirst(blocks: seq<Bytes>, s: nat, rx: Rx, o: Outcome, log: seq<Outcome>, crcMode: bool)
    requires rx.status.Running? && Possible(blocks, Offered(rx, s, true), o) && !LastChanceDuplicate(rx, o)
    requires Completes(blocks, Offered(rx, s, true), RxStep(rx, o, crcMode), log, AllHeard(|log|), crcMode)
    ensures Completes(blocks, s, rx, [o] + log, AllHeard(|log| + 1), crcMode)
  {
    hide RxStep, Possible, LastChanceDuplicate;
    assert ([o] + log)[1..] == log && AllHeard(|log| + 1)[1..] == AllHeard(|log|);
  }

  lemma EndCompletes(blocks: seq<Bytes>, s: nat, rx: Rx, crcMode: bool)
    requires rx.status.Running? && Offered(rx, s, true) == rx.accepted == |blocks|
    ensures Completes(blocks, s, rx, [Eof], AllHeard(1), crcMode)
  {
    hide HeaderSignals;
    var r := RxStep(rx, Eof, crcMode);
    assert Forward(rx, [Eof], crcMode) == Forward(r, [], crcMode) == r;
    assert SenderRun(blocks, Offered(rx, s, true), r, [], [], crcMode) && AllHeard(1)[1..] == [];
    assert Mistakes(rx, [Eof], crcMode) == Mistakes(r, [], crcMode);
  }

  /** From a state in which the sender is about to offer the next block, an undisturbed line completes the transfer. */
  lemma {:induction false} UndisturbedCompletes(blocks: seq<Bytes>, s: nat, rx: Rx, crcMode: bool)
    requires AllBlocks(blocks) && InStep(blocks, s, rx) && rx.status.Running?
    requires Offered(rx, s, true) == rx.accepted
    ensures var log := Undisturbed(blocks, rx.accepted); Completes(blocks, s, rx, log, AllHeard(|log|), crcMode)
    decreases |blocks| - rx.accepted
  {
    hide Completes, Undisturbed, HeaderSignals, Trim, BlkNo, Expected;
    var n := rx.accepted;
    if n == |blocks| {
      UndisturbedEnd(blocks);
      EndCompletes(blocks, s, rx, crcMode);
    } else {
      var o := Packet(BlkNo(n), blocks[n]);
      StepInStep(blocks, s, rx, o, true, crcMode);
      var r := RxStep(rx, o, crcMode);
      assert r.accepted == n + 1 && r.txAck && r.status.Running?;
      UndisturbedCompletes(blocks, n, r, crcMode);
      UndisturbedMore(blocks, n);
      CompletesFirst(blocks, s, rx, o, Undisturbed(blocks, n + 1), crcMode);
    }
  }

  lemma UndisturbedEnd(blocks: seq<Bytes>)
    ensures Undisturbed(blocks, |blocks|) == [Eof]
  {
  }

  lemma UndisturbedMore(blocks: seq<Bytes>, i: nat)
    requires i < |blocks|
    ensures Undisturbed(blocks, i) == [Packet(BlkNo(i), blocks[i])] + Undisturbed(blocks, i + 1)
  {
  }

  /** From a state in which the sender repeats the last block and the receiver can afford it, too. */
  lemma RepeatCompletes(blocks: seq<Bytes>, s: nat, rx: Rx, crcMode: bool)
    requires AllBlocks(blocks) && InStep(blocks, s, rx) && rx.status.Running?
    requires Offered(rx, s, true) != rx.accepted && rx.left > 1
    ensures var log := [Packet(BlkNo(s), blocks[s])] + Undisturbed(blocks, rx.accepted);
      Completes(blocks, s, rx, log, AllHeard(|log|), crcMode)
  {
    hide Completes, Undisturbed, HeaderSignals, Trim, BlkNo, Expected;
    var o := Packet(BlkNo(s), blocks[s]);
    Neighbours(rx.accepted);
    StepInStep(blocks, s, rx, o, true, crcMode);
    var r := RxStep(rx, o, crcMode);
    assert r.accepted == rx.accepted && r.reAcked && r.status.Running?;
    UndisturbedCompletes(blocks, s, r, crcMode);
    CompletesFirst(blocks, s, rx, o, Undisturbed(blocks, rx.accepted), crcMode);
  }

  lemma StrandedStep(blocks: seq<Bytes>, s: nat, rx: Rx, o: Outcome, heard: bool, crcMode: bool)
    requires InStep(blocks, s, rx) && rx.status.Running? && !Recoverable(s, rx)
    requires Possible(blocks, Offered(rx, s, heard), o)
    ensures LastChanceDuplicate(rx, o) || RxStep(rx, o, crcMode).status.Failed?
  {
    hide Trim, HeaderSignals, Request, BlkNo, Expected;
    Neighbours(rx.accepted);
    assert s == rx.accepted - 1 && Offered(rx, s, heard) == s;
  }

  lemma FailedIsLast(blocks: seq<Bytes>, s: nat, rx: Rx, log: seq<Outcome>, heard: seq<bool>, crcMode: bool)
    requires |heard| == |log| && SenderRun(blocks, s, rx, log, heard, crcMode) && !rx.status.Running?
    ensures log == []
  {
  }

  lemma LastStep(rx: Rx, log: seq<Outcome>, crcMode: bool)
    requires log != []
    ensures log[1..] == [] ==> Forward(rx, log, crcMode) == RxStep(rx, log[0], crcMode)
  {
    hide RxStep;
    var r := RxStep(rx, log[0], crcMode);
    assert Forward(r, [], crcMode) == r;
  }

  /** With the last attempt and the sender still at the old block, the next attempt is the last one or the mistake. */
  lemma StrandedNeverCompletes(blocks: seq<Bytes>, s: nat, rx: Rx, log: seq<Outcome>, heard: seq<bool>, crcMode: bool)
    requires InStep(blocks, s, rx) && rx.status.Running? && !Recoverable(s, rx)
    ensures !Completes(blocks, s, rx, log, heard, crcMode)
  {
    hide RxStep, InStep, Recoverable, Possible, Offered, LastChanceDuplicate;
    if log != [] && Completes(blocks, s, rx, log, heard, crcMode) {
      LastStep(rx, log, crcMode);
      StrandedStep(blocks, s, rx, log[0], heard[0], crcMode);
      var r := RxStep(rx, log[0], crcMode);
      FailedIsLast(blocks, Offered(rx, s, heard[0]), r, log[1..], heard[1..], crcMode);
    }
  }

  lemma AcceptedSoFar(blocks: seq<Bytes>, s: nat, rx: Rx)
    requires InStep(blocks, s, rx)
    ensures 1 <= rx.accepted <= |blocks| && (Offered(rx, s, true) != rx.accepted ==> s < |blocks|)
  {
  }

  /** From any state of a run the transfer can still come to its end, with every block accepted once, exactly if the
      sender is about to offer the next block or the receiver has more than one attempt left.  So no run is beyond
      recovery except in front of the faulty branch. */
  lemma CompletionPossibleIff(blocks: seq<Bytes>, s: nat, rx: Rx, crcMode: bool)
    requires AllBlocks(blocks) && InStep(blocks, s, rx) && rx.status.Running?
    ensures (exists log: seq<Outcome>, heard: seq<bool> :: Completes(blocks, s, rx, log, heard, crcMode)) <==>
            Recoverable(s, rx)
  {
    hide Completes, InStep, Undisturbed;
    AcceptedSoFar(blocks, s, rx);
    if Offered(rx, s, true) == rx.accepted {
      UndisturbedCompletes(blocks, s, rx, crcMode);
    } else if rx.left > 1 {
      RepeatCompletes(blocks, s, rx, crcMode);
      var log := [Packet(BlkNo(s), blocks[s])] + Undisturbed(blocks, rx.accepted);
      assert Completes(blocks, s, rx, log, AllHeard(|log|), crcMode);
    } else {
      forall log: seq<Outcome>, heard: seq<bool> ensures !Completes(blocks, s, rx, log, heard, crcMode) {
        StrandedNeverCompletes(blocks, s, rx, log, heard, crcMode);
      }
    }
  }

  // ---------------------------------------------------------------- the characters behind an attempt

  /** What the line can do to one packet, in CRC mode: lose it, or change its number bytes, two neighbouring data bytes,
      or its check bytes. */
  datatype Fate =
    Intact | Lost | NumberHit(blk: bv8, cblk: bv8) | DataHit(at: nat, y0: bv8, y1: bv8) | CheckHit(c0: bv8, c1: bv8)

  /** The number bytes, the data and the check bytes of a packet, as they arrive. */
  function NumbersThrough(blk: bv8, fate: Fate): (bv8, bv8) {
    if fate.NumberHit? then (fate.blk, fate.cblk) else (blk, blk ^ 0xff)
  }

  function DataThrough(data: Bytes, fate: Fate): (d: Bytes)
    ensures |d| == |data|
  {
    if fate.DataHit? && fate.at + 2 <= |data| then data[..fate.at] + [fate.y0, fate.y1] + data[fate.at + 2..] else data
  }

  function CheckThrough(data: Bytes, fate: Fate): (c: Bytes)
    ensures |c| == 2
  {
    if fate.CheckHit? then [fate.c0, fate.c1] else CheckBytes(data, true)
  }

  /** The characters that arrive when the sender offers block s, or the end of transmission after the last block. */
  function Carried(blocks: seq<Bytes>, s: nat, fate: Fate): seq<Event> {
    if fate.Lost? then [Silence, Silence]
    else if s >= |blocks| then [Got(EOT)]
    else
      var n := NumbersThrough(BlkNo(s), fate);
      var data := blocks[s];
      Line(RawPacket(StartOf(data), n.0, n.1, DataThrough(data, fate), CheckThrough(data, fate)))
  }

  /** What the receiver makes of them: any change of the data or of the check bytes is found, and any change of the
      number bytes after which they do not complement each other. */
  function Met(blocks: seq<Bytes>, s: nat, fate: Fate): Outcome {
    if fate.Lost? then Timeout
    else if s >= |blocks| then Eof
    else if fate.NumberHit? && fate.cblk != fate.blk ^ 0xff then Frame
    else if fate.NumberHit? then Packet(fate.blk, blocks[s])
    else if DataThrough(blocks[s], fate) != blocks[s] then Chksum
    else if CheckThrough(blocks[s], fate) != CheckBytes(blocks[s], true) then Chksum
    else Packet(BlkNo(s), blocks[s])
  }

  /** The damage that shows. */
  predicate Noticed(fate: Fate) { fate.NumberHit? ==> fate.cblk != fate.blk ^ 0xff }

  lemma SilenceMeetsNothing(rest: seq<Event>)
    ensures Attempt([Silence, Silence] + rest, true) == (Timeout, rest)
  {
    hide ReadBody;
    var input := [Silence, Silence] + rest;
    assert input[0] == Silence && input[1..][0] == Silence && input[1..][1..] == rest;
  }

  lemma EndMeetsEof(rest: seq<Event>)
    ensures Attempt([Got(EOT)] + rest, true) == (Eof, rest)
  {
    hide ReadBody, Flush;
    var input := [Got(EOT)] + rest;
    assert input[0] == Got(EOT) && input[1..] == rest;
  }

  /** The check bytes that arrive fit the data that arrives exactly when both are as they were sent. */
  lemma CheckFitsIff(data: Bytes, fate: Fate)
    requires IsBlock(data)
    ensures var d, c := DataThrough(data, fate), CheckThrough(data, fate);
      c == CheckBytes(d, true) <==> d == data && c == CheckBytes(data, true)
  {
    hide CheckBytes;
    var d := DataThrough(data, fate);
    if d != data {
      var a, c := data[..fate.at], data[fate.at + 2..];
      assert data == a + [data[fate.at], data[fate.at + 1]] + c;
      BurstChangesCheck(a, data[fate.at], data[fate.at + 1], fate.y0, fate.y1, c);
    }
  }

  lemma PacketMeets(data: Bytes, blk: bv8, fate: Fate, rest: seq<Event>)
    requires IsBlock(data)
    ensures var n, d, c := NumbersThrough(blk, fate), DataThrough(data, fate), CheckThrough(data, fate);
      Attempt(Line(RawPacket(StartOf(data), n.0, n.1, d, c)) + rest, true) ==
      if n.1 != n.0 ^ 0xff then (Frame, Flush(rest))
      else (if d == data && c == CheckBytes(data, true) then Packet(n.0, data) else Chksum, rest)
  {
    hide CheckBytes, RawPacket, Line, Attempt, Flush, DataThrough, CheckThrough, NumbersThrough;
    var n, d, c := NumbersThrough(blk, fate), DataThrough(data, fate), CheckThrough(data, fate);
    CheckFitsIff(data, fate);
    PacketJudged(n.0, n.1, d, c, true, rest);
    ComplementFits(n.0);
    if n.0 ^ n.1 == 0xff { ComplementUnique(n.0, n.1); }
  }

  lemma MetIs(blocks: seq<Bytes>, s: nat, fate: Fate)
    requires s < |blocks| && !fate.Lost?
    ensures var n, data := NumbersThrough(BlkNo(s), fate), blocks[s];
      Met(blocks, s, fate) ==
      if n.1 != n.0 ^ 0xff then Frame
      else if DataThrough(data, fate) == data && CheckThrough(data, fate) == CheckBytes(data, true)
      then Packet(n.0, data) else Chksum
  {
    hide CheckBytes, BlkNo;
    if fate.NumberHit? {
      NothingElseHit(blocks[s], fate);
    } else if fate.DataHit? {
      hide DataThrough;
    }
  }

  lemma NothingElseHit(data: Bytes, fate: Fate)
    requires !fate.DataHit?
    ensures DataThrough(data, fate) == data
  {
  }

  lemma PossibleIff(blocks: seq<Bytes>, s: nat, fate: Fate)
    ensures Possible(blocks, s, Met(blocks, s, fate)) <==>
            s >= |blocks| || fate.Lost? || Noticed(fate) || fate.blk == BlkNo(s)
  {
    hide CheckBytes, BlkNo, DataThrough, CheckThrough;
  }

  /** Whatever the line does to what the sender offers, the receiver makes this of it, and leaves what comes behind,
      unless it waits for the line to fall silent after a wrong number.  That is a possible outcome of the protocol,
      except when both number bytes are hit and still complement each other. */
  lemma AttemptMeets(blocks: seq<Bytes>, s: nat, fate: Fate, rest: seq<Event>)
    requires AllBlocks(blocks)
    ensures var o := Met(blocks, s, fate);
      && Attempt(Carried(blocks, s, fate) + rest, true) == (o, if o.Frame? then Flush(rest) else rest)
      && (Possible(blocks, s, o) <==> s >= |blocks| || fate.Lost? || Noticed(fate) || fate.blk == BlkNo(s))
  {
    hide CheckBytes, BlkNo, Attempt, RawPacket, Line, Flush, Possible, Noticed;
    hide NumbersThrough, DataThrough, CheckThrough;
    PossibleIff(blocks, s, fate);
    if fate.Lost? {
      SilenceMeetsNothing(rest);
    } else if s >= |blocks| {
      EndMeetsEof(rest);
    } else {
      hide Met;
      MetIs(blocks, s, fate);
      PacketMeets(blocks[s], BlkNo(s), fate, rest);
    }
  }

  // ---------------------------------------------------------------- the characters behind a run

  /** What the sender says over a run, as it arrives, and what the receiver should make of it; fates[k] is what happens
      to what is offered at attempt k. */
  function Spoken(blocks: seq<Bytes>, s: nat, rx: Rx, fates: seq<Fate>, heard: seq<bool>)
    : (r: (seq<Event>, seq<Outcome>))
    requires |fates| == |heard|
    ensures |r.1| <= |fates|
    decreases |fates|
  {
    if fates == [] || !rx.status.Running? then ([], [])
    else
      var t := Offered(rx, s, heard[0]);
      var o := Met(blocks, t, fates[0]);
      var later := Spoken(blocks, t, RxStep(rx, o, true), fates[1..], heard[1..]);
      (Carried(blocks, t, fates[0]) + later.0, [o] + later.1)
  }

  /** Attempts, counted from the first one. */
  lemma {:induction false} AttemptsFirst(input: seq<Event>, n: nat, crcMode: bool)
    requires n > 0
    ensures var a := Attempt(input, crcMode); var r := Attempts(a.1, n - 1, crcMode);
      Attempts(input, n, crcMode) == ([a.0] + r.0, r.1)
  {
    hide Attempt;
    if n == 1 {
      var a := Attempt(input, crcMode);
      assert Attempts(input, 0, crcMode) == ([], input) && Attempts(a.1, 0, crcMode) == ([], a.1);
      assert [] + [a.0] == [a.0] + [];
    } else {
      AttemptsFirst(input, n - 1, crcMode);
      var a := Attempt(input, crcMode);
      var r := Attempts(a.1, n - 2, crcMode);
      var last := Attempt(r.1, crcMode);
      assert [a.0] + r.0 + [last.0] == [a.0] + (r.0 + [last.0]);
    }
  }

  /** A line on which the sender's packets arrive, each with any fate that shows: the receiver's attempts on those
      characters report a run of the sender. */
  lemma {:induction false} SpokenIsRun(blocks: seq<Bytes>, s: nat, rx: Rx, fates: seq<Fate>, heard: seq<bool>,
      rest: seq<Event>)
    requires AllBlocks(blocks) && |fates| == |heard| && forall k :: 0 <= k < |fates| ==> Noticed(fates[k])
    ensures var w := Spoken(blocks, s, rx, fates, heard);
      && Attempts(w.0 + rest, |w.1|, true).0 == w.1
      && SenderRun(blocks, s, rx, w.1, heard[..|w.1|], true)
    decreases |fates|
  {
    hide Attempt, Carried, Met, Possible, RxStep;
    var w := Spoken(blocks, s, rx, fates, heard);
    if fates != [] && rx.status.Running? {
      var t := Offered(rx, s, heard[0]);
      var o := Met(blocks, t, fates[0]);
      var r := RxStep(rx, o, true);
      var later := Spoken(blocks, t, r, fates[1..], heard[1..]);
      SpokenIsRun(blocks, t, r, fates[1..], heard[1..], rest);
      AttemptMeets(blocks, t, fates[0], later.0 + rest);
      assert w.0 + rest == Carried(blocks, t, fates[0]) + (later.0 + rest);
      AttemptsFirst(w.0 + rest, |w.1|, true);
      if o.Frame? { FrameEnds(rx); }
      assert w.1[1..] == later.1 && heard[..|w.1|][1..] == heard[1..][..|later.1|];
    }
  }

  lemma FrameEnds(rx: Rx)
    ensures RxStep(rx, Frame, true).status.Failed?
  {
  }

  lemma {:induction false} RunPrefix(blocks: seq<Bytes>, s: nat, rx: Rx, log: seq<Outcome>, heard: seq<bool>, n: nat,
      crcMode: bool)
    requires |heard| == |log| && SenderRun(blocks, s, rx, log, heard, crcMode) && n <= |log|
    ensures SenderRun(blocks, s, rx, log[..n], heard[..n], crcMode)
    decreases n
  {
    hide RxStep, Possible;
    if n > 0 {
      RunPrefix(blocks, Offered(rx, s, heard[0]), RxStep(rx, log[0], crcMode), log[1..], heard[1..], n - 1, crcMode);
      assert log[..n][1..] == log[1..][..n - 1] && heard[..n][1..] == heard[1..][..n - 1];
    }
  }

  lemma {:induction false} AttemptsPrefix(input: seq<Event>, m: nat, n: nat, crcMode: bool)
    requires n <= m
    ensures Attempts(input, m, crcMode).0[..n] == Attempts(input, n, crcMode).0
    decreases m
  {
    hide Attempt;
    if n < m { AttemptsPrefix(input, m - 1, n, crcMode); }
  }
}
