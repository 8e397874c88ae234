/** src/net/tftp_client.c: storing a file by TFTP, tftpc_put. */
module TftpPut {
  import opened Numbers
  import opened TftpClient

  /** What the client puts on the network. */
  datatype Sent = Request | Block(number: nat, data: Bytes)

  datatype Phase = Asking | Sending

  /** The client between two waits: `next` is the block being sent (the code calls it last_good_block), `total` the
      bytes acknowledged, `requests` counts the write requests that got out. */
  datatype Put = Put(phase: Phase, next: nat, total: nat, timeouts: nat, sent: seq<Sent>, status: Status, reported: nat)

  /** The data of the block that starts at offset `at`. */
  function Segment(buf: Bytes, at: nat): Bytes
    requires at <= |buf|
  {
    buf[at..at + Min(SEG, |buf| - at)]
  }

  /** Send the block that is due; an empty one ends the transfer without waiting. */
  function SendBlock(p: Put, buf: Bytes, sendOk: bool): Put
    requires p.total <= |buf|
  {
    if !sendOk then p.(status := Done(NET_ERR))
    else
      var p1 := p.(sent := p.sent + [Block(p.next % 0x1_0000, Segment(buf, p.total))]);
      if p.total == |buf| then p1.(status := Done(OK), reported := p.total) else p1
  }

  function SendRequest(p: Put, sendOk: bool): Put {
    if !sendOk then p.(status := Done(NET_ERR)) else p.(sent := p.sent + [Request])
  }

  function PutStart(sendOk: bool): Put {
    SendRequest(Put(Asking, 0, 0, 0, [], Running, 0), sendOk)
  }

  /** The wait for the answer to the write request: any acknowledgement will do. */
  function AskStep(p: Put, buf: Bytes, t: Turn): Put {
    match t.arrival
    case Broken => p.(status := Done(NET_ERR))
    case Silent =>
      var p1 := p.(timeouts := p.timeouts + 1);
      if p1.timeouts > TIMEOUT_NUM then p1.(status := Done(TIMEOUT)) else SendRequest(p1, t.sendOk)
    case Datagram(d) =>
      match d
      case Ack(_) => SendBlock(Put(Sending, 1, 0, 0, p.sent, Running, 0), buf, t.sendOk)
      case Error(code) => p.(timeouts := 0, status := Done(code))
      case _ => p.(timeouts := 0, status := Done(UNKNOWN))
  }

  /** The wait after a data block: only its own acknowledgement moves the transfer on; everything else that is not fatal
      has the same block sent again. */
  function BlockStep(p: Put, buf: Bytes, t: Turn): Put
    requires p.total <= |buf|
  {
    match t.arrival
    case Broken => p.(status := Done(NET_ERR))
    case Silent =>
      var p1 := p.(timeouts := p.timeouts + 1);
      if p1.timeouts > TIMEOUT_NUM then p1.(status := Done(TIMEOUT)) else SendBlock(p1, buf, t.sendOk)
    case Datagram(d) =>
      match d
      case Ack(k) =>
        var p1 := p.(timeouts := 0);
        if k == p.next then
          SendBlock(p1.(total := p.total + Min(SEG, |buf| - p.total), next := p.next + 1), buf, t.sendOk)
        else SendBlock(p1, buf, t.sendOk)
      case Error(code) => p.(timeouts := 0, status := Done(code))
      case _ => p.(timeouts := 0, status := Done(UNKNOWN))
  }

  function PutStep(p: Put, buf: Bytes, t: Turn): Put
    requires p.total <= |buf|
  {
    if p.phase.Asking? then AskStep(p, buf, t) else BlockStep(p, buf, t)
  }

  function PutRun(p: Put, buf: Bytes, net: seq<Turn>): (r: Put)
    requires p.total <= |buf|
    ensures r.total <= |buf|
    decreases |net|
  {
    if net == [] || p.status.Done? then p else PutRun(PutStep(p, buf, net[0]), buf, net[1..])
  }

  // ---------------------------------------------------------------- the code

  /** The request loop of tftpc_put.  `ready` says that an acknowledgement has come; its turn also tells whether the
      first block can be sent. */
  method Ask(net: seq<Turn>, firstOk: bool, buf: Bytes)
    returns (at: nat, ready: bool, status: Status, sent: seq<Sent>, ghost p: Put)
    ensures at <= |net| && p.total == 0 && PutRun(p, buf, net[at..]) == PutRun(PutStart(firstOk), buf, net)
    ensures ready ==> at < |net| && net[at].arrival.Datagram? && net[at].arrival.p.Ack? && status.Running?
    ensures !ready ==> p.status == status && (status.Running? ==> at == |net|)
    ensures p.reported == 0 && p.phase == Asking && p.status == status && p.sent == sent
  {
    var timeouts: nat := 0;
    at, ready, status, sent := 0, false, Running, [];
    p := PutStart(firstOk);
    if !firstOk {
      status := Done(NET_ERR);
    } else {
      sent := [Request];
    }
    assert net[0..] == net;
    while at < |net| && status.Running?
      invariant at <= |net| && p.total == 0 && PutRun(p, buf, net[at..]) == PutRun(PutStart(firstOk), buf, net)
      invariant p == Put(Asking, 0, 0, timeouts, sent, status, 0)
      decreases |net| - at
    {
      var t := net[at];
      assert net[at..][0] == t && net[at..][1..] == net[at + 1..];
      if t.arrival.Datagram? && t.arrival.p.Ack? {
        ready := true;
        return;
      }
      p := AskStep(p, buf, t);
      at := at + 1;
      match t.arrival
      case Broken =>
        status := Done(NET_ERR);
      case Silent =>
        timeouts := timeouts + 1;
        if timeouts > TIMEOUT_NUM {
          status := Done(TIMEOUT);
        } else if !t.sendOk {
          status := Done(NET_ERR);
        } else {
          sent := sent + [Request];
        }
      case Datagram(d) =>
        timeouts := 0;
        status := Done(if d.Error? then d.code else UNKNOWN);
    }
  }

  /** What a wait after a data block of n bytes changes. */
  method Receive(t: Turn, next0: nat, total0: nat, timeouts0: nat, n: nat, ghost buf: Bytes, ghost sent: seq<Sent>)
    returns (next: nat, total: nat, timeouts: nat, status: Status)
    requires total0 <= |buf| && n == Min(SEG, |buf| - total0)
    ensures total <= |buf|
    ensures var p := BlockStep(Put(Sending, next0, total0, timeouts0, sent, Running, 0), buf, t);
      p == if status.Done? then Put(Sending, next, total, timeouts, sent, status, 0)
           else SendBlock(Put(Sending, next, total, timeouts, sent, Running, 0), buf, t.sendOk)
  {
    hide SendBlock;
    next, total, timeouts, status := next0, total0, timeouts0, Running;
    match t.arrival
    case Broken =>
      status := Done(NET_ERR);
    case Silent =>
      timeouts := timeouts + 1;
      if timeouts > TIMEOUT_NUM {
        status := Done(TIMEOUT);
      }
    case Datagram(d) =>
      timeouts := 0;
      match d {
        case Ack(k) =>
          if k == next {
            total := total + n;
            next := next + 1;
          }
        case Error(code) =>
          status := Done(code);
        case _ =>
          status := Done(UNKNOWN);
      }
  }

  /** tftpc_put over all the turns of a run. */
  method TftpPut(buf: Bytes, net: seq<Turn>, firstOk: bool)
    returns (status: Status, totalSize: nat, sent: seq<Sent>, ghost p: Put)
    ensures var r := PutRun(PutStart(firstOk), buf, net);
      status == r.status && totalSize == r.reported && sent == r.sent
    ensures p == PutRun(PutStart(firstOk), buf, net)
  {
    hide Segment, BlockStep, AskStep;
    totalSize := 0;
    var at: nat, ready;
    at, ready, status, sent, p := Ask(net, firstOk, buf);
    if !ready {
      return;
    }
    var next: nat, total: nat, timeouts: nat := 1, 0, 0;
    assert net[at..][0] == net[at] && net[at..][1..] == net[at + 1..];
    var sendOk := net[at].sendOk;
    Acked(p, buf, net[at]);
    p := PutStep(p, buf, net[at]);
    at := at + 1;
    ghost var unsent := Put(Sending, next, total, timeouts, sent, Running, 0);
    while status.Running?
      invariant at <= |net| && total <= |buf| && p.total == total
          && PutRun(p, buf, net[at..]) == PutRun(PutStart(firstOk), buf, net)
      invariant status.Running? ==>
                  unsent == Put(Sending, next, total, timeouts, sent, Running, 0) && totalSize == 0
                      && p == SendBlock(unsent, buf, sendOk)
      invariant status.Done? ==> p == Put(Sending, next, total, timeouts, sent, status, totalSize)
      decreases |net| - at, status.Running?
    {
      if !sendOk {
        status := Done(NET_ERR);
        break;
      }
      var n := Min(SEG, |buf| - total);
      SegmentOf(buf, total);
      sent := sent + [Block(next % 0x1_0000, buf[total..total + n])];
      if n == 0 {
        totalSize := total;
        status := Done(OK);
        break;
      }
      if at == |net| {
        return;
      }
      var t := net[at];
      assert net[at..][0] == t && net[at..][1..] == net[at + 1..];
      assert p == Put(Sending, next, total, timeouts, sent, Running, 0);
      p := PutStep(p, buf, t);
      at := at + 1;
      sendOk := t.sendOk;
      next, total, timeouts, status := Receive(t, next, total, timeouts, n, buf, sent);
      unsent := Put(Sending, next, total, timeouts, sent, Running, 0);
    }
  }

  lemma Acked(p: Put, buf: Bytes, t: Turn)
    requires p.phase.Asking? && p.total == 0 && t.arrival.Datagram? && t.arrival.p.Ack?
    ensures PutStep(p, buf, t) == SendBlock(Put(Sending, 1, 0, 0, p.sent, Running, 0), buf, t.sendOk)
  {
  }

  lemma SegmentOf(buf: Bytes, at: nat)
    requires at <= |buf|
    ensures Segment(buf, at) == buf[at..at + Min(SEG, |buf| - at)]
  {
  }

  // ---------------------------------------------------------------- what every run keeps

  /** Block k of the file to be stored, for k from 1. */
  function FileBlock(buf: Bytes, k: nat): Bytes
    requires k >= 1
  {
    buf[Min(SEG * (k - 1), |buf|)..Min(SEG * k, |buf|)]
  }

  /** A datagram carries a 16-bit block number. */
  predicate OnTheWire(t: Turn) {
    t.arrival.Datagram? && t.arrival.p.Ack? ==> t.arrival.p.acked < 0x1_0000
  }

  ghost predicate IsFileBlock(buf: Bytes, s: Sent, next: nat) {
    s.Block? ==> exists k :: 1 <= k <= next && s.number == k % 0x1_0000 && s.data == FileBlock(buf, k)
  }

  ghost predicate AllFileBlocks(buf: Bytes, sent: seq<Sent>, next: nat) {
    forall i :: 0 <= i < |sent| ==> IsFileBlock(buf, sent[i], next)
  }

  /** The blocks before `next` have been acknowledged, in order, and everything sent so far is a block of the file under
      its own number. */
  ghost predicate InOrder(buf: Bytes, p: Put) {
    && p.total <= |buf| && p.next <= 0x1_0000
    && (p.phase.Asking? ==> p.next == 0 && p.total == 0)
    && (p.phase.Sending? ==> p.next >= 1 && p.total == Min(SEG * (p.next - 1), |buf|))
    && AllFileBlocks(buf, p.sent, p.next)
    && (p.status.Running? && p.phase.Sending? ==> p.total < |buf|)
    && (p.reported > 0 ==> p.status == Done(OK) && p.reported == p.total == |buf|)
  }

  predicate ZeroError(t: Turn) {
    t.arrival == Datagram(Error(0))
  }

  /** A finished transfer: all bytes acknowledged, and the empty block behind them sent. */
  ghost predicate Finished(buf: Bytes, p: Put) {
    && p.phase.Sending? && p.total == p.reported == |buf| && p.next >= 1
    && p.sent != [] && p.sent[|p.sent| - 1] == Block(p.next % 0x1_0000, [])
  }

  lemma SendKeeps(buf: Bytes, p: Put, sendOk: bool)
    requires p.phase.Sending? && 1 <= p.next <= 0x1_0000 && p.total == Min(SEG * (p.next - 1), |buf|)
    requires AllFileBlocks(buf, p.sent, p.next) && p.status.Running? && p.reported == 0
    ensures var r := SendBlock(p, buf, sendOk);
      InOrder(buf, r) && (r.status == Done(OK) ==> Finished(buf, r))
  {
    var b := Block(p.next % 0x1_0000, Segment(buf, p.total));
    assert Segment(buf, p.total) == FileBlock(buf, p.next);
    assert IsFileBlock(buf, b, p.next);
    var sent := p.sent + [b];
    forall i | 0 <= i < |sent| ensures IsFileBlock(buf, sent[i], p.next) {
      if i < |p.sent| { assert sent[i] == p.sent[i]; }
    }
  }

  lemma LaterBlocksToo(buf: Bytes, sent: seq<Sent>, n: nat, m: nat)
    requires AllFileBlocks(buf, sent, n) && n <= m
    ensures AllFileBlocks(buf, sent, m)
  {
    forall i | 0 <= i < |sent| ensures IsFileBlock(buf, sent[i], m) {
      assert IsFileBlock(buf, sent[i], n);
    }
  }

  lemma RequestKeeps(buf: Bytes, p: Put, sendOk: bool)
    requires InOrder(buf, p) && p.phase.Asking? && p.status.Running? && p.reported == 0
    ensures InOrder(buf, SendRequest(p, sendOk)) && SendRequest(p, sendOk).status != Done(OK)
  {
    var sent := p.sent + [Request];
    forall i | 0 <= i < |sent| ensures IsFileBlock(buf, sent[i], p.next) {
      if i < |p.sent| { assert sent[i] == p.sent[i]; }
    }
  }

  lemma StepKeeps(buf: Bytes, p: Put, t: Turn)
    requires InOrder(buf, p) && p.status.Running? && OnTheWire(t)
    ensures var r := PutStep(p, buf, t);
      && InOrder(buf, r)
      && (r.status == Done(OK) && !ZeroError(t) ==> Finished(buf, r))
      && (ZeroError(t) ==> r.status == Done(OK) && r.reported == 0)
  {
    hide SendBlock, SendRequest, AllFileBlocks, IsFileBlock;
    LaterBlocksToo(buf, p.sent, p.next, p.next + 1);
    var p1 := p.(timeouts := p.timeouts + 1);
    if p.phase.Asking? {
      if t.arrival.Silent? && p1.timeouts <= TIMEOUT_NUM {
        RequestKeeps(buf, p1, t.sendOk);
      } else if t.arrival.Datagram? && t.arrival.p.Ack? {
        SendKeeps(buf, Put(Sending, 1, 0, 0, p.sent, Running, 0), t.sendOk);
      }
    } else if t.arrival.Silent? && p1.timeouts <= TIMEOUT_NUM {
      SendKeeps(buf, p1, t.sendOk);
    } else if t.arrival.Datagram? && t.arrival.p.Ack? {
      var q := p.(timeouts := 0);
      if t.arrival.p.acked == p.next {
        SendKeeps(buf, q.(total := p.total + Min(SEG, |buf| - p.total), next := p.next + 1), t.sendOk);
      } else {
        SendKeeps(buf, q, t.sendOk);
      }
    }
  }

  predicate WireRun(net: seq<Turn>) {
    forall i :: 0 <= i < |net| ==> OnTheWire(net[i])
  }

  predicate EndsInZeroError(p: Put, buf: Bytes, net: seq<Turn>)
    requires p.total <= |buf|
    decreases |net|
  {
    net != [] && p.status.Running? && (ZeroError(net[0]) || EndsInZeroError(PutStep(p, buf, net[0]), buf, net[1..]))
  }

  lemma {:induction false} RunKeeps(buf: Bytes, p: Put, net: seq<Turn>)
    requires InOrder(buf, p) && p.status.Running? && WireRun(net)
    ensures var r := PutRun(p, buf, net);
      && InOrder(buf, r)
      && (r.status == Done(OK) && !EndsInZeroError(p, buf, net) ==> Finished(buf, r))
      && (EndsInZeroError(p, buf, net) ==> r.status == Done(OK) && r.reported == 0)
    decreases |net|
  {
    hide PutStep, AllFileBlocks, Finished, ZeroError;
    if net != [] {
      StepKeeps(buf, p, net[0]);
      var p1 := PutStep(p, buf, net[0]);
      if p1.status.Running? {
        RunKeeps(buf, p1, net[1..]);
      } else {
        assert PutRun(p1, buf, net[1..]) == p1 && !EndsInZeroError(p1, buf, net[1..]);
      }
    }
  }

  lemma StartInOrder(buf: Bytes, firstOk: bool)
    ensures InOrder(buf, PutStart(firstOk))
  {
    var p := PutStart(firstOk);
    forall i | 0 <= i < |p.sent| ensures IsFileBlock(buf, p.sent[i], 0) { assert p.sent[i] == Request; }
  }

  /** Safety in every run: each data packet, first sending or repetition, carries the block of the file that belongs to
      its number; the acknowledged bytes are a prefix of the file made of whole blocks; and a success means that all of
      them are acknowledged, except when the server refuses with error code 0, which is taken for success. */
  lemma PutIsFaithful(buf: Bytes, net: seq<Turn>, firstOk: bool)
    requires WireRun(net)
    ensures var r := PutRun(PutStart(firstOk), buf, net);
      && AllFileBlocks(buf, r.sent, r.next)
      && r.total == (if r.next == 0 then 0 else Min(SEG * (r.next - 1), |buf|))
      && (r.status == Done(OK)
          ==> (r.reported == |buf| <==> !EndsInZeroError(PutStart(firstOk), buf, net) || buf == []))
      && (r.status == Done(OK) && !EndsInZeroError(PutStart(firstOk), buf, net) ==> Finished(buf, r))
  {
    var p := PutStart(firstOk);
    StartInOrder(buf, firstOk);
    if firstOk {
      hide Finished;
      RunKeeps(buf, p, net);
    } else {
      assert PutRun(p, buf, net) == p;
    }
  }

  /** The blocks acknowledged before `next`, put together by a server in the order of their numbers. */
  function Assembled(buf: Bytes, n: nat): Bytes {
    if n == 0 then [] else Assembled(buf, n - 1) + FileBlock(buf, n)
  }

  lemma {:induction false} AssembledIsPrefix(buf: Bytes, n: nat)
    ensures Assembled(buf, n) == buf[..Min(SEG * n, |buf|)]
  {
    if n > 0 {
      AssembledIsPrefix(buf, n - 1);
    }
  }

  /** What a server has that acknowledged everything it was asked to: the whole file.  Whether it has also acknowledged
      the short block that ends the file depends on the size: a file of whole blocks ends with the empty block, which is
      sent once and not waited for. */
  lemma FinishedMeansStored(buf: Bytes, p: Put)
    requires InOrder(buf, p) && Finished(buf, p)
    ensures Assembled(buf, p.next - 1) == buf
    ensures |buf| % SEG != 0 ==> p.next >= 2 && |FileBlock(buf, p.next - 1)| < SEG
    ensures |buf| % SEG == 0 ==>
              forall k :: 1 <= k < p.next && SEG * k <= |buf| ==> |FileBlock(buf, k)| == SEG
  {
    AssembledIsPrefix(buf, p.next - 1);
    assert buf[..|buf|] == buf;
  }

  /** A file with more blocks than block numbers never finishes: no acknowledgement can carry 65536. */
  lemma LongFilesNeverFinish(buf: Bytes, net: seq<Turn>, firstOk: bool)
    requires WireRun(net) && |buf| > SEG * 0xFFFF
    ensures PutRun(PutStart(firstOk), buf, net).reported == 0
  {
    PutIsFaithful(buf, net, firstOk);
    var r := PutRun(PutStart(firstOk), buf, net);
    NextBounded(buf, net, firstOk);
  }

  lemma NextBounded(buf: Bytes, net: seq<Turn>, firstOk: bool)
    requires WireRun(net)
    ensures InOrder(buf, PutRun(PutStart(firstOk), buf, net))
  {
    var p := PutStart(firstOk);
    StartInOrder(buf, firstOk);
    if firstOk { RunKeeps(buf, p, net); } else { assert PutRun(p, buf, net) == p; }
  }

  // ---------------------------------------------------------------- progress

  /** The acknowledgements of the blocks from k on, undisturbed. */
  function AcksFrom(buf: Bytes, k: nat): seq<Turn>
    requires k >= 1
    decreases |buf| - SEG * (k - 1)
  {
    if SEG * (k - 1) >= |buf| then [] else [Turn(Datagram(Ack(k)), true)] + AcksFrom(buf, k + 1)
  }

  /** The file is reported as sent, and not because of an error with code 0. */
  predicate SentByRun(buf: Bytes, p: Put, net: seq<Turn>)
    requires p.total <= |buf|
  {
    PutRun(p, buf, net).status == Done(OK) && !EndsInZeroError(p, buf, net)
  }

  /** Whatever has happened before, undisturbed acknowledgements finish the transfer of a file that has no more blocks
      than block numbers. */
  lemma {:induction false} UndisturbedFinishes(buf: Bytes, p: Put)
    requires |buf| <= SEG * 0xFFFF && InOrder(buf, p) && p.status.Running? && p.phase.Sending? && p.reported == 0
    ensures var net := AcksFrom(buf, p.next);
      WireRun(net) && SentByRun(buf, p, net) && PutRun(p, buf, net).reported == |buf|
    decreases |buf| - p.total
  {
    hide AllFileBlocks, IsFileBlock, Segment;
    var t := Turn(Datagram(Ack(p.next)), true);
    var net, rest := AcksFrom(buf, p.next), AcksFrom(buf, p.next + 1);
    assert net[0] == t && net[1..] == rest;
    StepKeeps(buf, p, t);
    var p1 := PutStep(p, buf, t);
    if p1.status.Running? {
      UndisturbedFinishes(buf, p1);
      assert forall i :: 0 < i < |net| ==> net[i] == rest[i - 1];
    } else {
      assert PutRun(p1, buf, rest) == p1 && !EndsInZeroError(p1, buf, rest);
    }
  }

  /** The run in which the server grants the request and acknowledges every block once. */
  function Granted(buf: Bytes): seq<Turn> {
    [Turn(Datagram(Ack(0)), true)] + AcksFrom(buf, 1)
  }

  lemma GrantedFinishes(buf: Bytes)
    requires |buf| <= SEG * 0xFFFF
    ensures WireRun(Granted(buf)) && SentByRun(buf, PutStart(true), Granted(buf))
  {
    hide Finished, AllFileBlocks, IsFileBlock, Segment;
    var p := PutStart(true);
    var net, rest := Granted(buf), AcksFrom(buf, 1);
    assert net[0] == Turn(Datagram(Ack(0)), true) && net[1..] == rest;
    StartInOrder(buf, true);
    StepKeeps(buf, p, net[0]);
    var p1 := PutStep(p, buf, net[0]);
    if p1.status.Running? {
      UndisturbedFinishes(buf, p1);
      assert forall i :: 0 < i < |net| ==> net[i] == rest[i - 1];
    } else {
      assert PutRun(p1, buf, rest) == p1 && !EndsInZeroError(p1, buf, rest);
    }
  }

  /** A put can succeed exactly when the file has no more blocks than there are block numbers. */
  lemma PutSucceedsIff(buf: Bytes)
    ensures (exists firstOk, net :: WireRun(net) && SentByRun(buf, PutStart(firstOk), net)) <==> |buf| <= SEG * 0xFFFF
  {
    if |buf| <= SEG * 0xFFFF {
      GrantedFinishes(buf);
    } else {
      forall firstOk, net | WireRun(net) ensures !SentByRun(buf, PutStart(firstOk), net) {
        LongFilesNeverFinish(buf, net, firstOk);
        PutIsFaithful(buf, net, firstOk);
      }
    }
  }
}
