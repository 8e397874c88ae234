/** src/net/udp.c: the socket's ring buffer, filled by udp_input and emptied by udp_recvfrom, as a queue of bytes. */
module UdpSocket {
  import opened Numbers
  import opened ByteData
  import opened InetChecksum
  import opened UdpDatagram

  const SIZE := 8192                   // UDP_SOCK_BUF_SIZE
  const OVERFLOW := -2                 // UDP_ERROR_OVERFLOW

  predicate PacketOk(p: Packet) { Reaches(p.d) }

  function Payload(p: Packet): (b: Bytes)
    requires PacketOk(p)
    ensures |b| == if Framed(p.d) then Length(p.d) - UDP_HDR_SIZE else 0
  {
    if Framed(p.d) then p.d[UDP_HDR_SIZE..Length(p.d)] else []
  }

  /** Whom the socket listens to, and on which port. */
  datatype Ends = Ends(peer: Address, me: Address, port: nat)

  /** The packet passes the checksum and is for the socket. */
  predicate ForUs(p: Packet, e: Ends)
    requires PacketOk(p)
  {
    Checks(p.d, p.src, p.dst) && Be16At(p.d, 2) == e.port && p.src == e.peer && p.dst == e.me
  }

  /** udp_input does not come back from the packet: the number of bytes to copy is negative, and the loop that counts it
      down to zero gets away from zero instead.  An int comes round to zero after 2^32 rounds; memory ends before. */
  predicate RunsOn(p: Packet, e: Ends)
    requires PacketOk(p)
  {
    ForUs(p, e) && !Framed(p.d)
  }

  // ---------------------------------------------------------------- the queue

  /** The socket as its user sees it; `stuck` says that udp_input is still copying and will never end. */
  datatype Sock = Sock(queue: Bytes, error: int, fromPort: nat, stuck: bool)

  /** udp_input */
  function Arrive(s: Sock, p: Packet, e: Ends): Sock
    requires PacketOk(p)
  {
    if s.stuck || !ForUs(p, e) then s
    else if RunsOn(p, e) then s.(stuck := true, fromPort := Be16At(p.d, 0))
    else if |s.queue| + |Payload(p)| > SIZE then s.(error := OVERFLOW, fromPort := Be16At(p.d, 0))
    else s.(queue := s.queue + Payload(p), fromPort := Be16At(p.d, 0))
  }

  predicate PacketsOk(ps: seq<Packet>) {
    forall i :: 0 <= i < |ps| ==> PacketOk(ps[i])
  }

  /** One enet_poll: all the packets that have come in. */
  function Poll(s: Sock, ps: seq<Packet>, e: Ends): Sock
    requires PacketsOk(ps)
    decreases |ps|
  {
    if ps == [] then s else Poll(Arrive(s, ps[0], e), ps[1..], e)
  }

  lemma StuckStays(s: Sock, p: Packet, e: Ends)
    requires PacketOk(p)
    ensures s.stuck ==> Arrive(s, p, e) == s
  {
  }

  lemma {:induction false} PollStuck(s: Sock, ps: seq<Packet>, e: Ends)
    requires PacketsOk(ps) && s.stuck
    ensures Poll(s, ps, e) == s
    decreases |ps|
  {
    if ps != [] { PollStuck(s, ps[1..], e); }
  }

  predicate PollsOk(polls: seq<seq<Packet>>) {
    forall i :: 0 <= i < |polls| ==> PacketsOk(polls[i])
  }

  /** The waiting loop of udp_recvfrom: one poll after another until there is data, an error, or the time is up. */
  function Wait(s: Sock, polls: seq<seq<Packet>>, e: Ends): Sock
    requires PollsOk(polls)
    decreases |polls|
  {
    if s.stuck || s.queue != [] || polls == [] then s
    else
      var t := Poll(s, polls[0], e);
      if t.error < 0 || t.queue != [] then t else Wait(t, polls[1..], e)
  }

  /** udp_recvfrom gives up with the error code: it had to wait, and the code is set after a poll. */
  predicate Failed(s: Sock, polls: seq<seq<Packet>>, e: Ends)
    requires PollsOk(polls)
  {
    s.queue == [] && polls != [] && Wait(s, polls, e).error < 0 && !Wait(s, polls, e).stuck
  }

  // ---------------------------------------------------------------- the ring

  /** The pointer after the next byte. */
  function Next(p: nat): (q: nat)
    requires p < SIZE
    ensures q < SIZE && q == (p + 1) % SIZE
  {
    if p + 1 >= SIZE then 0 else p + 1
  }

  /** Where the k-th byte behind a pointer lies. */
  function Slot(out: nat, k: nat): (p: nat)
    requires out < SIZE && k <= SIZE
    ensures p < SIZE
  {
    if out + k < SIZE then out + k else out + k - SIZE
  }

  /** The ring holds these bytes, from `out` on. */
  ghost predicate Holds(b: Bytes, out: nat, queue: Bytes) {
    |b| == SIZE && out < SIZE && |queue| <= SIZE && forall k :: 0 <= k < |queue| ==> b[Slot(out, k)] == queue[k]
  }

  lemma HoldsShape(b: Bytes, out: nat, queue: Bytes)
    requires Holds(b, out, queue)
    ensures |b| == SIZE && out < SIZE && |queue| <= SIZE
  {
  }

  lemma PutOne(b: Bytes, out: nat, queue: Bytes, c: byte)
    requires Holds(b, out, queue) && |queue| < SIZE
    ensures Holds(b[Slot(out, |queue|) := c], out, queue + [c])
    ensures Next(Slot(out, |queue|)) == Slot(out, |queue| + 1)
  {
    forall k | 0 <= k < |queue| ensures Slot(out, k) != Slot(out, |queue|) {
    }
  }

  lemma TakeOne(b: Bytes, out: nat, queue: Bytes)
    requires Holds(b, out, queue) && queue != []
    ensures b[out] == queue[0] && Holds(b, Next(out), queue[1..])
    ensures Slot(out, |queue|) == Slot(Next(out), |queue| - 1)
  {
    assert Slot(out, 0) == out;
    forall k | 0 <= k < |queue| - 1 ensures Slot(Next(out), k) == Slot(out, k + 1) {
    }
  }

  /** Where the k-th byte from a slot on lies, however many times round. */
  function Place(from: nat, k: nat): (p: nat)
    ensures p < SIZE
  {
    (from + k) % SIZE
  }

  /** A copying loop that has gone n rounds, from slot `from` on: the ring holds the last bytes it has copied. */
  ghost predicate Overrun(b: Bytes, from: nat, data: Bytes, n: nat) {
    && |b| == SIZE && from < SIZE && n <= |data|
    && forall j :: 0 <= j < n && n <= j + SIZE ==> b[Place(from, j)] == data[j]
  }

  lemma OverrunStep(b: Bytes, from: nat, data: Bytes, n: nat)
    requires Overrun(b, from, data, n) && n < |data|
    ensures Overrun(b[Place(from, n) := data[n]], from, data, n + 1)
    ensures Next(Place(from, n)) == Place(from, n + 1)
  {
    forall j | 0 <= j < n && n < j + SIZE ensures Place(from, j) != Place(from, n) {
      RestsApart(from + j, n - j);
    }
    RestNext(from + n);
  }

  lemma RestsApart(x: nat, d: nat)
    requires 0 < d < SIZE
    ensures x % SIZE != (x + d) % SIZE
  {
  }

  lemma RestNext(x: nat)
    ensures (x + 1) % SIZE == (x % SIZE + 1) % SIZE
  {
  }

  lemma OverrunStarts(b: Bytes, from: nat, data: Bytes)
    requires |b| == SIZE && from < SIZE
    ensures Overrun(b, from, data, 0) && from == Place(from, 0)
  {
  }

  /** The ways out of udp_input; from the last one there is none. */
  datatype Exit = BadChecksum | NotOurs | Overflow | Copied | Runaway

  class Socket {
    const buf: array<byte>           // buf_start_p up to buf_end_p
    const peer: Address              // from_ip
    const me: Address                // what sys_get_ip_addr returns
    var bufIn: nat                   // buf_in_p
    var bufOut: nat                  // buf_out_p
    var dataSize: nat
    var errorCode: int
    var fromPort: nat
    var listenPort: nat
    var stuck: bool                  // udp_input has not come back
    ghost var queue: Bytes

    ghost predicate Valid()
      reads this, buf
    {
      buf.Length == SIZE && (!stuck ==> InOrder())
    }

    ghost predicate InOrder()
      reads this, buf
    {
      Holds(buf[..], bufOut, queue) && dataSize == |queue| && bufIn == Slot(bufOut, dataSize)
    }

    ghost function State(): Sock
      reads this
    {
      Sock(queue, errorCode, fromPort, stuck)
    }

    ghost function Listening(): Ends
      reads this
    {
      Ends(peer, me, listenPort)
    }

    /** udp_socket */
    constructor (peer: Address, me: Address)
      ensures Valid() && State() == Sock([], 0, 0, false) && Listening() == Ends(peer, me, 0) && fresh(buf)
    {
      this.peer, this.me := peer, me;
      stuck := false;
      buf := new byte[SIZE];
      bufIn, bufOut, dataSize, errorCode, fromPort, listenPort := 0, 0, 0, 0, 0, 0;
      queue := [];
    }

    /** The copying loop of udp_input, `data` being memory from the payload on.  From a length that is not negative it
        counts down to zero and the bytes are in the queue.  From a negative one it counts away from zero: with all of
        that memory run through the ring, it has not ended. */
    method Put(data: Bytes, len: int) returns (left: int)
      requires InOrder() && len <= |data| && dataSize + len <= SIZE
      modifies `bufIn, `dataSize, `queue, buf
      ensures 0 <= len ==> left == 0 && InOrder() && queue == old(queue) + data[..len]
      ensures len < 0 ==> left == len - |data| && queue == old(queue) && dataSize == old(dataSize) + |data|
                          && Overrun(buf[..], old(bufIn), data, |data|)
    {
      hide Holds, Slot, Next, Overrun, Place;
      HoldsShape(buf[..], bufOut, queue);
      left := len;
      var i := 0;
      ghost var from := bufIn;
      OverrunStarts(buf[..], from, data);
      while left != 0 && i < |data|
        invariant i <= |data| && left == len - i && buf.Length == SIZE && dataSize == old(dataSize) + i
        invariant 0 <= len ==> 0 <= left && InOrder() && queue == old(queue) + data[..i]
        invariant len < 0 ==> queue == old(queue) && Overrun(buf[..], from, data, i) && bufIn == Place(from, i)
        decreases |data| - i
      {
        ghost var b := buf[..];
        if 0 <= len {
          HoldsShape(b, bufOut, queue);
          PutOne(b, bufOut, queue, data[i]);
          queue := queue + [data[i]];
        } else {
          OverrunStep(b, from, data, i);
        }
        buf[bufIn] := data[i];
        assert buf[..] == b[bufIn := data[i]];
        bufIn := Next(bufIn);
        left := left - 1;
        dataSize := dataSize + 1;
        i := i + 1;
      }
    }

    /** The copying loop of udp_recvfrom. */
    method Take(maxSize: nat) returns (out: Bytes)
      requires InOrder()
      modifies `bufOut, `dataSize, `queue
      ensures InOrder() && out + queue == old(queue) && |out| == Min(maxSize, |old(queue)|)
    {
      hide Holds, Slot, Next;
      out := [];
      var left := maxSize;
      while dataSize > 0 && left > 0
        invariant InOrder() && out + queue == old(queue) && |out| + left == maxSize
        decreases left
      {
        ghost var q := queue;
        HoldsShape(buf[..], bufOut, queue);
        TakeOne(buf[..], bufOut, queue);
        out := out + [buf[bufOut]];
        queue := queue[1..];
        bufOut := Next(bufOut);
        left := left - 1;
        dataSize := dataSize - 1;
        assert [q[0]] + queue == q;
      }
    }

    /** udp_input, for a packet that ip_input hands on, up to the release of its buffer. */
    method Input(p: Packet) returns (exit: Exit)
      requires Valid() && !stuck && PacketOk(p)
      modifies this, buf
      ensures Valid() && State() == Arrive(old(State()), p, Listening()) && listenPort == old(listenPort)
      ensures match exit
        case BadChecksum => !Checks(p.d, p.src, p.dst)
        case NotOurs => Checks(p.d, p.src, p.dst) && !ForUs(p, Listening())
        case Overflow => ForUs(p, Listening()) && |old(queue)| + |Payload(p)| > SIZE
        case Copied => ForUs(p, Listening()) && Framed(p.d) && queue == old(queue) + Payload(p)
        case Runaway =>
          RunsOn(p, Listening()) && Overrun(buf[..], old(bufIn), p.d[UDP_HDR_SIZE..], |p.d| - UDP_HDR_SIZE)
      ensures exit.Runaway? <==> stuck
    {
      hide Checks, Holds, Slot, Overrun;
      HoldsShape(buf[..], bufOut, queue);
      var ok := TestChecksum(p.d, p.src, p.dst);
      if !ok {
        return BadChecksum;
      }
      var len := Length(p.d) - UDP_HDR_SIZE;
      if listenPort == Be16At(p.d, 2) && peer == p.src && p.dst == me {
        fromPort := Be16At(p.d, 0);
        if dataSize + len > SIZE {
          errorCode := OVERFLOW;
          return Overflow;
        } else {
          var left := Put(p.d[UDP_HDR_SIZE..], len);
          if left != 0 {
            stuck := true;
            return Runaway;
          }
          return Copied;
        }
      }
      return NotOurs;
    }

    /** enet_poll, as far as this socket is concerned. */
    method PollOnce(ps: seq<Packet>)
      requires Valid() && !stuck && PacketsOk(ps)
      modifies this, buf
      ensures Valid() && State() == Poll(old(State()), ps, Listening()) && listenPort == old(listenPort)
    {
      hide PacketOk, Arrive, InOrder;
      var i := 0;
      assert ps[0..] == ps;
      while i < |ps| && !stuck
        invariant i <= |ps| && Valid() && listenPort == old(listenPort)
        invariant Poll(State(), ps[i..], Listening()) == Poll(old(State()), ps, Listening())
      {
        assert ps[i..][0] == ps[i] && ps[i..][1..] == ps[i + 1..];
        var exit := Input(ps[i]);
        i := i + 1;
      }
      if stuck { PollStuck(State(), ps[i..], Listening()); } else { assert ps[i..] == []; }
    }

    /** udp_recvfrom: `polls` are the packets that come in while it waits; with the last of them the time is up.  When
        the socket is stuck afterwards the call has not come back. */
    method RecvFrom(port: nat, maxSize: nat, polls: seq<seq<Packet>>) returns (r: int, serverPort: nat, out: Bytes)
      requires Valid() && !stuck && PollsOk(polls) && polls != []
      modifies this, buf
      ensures Valid() && listenPort == port
      ensures var e := Ends(peer, me, port); var s := Wait(old(State()), polls, e);
        if s.stuck then State() == s
        else if Failed(old(State()), polls, e) then State() == s && r == s.error && out == []
        else
          && r == |out| == Min(maxSize, |s.queue|) && out + queue == s.queue
          && State() == s.(queue := queue) && serverPort == s.fromPort
    {
      hide PacketsOk, Poll, Arrive, Holds, Slot;
      listenPort := port;
      var i := 0;
      assert polls[0..] == polls;
      while dataSize == 0 && i < |polls|
        invariant i <= |polls| && Valid() && listenPort == port
        invariant Wait(State(), polls[i..], Listening()) == Wait(old(State()), polls, Listening())
        invariant i == 0 ==> State() == old(State())
        invariant i > 0 ==> old(queue) == [] && errorCode >= 0
        invariant !stuck
      {
        assert polls[i..][0] == polls[i] && polls[i..][1..] == polls[i + 1..];
        PollOnce(polls[i]);
        i := i + 1;
        if stuck {
          return 0, 0, [];
        }
        if errorCode < 0 {
          return errorCode, 0, [];
        }
        if dataSize > 0 {
          break;
        }
      }
      assert i == |polls| ==> polls[i..] == [];
      serverPort := fromPort;
      out := Take(maxSize);
      r := |out|;
    }
  }

  // ---------------------------------------------------------------- histories

  datatype Event = Incoming(p: Packet) | Listen(port: nat) | Receive(maxSize: nat)

  predicate EventsOk(es: seq<Event>) {
    forall i :: 0 <= i < |es| ==> es[i].Incoming? ==> PacketOk(es[i].p)
  }

  /** The socket after a series of packets and receives, the port it listens on, and the bytes handed out. */
  datatype Outcome = Outcome(s: Sock, port: nat, delivered: Bytes)

  function Step(o: Outcome, ev: Event, peer: Address, me: Address): Outcome
    requires ev.Incoming? ==> PacketOk(ev.p)
  {
    if o.s.stuck then o
    else match ev
    case Incoming(p) => o.(s := Arrive(o.s, p, Ends(peer, me, o.port)))
    case Listen(port) => o.(port := port)
    case Receive(maxSize) =>
      var n := Min(maxSize, |o.s.queue|);
      o.(s := o.s.(queue := o.s.queue[n..]), delivered := o.delivered + o.s.queue[..n])
  }

  function Run(o: Outcome, es: seq<Event>, peer: Address, me: Address): Outcome
    requires EventsOk(es)
    decreases |es|
  {
    if es == [] then o else Run(Step(o, es[0], peer, me), es[1..], peer, me)
  }

  /** The payloads for the socket, one after the other: all of them, or only those that do not overflow it. */
  function Payloads(o: Outcome, es: seq<Event>, peer: Address, me: Address, all: bool): Bytes
    requires EventsOk(es)
    decreases |es|
  {
    if es == [] then []
    else
      (if es[0].Incoming? && !o.s.stuck && ForUs(es[0].p, Ends(peer, me, o.port)) && (all || !Overflows(o, es[0].p))
       then Payload(es[0].p) else [])
      + Payloads(Step(o, es[0], peer, me), es[1..], peer, me, all)
  }

  predicate Overflows(o: Outcome, p: Packet)
    requires PacketOk(p)
  {
    |o.s.queue| + |Payload(p)| > SIZE
  }

  /** Over any series of packets and receives, what has been handed out followed by what is still there is what was
      there followed by the payloads accepted, each of them whole and in order: the ring is a queue with a bound. */
  lemma {:induction false} QueueConserved(o: Outcome, es: seq<Event>, peer: Address, me: Address)
    requires EventsOk(es)
    ensures var f := Run(o, es, peer, me);
      f.delivered + f.s.queue == o.delivered + o.s.queue + Payloads(o, es, peer, me, false)
    ensures |o.s.queue| <= SIZE ==> |Run(o, es, peer, me).s.queue| <= SIZE
    decreases |es|
  {
    hide ForUs, Payload, PacketOk;
    if es != [] {
      var n := Step(o, es[0], peer, me);
      QueueConserved(n, es[1..], peer, me);
      var rest := Payloads(n, es[1..], peer, me, false);
      match es[0] {
        case Incoming(p) =>
          if ForUs(p, Ends(peer, me, o.port)) && !Overflows(o, p) {
            Assoc(o.delivered, o.s.queue, Payload(p), rest);
          } else {
            assert [] + rest == rest;
          }
        case Listen(_) =>
          assert [] + rest == rest;
        case Receive(maxSize) =>
          var k := Min(maxSize, |o.s.queue|);
          assert o.s.queue == o.s.queue[..k] + o.s.queue[k..];
          assert n.delivered + n.s.queue == o.delivered + o.s.queue;
          assert [] + rest == rest;
      }
    }
  }

  lemma Assoc(a: Bytes, b: Bytes, c: Bytes, d: Bytes)
    ensures a + (b + c) + d == a + b + (c + d)
  {
  }

  /** Nothing is lost exactly when the error code has not been set. */
  lemma {:induction false} LossSetsTheCode(o: Outcome, es: seq<Event>, peer: Address, me: Address)
    requires EventsOk(es)
    ensures |Payloads(o, es, peer, me, false)| <= |Payloads(o, es, peer, me, true)|
    ensures o.s.error == 0 && |o.s.queue| <= SIZE ==>
              (Run(o, es, peer, me).s.error == 0 <==>
               Payloads(o, es, peer, me, false) == Payloads(o, es, peer, me, true))
    ensures o.s.error != 0 ==> Run(o, es, peer, me).s.error != 0
    decreases |es|
  {
    hide ForUs, Payload, PacketOk;
    if es != [] {
      var n := Step(o, es[0], peer, me);
      LossSetsTheCode(n, es[1..], peer, me);
      var kept, all := Payloads(n, es[1..], peer, me, false), Payloads(n, es[1..], peer, me, true);
      if es[0].Incoming? && !o.s.stuck && ForUs(es[0].p, Ends(peer, me, o.port)) && !Overflows(o, es[0].p) {
        SameTail(Payload(es[0].p), kept, all);
      } else {
        assert [] + kept == kept && [] + all == all;
      }
    }
  }

  lemma SameTail(a: Bytes, b: Bytes, c: Bytes)
    ensures a + b == a + c <==> b == c
  {
    if a + b == a + c {
      assert b == (a + b)[|a|..] && c == (a + c)[|a|..];
    }
  }

  /** The code is never cleared: once set, every receive that has to wait fails at its first poll, whatever comes in,
      unless it does not come back from it; what did come in stays for the next. */
  lemma CodeIsForEver(s: Sock, polls: seq<seq<Packet>>, e: Ends)
    requires PollsOk(polls) && polls != [] && s.error < 0 && s.queue == [] && !s.stuck
    ensures Wait(s, polls, e) == Poll(s, polls[0], e)
    ensures Failed(s, polls, e) <==> !Poll(s, polls[0], e).stuck
  {
    PollKeepsCode(s, polls[0], e);
  }

  lemma {:induction false} PollKeepsCode(s: Sock, ps: seq<Packet>, e: Ends)
    requires PacketsOk(ps) && s.error < 0
    ensures Poll(s, ps, e).error < 0
    decreases |ps|
  {
    if ps != [] {
      PollKeepsCode(Arrive(s, ps[0], e), ps[1..], e);
    }
  }

  // ---------------------------------------------------------------- a length field below 8

  /** udp_input comes back from all of a row of packets exactly when none of them is for the socket, passes the checksum
      and has a length field below the size of the header. */
  lemma {:induction false} StuckIff(s: Sock, ps: seq<Packet>, e: Ends)
    requires PacketsOk(ps)
    ensures Poll(s, ps, e).stuck <==> s.stuck || exists k :: 0 <= k < |ps| && RunsOn(ps[k], e)
    decreases |ps|
  {
    hide ForUs, Payload, PacketOk;
    if ps != [] {
      var t := Arrive(s, ps[0], e);
      StuckIff(t, ps[1..], e);
      assert t.stuck <==> s.stuck || RunsOn(ps[0], e);
      forall k | 0 <= k < |ps[1..]| ensures ps[1..][k] == ps[k + 1] {
      }
      if k :| 0 <= k < |ps| && RunsOn(ps[k], e) && k > 0 {
        assert RunsOn(ps[1..][k - 1], e);
      }
    }
  }

  /** A packet of this kind: the length field is 4, and the two ports make up for the rest of the sum. */
  function ShortPacket(): (p: Packet)
    ensures PacketOk(p)
  {
    Packet([192, 168, 0, 1], [192, 168, 0, 2], [0x7E, 0x51, 0, 69, 0, 4, 0, 0])
  }

  lemma ShortRunsOn()
    ensures RunsOn(ShortPacket(), Ends([192, 168, 0, 1], [192, 168, 0, 2], 69))
  {
    hide Csum, LeSum;
    var p := ShortPacket();
    var pseudo, d := Pseudo(p.src, p.dst, p.d[4..6]), p.d[..4];
    assert Normal(p.d)[..Length(p.d)] == d == d[0..];
    WordsStep(d, 0);
    WordsStep(d, 2);
    WordsEnd(d, 4);
    SixWords(pseudo);
    ZeroIff(d, LeSum(pseudo));
    hide Checks;
    PassesIff(p.d, p.src, p.dst);
  }

  // ---------------------------------------------------------------- a call of udp_recvfrom as such a series

  /** The packets of the polls that a waiting receive makes. */
  function Seen(s: Sock, polls: seq<seq<Packet>>, e: Ends): (ps: seq<Packet>)
    requires PollsOk(polls)
    ensures PacketsOk(ps)
    decreases |polls|
  {
    if s.stuck || s.queue != [] || polls == [] then []
    else
      var t := Poll(s, polls[0], e);
      polls[0] + if t.error < 0 || t.queue != [] then [] else Seen(t, polls[1..], e)
  }

  function Incomings(ps: seq<Packet>): (es: seq<Event>)
    requires PacketsOk(ps)
    ensures EventsOk(es)
  {
    if ps == [] then [] else [Incoming(ps[0])] + Incomings(ps[1..])
  }

  lemma {:induction false} PollConcat(s: Sock, a: seq<Packet>, b: seq<Packet>, e: Ends)
    requires PacketsOk(a) && PacketsOk(b)
    ensures Poll(s, a + b, e) == Poll(Poll(s, a, e), b, e)
    decreases |a|
  {
    hide PacketOk, Arrive;
    if a == [] {
      assert a + b == b;
    } else {
      assert (a + b)[0] == a[0] && (a + b)[1..] == a[1..] + b;
      PollConcat(Arrive(s, a[0], e), a[1..], b, e);
    }
  }

  lemma {:induction false} WaitIsPoll(s: Sock, polls: seq<seq<Packet>>, e: Ends)
    requires PollsOk(polls)
    ensures Wait(s, polls, e) == Poll(s, Seen(s, polls, e), e)
    decreases |polls|
  {
    hide Poll, PacketOk;
    if s.stuck || s.queue != [] || polls == [] {
      PollNothing(s, e);
    } else {
      var t := Poll(s, polls[0], e);
      if t.error < 0 || t.queue != [] {
        assert polls[0] + [] == polls[0];
      } else {
        WaitIsPoll(t, polls[1..], e);
        PollConcat(s, polls[0], Seen(t, polls[1..], e), e);
      }
    }
  }

  lemma PollNothing(s: Sock, e: Ends)
    ensures Poll(s, [], e) == s
  {
  }

  lemma {:induction false} PollIsRun(o: Outcome, ps: seq<Packet>, peer: Address, me: Address)
    requires PacketsOk(ps)
    ensures Run(o, Incomings(ps), peer, me) == o.(s := Poll(o.s, ps, Ends(peer, me, o.port)))
    decreases |ps|
  {
    hide Arrive, PacketOk;
    if ps != [] {
      var es := Incomings(ps);
      assert es[0] == Incoming(ps[0]) && es[1..] == Incomings(ps[1..]);
      StuckStays(o.s, ps[0], Ends(peer, me, o.port));
      PollIsRun(o.(s := Arrive(o.s, ps[0], Ends(peer, me, o.port))), ps[1..], peer, me);
    }
  }
}
