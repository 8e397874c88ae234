/** src/net/enet.c, ip.c, icmp.c, arp.c and udp.c: how a received buffer makes its way from the receive queue back to
    the free queue.  Answers are written into the buffer that the request came in. */
module NetInput {
  import opened ByteData
  import opened InetChecksum
  import opened NetBuffers
  import opened NetFrames
  import UdpDatagram
  import UdpSocket

  lemma UpdatedParts(d: Bytes, at: nat, piece: Bytes)
    requires at + |piece| <= |d|
    ensures var c := Updated(d, at, piece);
      c[..at] == d[..at] && c[at..at + |piece|] == piece && c[at + |piece|..] == d[at + |piece|..]
  {
  }

  /** One line of the ARP table. */
  datatype Entry = Entry(used: bool, ip: Address, mac: Ether)

  const ARP_LINES := 4               // ARP_MAX_CACHE_NUM
  const NO_ENTRY := Entry(false, [0, 0, 0, 0], [0, 0, 0, 0, 0, 0])

  /** The table after an answer has been heard: the line of the address, or the first free one, or unchanged when
      full. */
  function Learn(table: seq<Entry>, ip: Address, mac: Ether): (t: seq<Entry>)
    ensures |t| == |table|
  {
    var i := LineOf(table, ip);
    var j := FreeLine(table);
    if i < |table| then table[i := table[i].(mac := mac)]
    else if j < |table| then table[j := Entry(true, ip, mac)]
    else table
  }

  function LineOf(table: seq<Entry>, ip: Address): (i: nat)
    ensures i <= |table|
    ensures i < |table| ==> table[i].used && table[i].ip == ip
    ensures forall k :: 0 <= k < i ==> !(table[k].used && table[k].ip == ip)
  {
    if table == [] || (table[0].used && table[0].ip == ip) then 0 else 1 + LineOf(table[1..], ip)
  }

  function FreeLine(table: seq<Entry>): (i: nat)
    ensures i <= |table|
    ensures i < |table| ==> !table[i].used
    ensures forall k :: 0 <= k < i ==> table[k].used
  {
    if table == [] || !table[0].used then 0 else 1 + FreeLine(table[1..])
  }

  /** Looking an address up. */
  function Resolve(table: seq<Entry>, ip: Address): Option<Ether> {
    var i := LineOf(table, ip);
    if i < |table| then Some(table[i].mac) else None
  }

  /** What has been learnt is found, and no other address is resolved differently, as long as there is room. */
  lemma LearntIsFound(table: seq<Entry>, ip: Address, mac: Ether, other: Address)
    requires LineOf(table, ip) < |table| || FreeLine(table) < |table|
    ensures Resolve(Learn(table, ip, mac), other) == if other == ip then Some(mac) else Resolve(table, other)
  {
    var t := Learn(table, ip, mac);
    var i, j := LineOf(table, ip), FreeLine(table);
    var at := if i < |table| then i else j;
    assert t == table[at := Entry(true, ip, mac)];
    OneLineChanged(table, t, at, ip, mac, other);
  }

  lemma OneLineChanged(table: seq<Entry>, t: seq<Entry>, at: nat, ip: Address, mac: Ether, other: Address)
    requires at < |table| && t == table[at := Entry(true, ip, mac)] && !(table[at].used && table[at].ip != ip)
    requires LineOf(table, ip) == at || LineOf(table, ip) == |table|
    ensures LineOf(t, other) == if other == ip then at else LineOf(table, other)
  {
    hide LineOf;
    var k, m := LineOf(t, other), LineOf(table, other);
    assert forall n :: 0 <= n < |t| && n != at ==> t[n] == table[n];
  }

  // ---------------------------------------------------------------- what a frame does

  /** The data area of a buffer, and how much of it is the frame. */
  datatype Frame = Frame(d: Bytes, len: nat)

  predicate FrameOk(f: Frame) { BufferOk(f.d, f.len) }

  /** What a frame can change besides the place of its buffer: the frames given to the driver, the socket, the ARP
      table, the ping listener's argument, and the identification of the next packet. */
  datatype Side = Side(sent: seq<Bytes>, sock: UdpSocket.Sock, table: seq<Entry>, pingArg: int, ident: nat)

  /** The machine a frame comes to, whether a ping and an ARP listener are set, and whom the socket listens to. */
  datatype Station = Station(host: Host, pinging: bool, resolving: bool, peer: Address, port: nat) {
    function Listening(): UdpSocket.Ends { UdpSocket.Ends(peer, host.ip, port) }
  }

  /** Memory behind a buffer, as far as the length field of a datagram can reach. */
  type Memory = b: Bytes | |b| == ONES witness seq(ONES, _ => 0)

  /** What working on a frame finds around it: whether the driver can send, and the memory behind the buffer. */
  datatype Env = Env(up: bool, behind: Memory)

  function Send(s: Side, frame: Bytes, up: bool): Side { if up then s.(sent := s.sent + [frame]) else s }

  function HearPing(s: Side, d: Bytes): Side
    requires |d| >= 40
  {
    s.(pingArg := if s.pingArg == Be16At(d, 38) then 0 else -1)
  }

  function IcmpEffect(s: Side, f: Frame, at: Station, up: bool): Side
    requires FrameOk(f) && f.len >= IP_PKT && s.ident <= ONES
  {
    var v := IcmpVerdict(f.d, f.len, at.host, s.ident, at.pinging);
    if v.Answer? then Send(s, v.frame, up).(ident := (s.ident + 1) % 0x1_0000)
    else if v.Listener? then HearPing(s, f.d)
    else s
  }

  /** What udp_input finds in a frame. */
  function PacketOf(f: Frame, behind: Memory): (p: UdpDatagram.Packet)
    requires FrameOk(f)
    ensures UdpSocket.PacketOk(p)
  {
    UdpDatagram.Packet(f.d[26..30], f.d[30..34], f.d[IP_PKT..] + behind)
  }

  function IpEffect(s: Side, f: Frame, at: Station, env: Env): Side
    requires FrameOk(f) && s.ident <= ONES
  {
    var v := IpVerdict(f.d, f.len, at.host, s.ident, at.pinging);
    if v.Answer? then Send(s, v.frame, env.up).(ident := (s.ident + 1) % 0x1_0000)
    else if v.Listener? then HearPing(s, f.d)
    else if v.Socket? then s.(sock := UdpSocket.Arrive(s.sock, PacketOf(f, env.behind), at.Listening()))
    else s
  }

  lemma IpEffectIs(s: Side, f: Frame, at: Station, env: Env)
    requires FrameOk(f) && s.ident <= ONES
    ensures var r := IpEffect(s, f, at, env);
      if !IpWanted(f.d, f.len, at.host) then r == s
      else if f.d[23] == 1 then r == IcmpEffect(s, f, at, env.up)
      else if f.d[23] == 17 then
        r == s.(sock := UdpSocket.Arrive(s.sock, PacketOf(f, env.behind), at.Listening()))
      else r == s
  {
    hide IpWanted, IcmpVerdict, HearPing, Send, PacketOf, UdpSocket.Arrive;
  }

  function ArpEffect(s: Side, f: Frame, at: Station, up: bool): Side
    requires FrameOk(f)
  {
    var v := ArpVerdict(f.d, f.len, at.host, at.resolving);
    if v.Answer? then Send(s, v.frame, up)
    else if v.Listener? then s.(table := Learn(s.table, f.d[28..32], f.d[22..28]))
    else s
  }

  /** The dispatch of enet_poll. */
  function Effect(s: Side, f: Frame, at: Station, env: Env): (r: Side)
    requires FrameOk(f) && s.ident <= ONES
    ensures r.ident <= ONES
  {
    if Be16At(f.d, 12) == 0x800 then IpEffect(s, f, at, env)
    else if Be16At(f.d, 12) == 0x806 then ArpEffect(s, f, at, env.up)
    else s
  }

  /** All frames, one after the other, unless udp_input does not come back from one; envs[k] is what working on frame k
      finds. */
  function Effects(s: Side, fs: seq<Frame>, at: Station, envs: seq<Env>): (r: Side)
    requires AllFrames(fs) && s.ident <= ONES && |fs| <= |envs|
    ensures r.ident <= ONES
    decreases |fs|
  {
    if fs == [] || s.sock.stuck then s else Effects(Effect(s, fs[0], at, envs[0]), fs[1..], at, envs[1..])
  }

  const NETBUF := DATA + 32            // NETBUF_SIZE, a buffer with its header

  /** The arrivals that find a free buffer, when there are `room` of them. */
  function Kept(arrivals: seq<Bytes>, room: nat): seq<Bytes> {
    if arrivals == [] then []
    else if Dropped(arrivals[0]) || room == 0 then Kept(arrivals[1..], room)
    else [arrivals[0]] + Kept(arrivals[1..], room - 1)
  }

  /** The size test of enet_input. */
  predicate Dropped(frame: Bytes) { |frame| > NETBUF || |frame| < ETH_HDR }

  /** What is copied past the end of the buffer that a frame is put into. */
  function Spill(frame: Bytes): Bytes {
    if |frame| <= DATA then [] else frame[DATA..]
  }

  /** Of the arrivals that find a free buffer, none is copied past the end of it. */
  predicate Fitting(arrivals: seq<Bytes>, room: nat) {
    forall k :: 0 <= k < |Kept(arrivals, room)| ==> Spill(Kept(arrivals, room)[k]) == []
  }

  // ---------------------------------------------------------------- the code

  class Net {
    const pool: Pool
    const host: Host
    var ident: nat                     // ip_ident
    var pinging: bool                  // icmp_listen_handler is set
    var pingArg: int                   // what its argument points to
    var resolving: bool                // arp_listen_handler is set
    var table: seq<Entry>              // arp_cache_tbl
    var sent: seq<Bytes>               // frames given to the driver
    const sock: UdpSocket.Socket       // udp_socks, of which there is one

    constructor (pool: Pool, host: Host, sock: UdpSocket.Socket)
      requires pool.Valid() && sock.Valid() && sock.me == host.ip
      ensures Valid() && this.pool == pool && this.host == host && this.sock == sock && sent == []
      ensures table == seq(ARP_LINES, _ => NO_ENTRY)
    {
      this.pool, this.host, this.sock := pool, host, sock;
      ident, pinging, pingArg, resolving, sent := 0, false, 0, false, [];
      table := seq(ARP_LINES, _ => NO_ENTRY);
    }

    ghost predicate Valid()
      reads this, pool, pool.next, pool.len, pool.data, sock, sock.buf
    {
      pool.Valid() && ident <= ONES && sock.Valid() && sock.me == host.ip
    }

    /** The buffer has gone from the caller's hands to the end of the free queue, once; no other buffer has moved or
        changed. */
    twostate predicate Released(b: int)
      requires old(Shaped()) && Shaped()
      reads this, pool, pool.data, pool.len
    {
      && pool.free == old(pool.free) + [b] && pool.received == old(pool.received)
          && pool.held == old(pool.held) - multiset{b}
      && forall x :: 0 <= x < NUM && x != b ==> pool.data[x] == old(pool.data[x]) && pool.len[x] == old(pool.len[x])
    }

    /** The work on the buffer is over and it has been released, or udp_input has not come back and still holds it. */
    twostate predicate Done(b: int)
      requires old(Shaped()) && Shaped()
      reads this, pool, pool.data, pool.len, sock
    {
      if !sock.stuck then Released(b)
      else
        && pool.free == old(pool.free) && pool.received == old(pool.received) && pool.held == old(pool.held)
        && forall x :: 0 <= x < NUM && x != b ==> pool.data[x] == old(pool.data[x]) && pool.len[x] == old(pool.len[x])
    }

    ghost predicate Shaped()
      reads this, pool, pool.data, pool.len
    {
      pool.Shaped()
    }

    ghost function State(): Side
      reads this, sock
    {
      Side(sent, sock.State(), table, pingArg, ident)
    }

    ghost function At(): Station
      reads this, sock
    {
      Station(host, pinging, resolving, sock.peer, sock.listenPort)
    }

    ghost function Content(b: int): (f: Frame)
      requires Valid() && 0 <= b < NUM
      reads this, pool, pool.next, pool.len, pool.data, sock, sock.buf
      ensures FrameOk(f)
    {
      Frame(pool.data[b], pool.len[b])
    }

    /** enet_send; `up` says whether the driver can take the frame. */
    method EnetSend(b: int, dest: Ether, etherType: nat, up: bool)
      requires Valid() && b in pool.held && 0 <= b < NUM && etherType <= ONES && pool.len[b] + ETH_HDR <= DATA
      modifies this`sent, pool, pool.next, pool.data
      ensures Valid() && Released(b)
      ensures State() == Send(old(State()),
                              dest + host.mac + Be16(etherType) + old(pool.data[b])[ETH_HDR..ETH_HDR + pool.len[b]], up)
    {
      hide IsQueue, OnceEach, UdpSocket.Socket.Valid;
      if up {
        var d := pool.data[b];
        var e := Updated(d, 6, host.mac);
        var f := Updated(e, 0, dest);
        EtherFrame(d, e, f, dest, host.mac, etherType, pool.len[b]);
        f := Updated(f, 12, Be16(etherType));
        pool.data[b] := f;
        sent := sent + [f[..pool.len[b] + ETH_HDR]];
      }
      pool.FreeBuf(b);
    }

    /** ip_output */
    method IpOutput(b: int, dst: Address, protocol: byte, dest: Ether, up: bool)
      requires Valid() && b in pool.held && 0 <= b < NUM && pool.len[b] + IP_PKT <= DATA
      modifies this`sent, this`ident, pool, pool.next, pool.data, pool.len
      ensures Valid() && Released(b)
      ensures var n := old(pool.len[b]);
        var frame := dest + host.mac + [8, 0] + IpHeader(n + IP_HDR, old(ident), protocol, host.ip, dst)
                     + old(pool.data[b])[IP_PKT..IP_PKT + n];
        State() == Send(old(State()), frame, up).(ident := (old(ident) + 1) % 0x1_0000)
    {
      hide IsQueue, OnceEach, Csum, Stored, UdpSocket.Socket.Valid;
      pool.len[b] := pool.len[b] + IP_HDR;
      var d := pool.data[b];
      var header := [0x45, 0] + Be16(pool.len[b]) + Be16(ident) + [0, 0, 64, protocol, 0, 0] + host.ip + dst;
      ident := (ident + 1) % 0x1_0000;
      var e := Updated(d, ETH_HDR, header);
      UpdatedParts(d, ETH_HDR, header);
      var cksum := IpCsum(e[ETH_HDR..IP_PKT], 0);
      var f := Stored(e, ETH_HDR + 10, cksum);
      HeaderWritten(d, e, f, header, pool.len[b] - IP_HDR);
      pool.data[b] := f;
      ghost var n := pool.len[b] - IP_HDR;
      Regroup(dest + host.mac + [8, 0], Signed(header, 10), d[IP_PKT..IP_PKT + n]);
      assert Be16(0x800) == [8, 0] && f[ETH_HDR..ETH_HDR + pool.len[b]] == f[ETH_HDR..IP_PKT + n];
      EnetSend(b, dest, 0x800, up);
    }

    /** icmp_ping_listener */
    method PingListener(b: int)
      requires Valid() && b in pool.held && 0 <= b < NUM
      modifies this`pingArg, pool, pool.next
      ensures Valid() && Released(b) && State() == HearPing(old(State()), old(pool.data[b]))
    {
      hide IsQueue, OnceEach, UdpSocket.Socket.Valid;
      var id := pingArg;
      if id != Be16At(pool.data[b], 38) {
        pingArg := -1;
        pool.FreeBuf(b);
        return;
      }
      pingArg := 0;
      pool.FreeBuf(b);
    }

    /** The branch of icmp_input for an echo request. */
    method AnswerEcho(b: int, up: bool)
      requires Valid() && b in pool.held && 0 <= b < NUM && pool.len[b] >= IP_PKT
      requires pool.data[b][34] == 8 && pool.data[b][35] == 0
      modifies this`sent, this`ident, pool, pool.next, pool.data, pool.len
      ensures Valid() && Released(b) && State() == IcmpEffect(old(State()), old(Content(b)), At(), up)
    {
      hide IsQueue, OnceEach, Csum, Stored, Updated, EchoMessage, EchoFrame, IpHeader, UdpSocket.Socket.Valid;
      var d, len := pool.data[b], pool.len[b] - ETH_HDR - IP_HDR;
      var cksum := IpCsum(d[34..34 + len], 0);
      if cksum != 0 {
        pool.FreeBuf(b);
        return;
      }
      assert IcmpVerdict(d, IP_PKT + len, host, ident, pinging).Answer?;
      var e := Updated(Updated(d, 34, [0]), 36, [0, 0]);
      cksum := IpCsum(e[34..34 + len], 0);
      var f := Stored(e, 36, cksum);
      EchoWritten(d, e, f, len, host, ident);
      pool.data[b] := f;
      pool.len[b] := len;
      IpOutput(b, d[26..30], 1, d[6..12], up);
    }

    /** icmp_input */
    method IcmpInput(b: int, up: bool)
      requires Valid() && b in pool.held && 0 <= b < NUM && pool.len[b] >= IP_PKT
      modifies this`sent, this`ident, this`pingArg, pool, pool.next, pool.data, pool.len
      ensures Valid() && Released(b) && State() == IcmpEffect(old(State()), old(Content(b)), At(), up)
    {
      hide IsQueue, OnceEach, Csum, EchoFrame, UdpSocket.Socket.Valid;
      var d := pool.data[b];
      if d[34] == 8 && d[35] == 0 {
        AnswerEcho(b, up);
        return;
      } else if d[34] == 0 {
        if pinging {
          PingListener(b);
          return;
        }
      }
      pool.FreeBuf(b);
    }

    /** arp_reply_listener */
    method ArpListener(b: int)
      requires Valid() && b in pool.held && 0 <= b < NUM
      modifies this`table, pool, pool.next
      ensures Valid() && Released(b)
      ensures var d := old(pool.data[b]); State() == old(State()).(table := Learn(old(table), d[28..32], d[22..28]))
    {
      hide IsQueue, OnceEach, LineOf, FreeLine, UdpSocket.Socket.Valid;
      var ip, mac := pool.data[b][28..32], pool.data[b][22..28];
      var hit, freeP := FindLines(ip);
      if hit < |table| {
        table := table[hit := table[hit].(mac := mac)];
      } else if freeP < |table| {
        table := table[freeP := Entry(true, ip, mac)];
      }
      pool.FreeBuf(b);
    }

    /** The loop over the table: the line of the address, and, when there is none, the first free line. */
    method FindLines(ip: Address) returns (hit: nat, freeP: nat)
      ensures hit == LineOf(table, ip) && (hit == |table| ==> freeP == FreeLine(table))
    {
      hide LineOf, FreeLine;
      hit, freeP := 0, |table|;
      assert table[0..] == table;
      while hit < |table|
        invariant hit <= |table| && freeP <= |table|
        invariant LineOf(table, ip) == hit + LineOf(table[hit..], ip)
        invariant freeP == |table| ==> FreeLine(table) == hit + FreeLine(table[hit..])
        invariant freeP < |table| ==> FreeLine(table) == freeP
      {
        TableStep(table, hit, ip);
        if table[hit].used {
          if ip == table[hit].ip {
            return;
          }
        } else if freeP == |table| {
          freeP := hit;
        }
        hit := hit + 1;
      }
      TableEnd(table[hit..], ip);
    }

    /** arp_input */
    method ArpInput(b: int, up: bool)
      requires Valid() && b in pool.held && 0 <= b < NUM
      modifies this`sent, this`table, pool, pool.next, pool.data, pool.len
      ensures Valid() && Released(b) && State() == ArpEffect(old(State()), old(Content(b)), At(), up)
    {
      hide IsQueue, OnceEach, Learn, UdpSocket.Socket.Valid;
      var d, len := pool.data[b], pool.len[b];
      if len < ARP_PKT || Be16At(d, 14) != 1 || Be16At(d, 16) != 0x800 {
        pool.FreeBuf(b);
        return;
      }
      if d[38..42] == host.ip {
        if Be16At(d, 20) == 1 {
          var e := Updated(d, 20, [0, 2]);
          e := Updated(e, 38, d[28..32]);
          e := Updated(e, 32, d[22..28]);
          e := Updated(e, 28, host.ip);
          e := Updated(e, 22, host.mac);
          ArpWritten(d, e, host);
          pool.data[b] := e;
          pool.len[b] := ARP_PKT - ETH_HDR;
          EnetSend(b, d[22..28], 0x806, up);
          return;
        } else if Be16At(d, 20) == 2 {
          if resolving {
            ArpListener(b);
            return;
          }
        }
      }
      pool.FreeBuf(b);
    }

    /** udp_input: all its exits release the buffer, and from the copying loop that does not end there is none. */
    method UdpInput(b: int, behind: Memory)
      requires Valid() && b in pool.held && 0 <= b < NUM && !sock.stuck
      modifies sock, sock.buf, pool, pool.next
      ensures Valid() && Done(b) && At() == old(At())
      ensures var p := PacketOf(old(Content(b)), behind);
        State() == old(State()).(sock := UdpSocket.Arrive(old(sock.State()), p, old(At()).Listening()))
    {
      hide IsQueue, OnceEach, UdpSocket.Socket.Valid, UdpSocket.Arrive, UdpSocket.Overrun, UdpDatagram.Checks;
      var d := pool.data[b];
      var exit := sock.Input(UdpDatagram.Packet(d[26..30], d[30..34], d[IP_PKT..] + behind));
      match exit {
        case Runaway =>
          return;
        case BadChecksum | NotOurs =>       // udp_input_end
          pool.FreeBuf(b);
        case Copied | Overflow =>
          pool.FreeBuf(b);
      }
    }

    /** ip_input */
    method IpInput(b: int, env: Env)
      requires Valid() && b in pool.held && 0 <= b < NUM && !sock.stuck
      modifies this`sent, this`ident, this`pingArg, sock, sock.buf, pool, pool.next, pool.data, pool.len
      ensures Valid() && Done(b) && At() == old(At())
      ensures State() == IpEffect(old(State()), old(Content(b)), old(At()), env)
    {
      hide IsQueue, OnceEach, Csum, IpEffect, IcmpEffect, UdpSocket.Socket.Valid, UdpSocket.Arrive, PacketOf;
      var d, len := pool.data[b], pool.len[b];
      IpEffectIs(State(), Content(b), At(), env);
      var ihl, version := d[14] % 16, d[14] / 16;
      if ihl < 5 || version != 4 || len < IP_PKT {
        pool.FreeBuf(b);
        return;
      }
      if (d[30..34] != BROADCAST && d[30..34] != host.ip) || d[20] / 32 % 2 != 0 {
        pool.FreeBuf(b);
        return;
      }
      var cksum := IpCsum(d[ETH_HDR..ETH_HDR + ihl * 4], 0);
      if cksum != 0 {
        pool.FreeBuf(b);
        return;
      }
      if d[23] == 1 {
        IcmpInput(b, env.up);
      } else if d[23] == 17 {
        UdpInput(b, env.behind);
      } else {
        pool.FreeBuf(b);
      }
    }

    /** What enet_poll does with the first buffer of the receive queue. */
    method Dispatch(b: int, env: Env)
      requires Valid() && b in pool.held && 0 <= b < NUM && !sock.stuck
      modifies this`sent, this`ident, this`pingArg, this`table, sock, sock.buf, pool, pool.next, pool.data, pool.len
      ensures Valid() && Done(b) && At() == old(At())
      ensures State() == Effect(old(State()), old(Content(b)), old(At()), env)
    {
      hide IsQueue, OnceEach, IpEffect, ArpEffect, UdpSocket.Socket.Valid;
      var etherType := Be16At(pool.data[b], 12);
      if etherType == 0x800 {
        IpInput(b, env);
      } else if etherType == 0x806 {
        ArpInput(b, env.up);
      } else {
        pool.FreeBuf(b);
      }
    }

    /** The frames that wait in the receive queue. */
    ghost function Queued(): (fs: seq<Frame>)
      requires Valid()
      reads this, pool, pool.next, pool.len, pool.data, sock, sock.buf
      ensures |fs| == |pool.received| && AllFrames(fs)
    {
      QueueIs(pool.rcvQ, pool.next[..], pool.received);
      FramesOf(pool.data[..], pool.len[..], pool.received)
    }

    /** The copy in enet_input: `rest` is what the data area keeps behind the frame. */
    method FillBuffer(b: int, frame: Bytes) returns (ghost rest: Bytes)
      requires Valid() && b in pool.held && 0 <= b < NUM && |frame| <= DATA
      modifies pool.data, pool.len
      ensures Valid() && Queued() == old(Queued()) && |frame + rest| == DATA
          && Content(b) == Frame(frame + rest, |frame|)
    {
      hide IsQueue, OnceEach, FramesOf, UdpSocket.Socket.Valid;
      HeldApart(pool.free, pool.received, pool.held, b);
      QueueIs(pool.rcvQ, pool.next[..], pool.received);
      ghost var data, len := pool.data[..], pool.len[..];
      rest := pool.data[b][|frame|..];
      pool.data[b] := frame + pool.data[b][|frame|..];
      pool.len[b] := |frame|;
      FramesSame(data, len, pool.data[..], pool.len[..], pool.received, b);
    }

    method Enqueue(b: int)
      requires Valid() && b in pool.held && 0 <= b < NUM
      modifies pool, pool.next
      ensures Valid() && pool.free == old(pool.free) && pool.held == old(pool.held) - multiset{b}
      ensures pool.received == old(pool.received) + [b] && Queued() == old(Queued()) + [old(Content(b))]
    {
      hide IsQueue, OnceEach, FramesOf, UdpSocket.Socket.Valid;
      QueueIs(pool.rcvQ, pool.next[..], pool.received);
      FramesAppend(pool.data[..], pool.len[..], pool.received, b);
      pool.PutRcvq(b);
    }

    method Allocate() returns (b: int)
      requires Valid()
      modifies pool
      ensures Valid() && pool.received == old(pool.received) && Queued() == old(Queued())
      ensures old(pool.free) == [] ==> b == NULL && pool.free == [] && pool.held == old(pool.held)
      ensures old(pool.free) != [] ==> b == old(pool.free)[0] && pool.free == old(pool.free)[1..]
                                       && pool.held == old(pool.held) + multiset{b} && 0 <= b < NUM
    {
      hide IsQueue, OnceEach, FramesOf, UdpSocket.Socket.Valid;
      b := pool.AllocBuf();
    }

    /** enet_input: a frame from the driver is copied into the first free buffer and queued, or lost.  A frame longer
        than a data area passes the size test; what does not fit, `spill`, is written behind the buffer, onto the next
        one's header, and the model follows the code no further. */
    method EnetInput(frame: Bytes) returns (spill: Bytes, ghost rest: Bytes)
      requires Valid()
      modifies pool, pool.next, pool.data, pool.len
      ensures Valid()
      ensures if Dropped(frame) || old(pool.free) == [] then
          && spill == [] && pool.held == old(pool.held) && pool.free == old(pool.free)
          && pool.received == old(pool.received) && Queued() == old(Queued())
        else if Spill(frame) == [] then
          && spill == [] && pool.held == old(pool.held)
          && pool.free == old(pool.free)[1..] && pool.received == old(pool.received) + [old(pool.free)[0]]
          && |frame + rest| == DATA && Queued() == old(Queued()) + [Frame(frame + rest, |frame|)]
        else
          var b := old(pool.free)[0];
          && spill == Spill(frame) && pool.held == old(pool.held) + multiset{b}
          && pool.free == old(pool.free)[1..] && pool.received == old(pool.received)
          && 0 <= b < NUM && Content(b).d + spill == frame
    {
      hide Valid, Queued, Content;
      spill, rest := [], [];
      if |frame| > NETBUF || |frame| < ETH_HDR {
        return;
      }
      ghost var h := pool.held;
      var b := Allocate();
      if b == NULL {
        return;
      }
      if |frame| > DATA {
        rest := FillBuffer(b, frame[..DATA]);
        spill := frame[DATA..];
        assert frame[..DATA] + rest == frame[..DATA];
        return;
      }
      rest := FillBuffer(b, frame);
      Enqueue(b);
      assert pool.held == h;
    }

    /** One round of the loop of enet_poll. */
    method DrainOne(env: Env)
      requires Valid() && pool.received != [] && !sock.stuck
      modifies this`sent, this`ident, this`pingArg, this`table, sock, sock.buf, pool, pool.next, pool.data, pool.len
      ensures Valid() && At() == old(At()) && InPool(old(pool.received))
      ensures pool.received == old(pool.received)[1..]
      ensures !sock.stuck ==> pool.held == old(pool.held) && pool.free == old(pool.free) + [old(pool.received)[0]]
      ensures sock.stuck ==>
                pool.held == old(pool.held) + multiset{old(pool.received)[0]} && pool.free == old(pool.free)
      ensures Queued() == FramesOf(old(pool.data[..]), old(pool.len[..]), old(pool.received)[1..])
      ensures var first := FirstFrame(old(pool.data[..]), old(pool.len[..]), old(pool.received));
        State() == Effect(old(State()), first, old(At()), env)
    {
      hide IsQueue, OnceEach, Effect, FramesOf, UdpSocket.Socket.Valid;
      QueueIs(pool.rcvQ, pool.next[..], pool.received);
      ghost var data, len, h := pool.data[..], pool.len[..], pool.held;
      var b := pool.GetRcvq();
      HeldApart(pool.free, pool.received, pool.held, b);
      QueueIs(pool.rcvQ, pool.next[..], pool.received);
      Dispatch(b, env);
      assert !sock.stuck ==> pool.held == h;
      FramesSame(data, len, pool.data[..], pool.len[..], pool.received, b);
    }

    /** The loop of enet_poll: every frame that waits has its effect, once and in order, and every buffer goes back
        to the free queue, once and in order.  When udp_input does not come back from the n-th of them, its buffer stays
        out and those behind it stay in the receive queue. */
    method Drain(envs: seq<Env>) returns (ghost n: nat)
      requires Valid() && |pool.received| <= |envs| && !sock.stuck
      modifies this`sent, this`ident, this`pingArg, this`table, sock, sock.buf, pool, pool.next, pool.data, pool.len
      ensures Valid() && n <= |old(pool.received)| && pool.free == old(pool.free) + old(pool.received)[..n]
      ensures !sock.stuck ==>
                n == |old(pool.received)| && pool.received == [] && pool.held == old(pool.held)
      ensures sock.stuck ==>
                && n < |old(pool.received)| && pool.received == old(pool.received)[n + 1..]
                && pool.held == old(pool.held) + multiset{old(pool.received)[n]}
      ensures State() == Effects(old(State()), old(Queued()), old(At()), envs)
    {
      hide Valid, State, At, Effect, Effects, FramesOf;
      n := 0;
      var i := 0;
      assert envs[0..] == envs;
      ghost var f, r, at := pool.free, pool.received, At();
      assert f + r[..0] == f;
      Waiting();
      while pool.rcvQ.total != 0
        invariant Valid() && pool.held == old(pool.held) && pool.rcvQ.total == |pool.received| && !sock.stuck
        invariant n == i <= |r| <= |envs| && pool.received == r[i..] && pool.free == f + r[..i] && At() == at
        invariant State().ident <= ONES && State().sock.stuck == sock.stuck
        invariant Effects(State(), Queued(), at, envs[i..]) == Effects(old(State()), old(Queued()), at, envs)
        decreases |pool.received|
      {
        Waiting();
        EffectsStep(State(), pool.data[..], pool.len[..], pool.received, at, envs, i);
        DrainOne(envs[i]);
        Waiting();
        assert r[i..][0] == r[i] && r[i..][1..] == r[i + 1..] && f + r[..i] + [r[i]] == f + r[..i + 1];
        i := i + 1;
        if sock.stuck {
          NoEffects(State(), Queued(), at, envs[i..]);
          return;
        }
        n := n + 1;
      }
      Waiting();
      NoEffects(State(), Queued(), at, envs[i..]);
      assert r[..i] == r;
    }

    /** emac_deliver: the driver calls enet_input for everything that has come in; `ok` says that no frame has been
        copied past the end of its buffer. */
    method Deliver(arrivals: seq<Bytes>) returns (ok: bool, ghost news: seq<Frame>)
      requires Valid()
      modifies pool, pool.next, pool.data, pool.len
      ensures Valid() && (ok <==> Fitting(arrivals, |old(pool.free)|))
      ensures ok ==>
                && pool.held == old(pool.held) && |news| <= |old(pool.free)| && |news| <= |arrivals|
                && pool.free == old(pool.free)[|news|..]
                && pool.received == old(pool.received) + old(pool.free)[..|news|] && Queued() == old(Queued()) + news
                && Carry(news, Kept(arrivals, |old(pool.free)|))
    {
      hide Valid, Queued, Carry, Kept, Delivering, Fitting, Dropped, Spill;
      news := [];
      var i := 0;
      ghost var start, done: seq<Bytes> := Queues(pool.free, pool.received, Queued()), [];
      DeliveryStarts(start, arrivals);
      while i < |arrivals|
        invariant 0 <= i <= |arrivals| && Valid() && pool.held == old(pool.held) && |news| <= i
        invariant Delivering(start, Queues(pool.free, pool.received, Queued()), news, done, arrivals, arrivals[i..])
      {
        ghost var before := Queues(pool.free, pool.received, Queued());
        var spill;
        ghost var rest;
        spill, rest := EnetInput(arrivals[i]);
        assert arrivals[i..][0] == arrivals[i] && arrivals[i..][1..] == arrivals[i + 1..];
        if |spill| > 0 {
          DeliverySpills(start, before, news, done, arrivals, arrivals[i..]);
          return false, news;
        }
        if Dropped(arrivals[i]) || before.free == [] {
          DeliveryLost(start, before, news, done, arrivals, arrivals[i..]);
        } else {
          DeliveryMore(start, before, news, done, arrivals, arrivals[i..], rest);
          news, done := news + [Frame(arrivals[i] + rest, |arrivals[i]|)], done + [arrivals[i]];
        }
        i := i + 1;
      }
      DeliveryEnds(start, Queues(pool.free, pool.received, Queued()), news, done, arrivals);
      ok := true;
    }

    /** enet_poll: what the driver has is queued as far as there are buffers, and everything in the receive queue,
        what was there before and what is new, has its effect, once and in order.  Afterwards the receive queue is
        empty, and whoever held buffers before holds the same ones. */
    method EnetPoll(arrivals: seq<Bytes>, envs: seq<Env>) returns (ok: bool, ghost news: seq<Frame>)
      requires Valid() && |pool.received| + |arrivals| <= |envs| && !sock.stuck
      modifies this`sent, this`ident, this`pingArg, this`table, sock, sock.buf, pool, pool.next, pool.data, pool.len
      ensures Valid() && (ok <==> Fitting(arrivals, |old(pool.free)|))
      ensures ok ==> Carry(news, Kept(arrivals, |old(pool.free)|)) && |news| <= |arrivals|
      ensures ok ==> State() == Effects(old(State()), old(Queued()) + news, old(At()), envs)
      ensures ok && !sock.stuck ==>
                && pool.received == [] && pool.held == old(pool.held)
                && |pool.free| == |old(pool.free)| + |old(pool.received)|
      ensures ok && sock.stuck ==> |pool.held| == |old(pool.held)| + 1
    {
      hide Carry, Kept, Effects, IsQueue, OnceEach, FramesOf, Fitting;
      ok, news := Deliver(arrivals);
      if ok {
        ghost var n := Drain(envs);
      }
    }

    /** What is known of the receive queue. */
    lemma Waiting()
      requires Valid()
      ensures pool.rcvQ.total == |pool.received| && InPool(pool.received) && Stocked(pool.data[..], pool.len[..])
      ensures State().ident <= ONES && State().sock.stuck == sock.stuck
      ensures Queued() == FramesOf(pool.data[..], pool.len[..], pool.received)
    {
      hide IsQueue, OnceEach, FramesOf;
      QueueIs(pool.rcvQ, pool.next[..], pool.received);
    }
  }

  lemma {:induction false} FramesAppend(data: seq<Bytes>, len: seq<int>, list: seq<int>, b: int)
    requires Stocked(data, len) && InPool(list) && 0 <= b < NUM
    ensures FramesOf(data, len, list + [b]) == FramesOf(data, len, list) + [Frame(data[b], len[b])]
  {
    hide Stocked;
    if list == [] {
      assert [b][1..] == [] && list + [b] == [b];
    } else {
      assert (list + [b])[0] == list[0] && (list + [b])[1..] == list[1..] + [b];
      FramesAppend(data, len, list[1..], b);
    }
  }

  /** The buffers carry these frames. */
  predicate Carry(fs: seq<Frame>, frames: seq<Bytes>) {
    |fs| == |frames| && AllFrames(fs)
        && forall k :: 0 <= k < |fs| ==> fs[k].len == |frames[k]| && fs[k].d[..fs[k].len] == frames[k]
  }

  lemma CarryOne(fs: seq<Frame>, frames: seq<Bytes>, frame: Bytes, rest: Bytes)
    requires Carry(fs, frames) && |frame + rest| == DATA
    ensures Carry(fs + [Frame(frame + rest, |frame|)], frames + [frame])
  {
    assert (frame + rest)[..|frame|] == frame;
  }

  /** Free queue, receive queue, and the frames that wait in it. */
  datatype Queues = Queues(free: seq<int>, received: seq<int>, queued: seq<Frame>)

  /** Part of the way through the arrivals: `done` have found a buffer so far, `left` are still to come. */
  predicate Delivering(start: Queues, now: Queues, news: seq<Frame>, done: seq<Bytes>, all: seq<Bytes>,
                       left: seq<Bytes>)
  {
    && |news| <= |start.free| && now.free == start.free[|news|..]
    && now.received == start.received + start.free[..|news|] && now.queued == start.queued + news
    && Carry(news, done) && Kept(all, |start.free|) == done + Kept(left, |now.free|)
  }

  lemma DeliveryStarts(start: Queues, all: seq<Bytes>)
    ensures all[0..] == all && Delivering(start, start, [], [], all, all)
  {
    hide Kept;
    assert start.queued + [] == start.queued && [] + Kept(all, |start.free|) == Kept(all, |start.free|);
  }

  lemma DeliverySpills(start: Queues, now: Queues, news: seq<Frame>, done: seq<Bytes>, all: seq<Bytes>,
                       left: seq<Bytes>)
    requires Delivering(start, now, news, done, all, left) && left != []
    requires !Dropped(left[0]) && now.free != [] && Spill(left[0]) != []
    ensures !Fitting(all, |start.free|)
  {
    hide Carry;
    assert Kept(all, |start.free|)[|done|] == left[0];
  }

  lemma DeliveryLost(start: Queues, now: Queues, news: seq<Frame>, done: seq<Bytes>, all: seq<Bytes>, left: seq<Bytes>)
    requires Delivering(start, now, news, done, all, left) && left != []
    requires Dropped(left[0]) || now.free == []
    ensures Delivering(start, now, news, done, all, left[1..])
  {
    hide Carry;
  }

  lemma DeliveryMore(start: Queues, now: Queues, news: seq<Frame>, done: seq<Bytes>, all: seq<Bytes>, left: seq<Bytes>,
                     rest: Bytes)
    requires Delivering(start, now, news, done, all, left) && left != []
    requires !Dropped(left[0]) && now.free != [] && |left[0] + rest| == DATA
    ensures var x := Frame(left[0] + rest, |left[0]|);
      var after := Queues(now.free[1..], now.received + [now.free[0]], now.queued + [x]);
      Delivering(start, after, news + [x], done + [left[0]], all, left[1..])
  {
    hide Carry;
    var n, f, x := |news|, start.free, Frame(left[0] + rest, |left[0]|);
    CarryOne(news, done, left[0], rest);
    assert f[n..][0] == f[n] && f[n..][1..] == f[n + 1..] && f[..n] + [f[n]] == f[..n + 1];
    assert start.received + f[..n] + [f[n]] == start.received + (f[..n] + [f[n]]);
    assert start.queued + news + [x] == start.queued + (news + [x]);
    var later := Kept(left[1..], |now.free| - 1);
    assert done + ([left[0]] + later) == done + [left[0]] + later;
  }

  lemma DeliveryEnds(start: Queues, now: Queues, news: seq<Frame>, done: seq<Bytes>, all: seq<Bytes>)
    requires Delivering(start, now, news, done, all, all[|all|..])
    ensures |news| <= |start.free| && now.free == start.free[|news|..]
    ensures now.received == start.received + start.free[..|news|] && now.queued == start.queued + news
    ensures Carry(news, Kept(all, |start.free|)) && Fitting(all, |start.free|)
  {
    assert done + [] == done;
    forall k | 0 <= k < |done| ensures Spill(done[k]) == [] {
      assert FrameOk(news[k]);
    }
  }

  predicate AllFrames(fs: seq<Frame>) {
    forall k :: 0 <= k < |fs| ==> FrameOk(fs[k])
  }

  /** Data areas and lengths of all buffers. */
  predicate Stocked(data: seq<Bytes>, len: seq<int>) {
    |data| == |len| == NUM && forall b :: 0 <= b < NUM ==> |data[b]| == DATA && 0 <= len[b] <= DATA
  }

  predicate InPool(list: seq<int>) {
    forall i :: 0 <= i < |list| ==> 0 <= list[i] < NUM
  }

  function FirstFrame(data: seq<Bytes>, len: seq<int>, list: seq<int>): (f: Frame)
    requires Stocked(data, len) && InPool(list) && list != []
    ensures FrameOk(f)
  {
    Frame(data[list[0]], len[list[0]])
  }

  function FramesOf(data: seq<Bytes>, len: seq<int>, list: seq<int>): (fs: seq<Frame>)
    requires Stocked(data, len) && InPool(list)
    ensures |fs| == |list| && AllFrames(fs)
  {
    if list == [] then [] else [FirstFrame(data, len, list)] + FramesOf(data, len, list[1..])
  }

  /** Work on a buffer outside a list leaves the frames of the list alone. */
  lemma {:induction false} FramesSame(data: seq<Bytes>, len: seq<int>, data': seq<Bytes>, len': seq<int>,
      list: seq<int>, b: int)
    requires Stocked(data, len) && Stocked(data', len') && b !in list && InPool(list)
    requires forall x :: 0 <= x < NUM && x != b ==> data'[x] == data[x] && len'[x] == len[x]
    ensures FramesOf(data', len', list) == FramesOf(data, len, list)
  {
    hide Stocked;
    if list != [] {
      assert list[0] in list;
      FramesSame(data, len, data', len', list[1..], b);
    }
  }

  lemma EffectsStep(s: Side, data: seq<Bytes>, len: seq<int>, q: seq<int>, at: Station, envs: seq<Env>, i: nat)
    requires Stocked(data, len) && q != [] && InPool(q) && s.ident <= ONES && i + |q| <= |envs| && !s.sock.stuck
    ensures Effects(s, FramesOf(data, len, q), at, envs[i..]) ==
            Effects(Effect(s, FirstFrame(data, len, q), at, envs[i]), FramesOf(data, len, q[1..]), at, envs[i + 1..])
  {
    hide Effect;
    var fs := FramesOf(data, len, q);
    assert fs[0] == FirstFrame(data, len, q) && fs[1..] == FramesOf(data, len, q[1..]);
    assert envs[i..][0] == envs[i] && envs[i..][1..] == envs[i + 1..];
  }

  lemma NoEffects(s: Side, fs: seq<Frame>, at: Station, envs: seq<Env>)
    requires AllFrames(fs) && (|fs| == 0 || s.sock.stuck) && s.ident <= ONES && |fs| <= |envs|
    ensures Effects(s, fs, at, envs) == s
  {
  }

  lemma TableStep(table: seq<Entry>, i: nat, ip: Address)
    requires i < |table|
    ensures LineOf(table[i..], ip) == if table[i].used && table[i].ip == ip then 0 else 1 + LineOf(table[i + 1..], ip)
    ensures FreeLine(table[i..]) == if !table[i].used then 0 else 1 + FreeLine(table[i + 1..])
  {
    assert table[i..][0] == table[i] && table[i..][1..] == table[i + 1..];
  }

  lemma TableEnd(table: seq<Entry>, ip: Address)
    requires |table| == 0
    ensures LineOf(table, ip) == 0 && FreeLine(table) == 0
  {
  }

  /** What a patch leaves alone. */
  lemma UpdatedElse(d: Bytes, at: nat, piece: Bytes, lo: nat, hi: nat)
    requires at + |piece| <= |d| && lo <= hi <= |d| && (hi <= at || at + |piece| <= lo)
    ensures Updated(d, at, piece)[lo..hi] == d[lo..hi]
  {
  }

  lemma ArpWritten(d: Bytes, e: Bytes, host: Host)
    requires |d| == DATA
    requires var d2 := Updated(Updated(d, 20, [0, 2]), 38, d[28..32]);
      e == Updated(Updated(Updated(d2, 32, d[22..28]), 28, host.ip), 22, host.mac)
    ensures d[22..28] + host.mac + Be16(0x806) + e[ETH_HDR..ARP_PKT] == ArpFrame(d, host)
  {
    var d1 := Updated(d, 20, [0, 2]);
    var d2 := Updated(d1, 38, d[28..32]);
    var d3 := Updated(d2, 32, d[22..28]);
    var d4 := Updated(d3, 28, host.ip);
    ArpPatches(d, d1, d2, d3, d4, e, host);
    assert e[14..42] == e[14..20] + e[20..22] + e[22..28] + e[28..32] + e[32..38] + e[38..42];
    assert Be16(0x806) == [8, 6];
  }

  lemma ArpPatches(d: Bytes, d1: Bytes, d2: Bytes, d3: Bytes, d4: Bytes, e: Bytes, host: Host)
    requires |d| == DATA && d1 == Updated(d, 20, [0, 2]) && d2 == Updated(d1, 38, d[28..32])
    requires d3 == Updated(d2, 32, d[22..28]) && d4 == Updated(d3, 28, host.ip) && e == Updated(d4, 22, host.mac)
    ensures e[14..20] == d[14..20] && e[20..22] == [0, 2] && e[22..28] == host.mac
    ensures e[28..32] == host.ip && e[32..38] == d[22..28] && e[38..42] == d[28..32]
  {
    hide Updated;
    UpdatedParts(d, 20, [0, 2]);
    UpdatedParts(d1, 38, d[28..32]);
    UpdatedParts(d2, 32, d[22..28]);
    UpdatedParts(d3, 28, host.ip);
    UpdatedParts(d4, 22, host.mac);
    Untouched(d, d1, d2, d3, d4, e, host, 14, 20);
    UpdatedElse(d4, 22, host.mac, 20, 22);
    UpdatedElse(d3, 28, host.ip, 20, 22);
    UpdatedElse(d2, 32, d[22..28], 20, 22);
    UpdatedElse(d1, 38, d[28..32], 20, 22);
    UpdatedElse(d4, 22, host.mac, 28, 32);
    UpdatedElse(d4, 22, host.mac, 32, 38);
    UpdatedElse(d3, 28, host.ip, 32, 38);
    UpdatedElse(d4, 22, host.mac, 38, 42);
    UpdatedElse(d3, 28, host.ip, 38, 42);
    UpdatedElse(d2, 32, d[22..28], 38, 42);
  }

  lemma Untouched(d: Bytes, d1: Bytes, d2: Bytes, d3: Bytes, d4: Bytes, e: Bytes, host: Host, lo: nat, hi: nat)
    requires |d| == DATA && d1 == Updated(d, 20, [0, 2]) && d2 == Updated(d1, 38, d[28..32])
    requires d3 == Updated(d2, 32, d[22..28]) && d4 == Updated(d3, 28, host.ip) && e == Updated(d4, 22, host.mac)
    requires lo <= hi <= 20
    ensures e[lo..hi] == d[lo..hi]
  {
    hide Updated;
    UpdatedElse(d, 20, [0, 2], lo, hi);
    UpdatedElse(d1, 38, d[28..32], lo, hi);
    UpdatedElse(d2, 32, d[22..28], lo, hi);
    UpdatedElse(d3, 28, host.ip, lo, hi);
    UpdatedElse(d4, 22, host.mac, lo, hi);
  }

  lemma Regroup(a: Bytes, b: Bytes, c: Bytes)
    ensures a + (b + c) == a + b + c
  {
  }

  lemma HeaderWritten(d: Bytes, e: Bytes, f: Bytes, header: Bytes, n: nat)
    requires |d| == DATA && |header| == IP_HDR && IP_PKT + n <= DATA
    requires e == Updated(d, ETH_HDR, header) && f == Stored(e, ETH_HDR + 10, Csum(header, 0))
    ensures f[ETH_HDR..IP_PKT] == Signed(header, 10)
    ensures f[IP_PKT..IP_PKT + n] == d[IP_PKT..IP_PKT + n]
    ensures f[ETH_HDR..IP_PKT + n] == Signed(header, 10) + d[IP_PKT..IP_PKT + n]
  {
    hide Csum, Swap;
    assert e[ETH_HDR..IP_PKT] == header;
    assert f[ETH_HDR..IP_PKT] == Signed(header, 10);
    assert f[IP_PKT..IP_PKT + n] == e[IP_PKT..IP_PKT + n] == d[IP_PKT..IP_PKT + n];
    assert f[ETH_HDR..IP_PKT + n] == f[ETH_HDR..IP_PKT] + f[IP_PKT..IP_PKT + n];
  }

  lemma EchoWritten(d: Bytes, e: Bytes, f: Bytes, len: nat, host: Host, ident: nat)
    requires |d| == DATA && 4 <= len && IP_PKT + len <= DATA && ident <= ONES
    requires e == Updated(Updated(d, 34, [0]), 36, [0, 0]) && f == Stored(e, 36, Csum(e[34..34 + len], 0))
    ensures EchoFrame(d, IP_PKT + len, host, ident) ==
            d[6..12] + host.mac + [8, 0] + IpHeader(len + IP_HDR, ident, 1, host.ip, d[26..30])
            + f[IP_PKT..IP_PKT + len]
  {
    hide Csum, IpHeader, EchoMessage, Updated, Stored;
    MessageWritten(d, e, f, len);
  }

  lemma MessageWritten(d: Bytes, e: Bytes, f: Bytes, len: nat)
    requires |d| == DATA && 4 <= len && IP_PKT + len <= DATA
    requires e == Updated(Updated(d, 34, [0]), 36, [0, 0]) && f == Stored(e, 36, Csum(e[34..34 + len], 0))
    ensures f[IP_PKT..IP_PKT + len] == EchoMessage(d[IP_PKT..IP_PKT + len])
  {
    hide Csum, Swap;
    var m := d[IP_PKT..IP_PKT + len];
    assert e[34..34 + len] == [0, m[1], 0, 0] + m[4..];
    assert f[IP_PKT..IP_PKT + len] == Signed([0, m[1], 0, 0] + m[4..], 2);
  }

  lemma EtherFrame(d: Bytes, e: Bytes, f: Bytes, dest: Ether, mac: Ether, etherType: nat, n: nat)
    requires |d| == DATA && etherType <= ONES && ETH_HDR + n <= DATA
    requires e == Updated(d, 6, mac) && f == Updated(e, 0, dest)
    ensures Updated(f, 12, Be16(etherType))[..n + ETH_HDR] == dest + mac + Be16(etherType) + d[ETH_HDR..ETH_HDR + n]
  {
    var g := Updated(f, 12, Be16(etherType));
    assert g[..6] == f[..6] == dest;
    assert g[6..12] == f[6..12] == e[6..12] == mac;
    assert g[12..14] == Be16(etherType);
    UpdatedElse(f, 12, Be16(etherType), 14, 14 + n);
    UpdatedElse(e, 0, dest, 14, 14 + n);
    UpdatedElse(d, 6, mac, 14, 14 + n);
    assert g[..n + ETH_HDR] == g[..6] + g[6..12] + g[12..14] + g[14..14 + n];
  }
}
