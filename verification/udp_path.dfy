/** From the wire to the socket: the frames that enet_poll works on (src/net/enet.c, ip.c) and the ring that udp_input
    fills (src/net/udp.c), put together; and from one station's udp_output to the other's ring. */
module UdpPath {
  import opened ByteData
  import opened InetChecksum
  import opened NetFrames
  import opened NetInput
  import opened UdpDatagram
  import opened UdpSocket

  /** The frame is an IP packet for this station that carries a datagram. */
  predicate ForSocket(f: Frame, at: Station)
    requires FrameOk(f)
  {
    Be16At(f.d, 12) == 0x800 && IpWanted(f.d, f.len, at.host) && f.d[23] == 17
  }

  /** The datagrams among the frames, in order. */
  function ToSocket(fs: seq<Frame>, at: Station, envs: seq<Env>): (ps: seq<Packet>)
    requires AllFrames(fs) && |fs| <= |envs|
    ensures PacketsOk(ps)
  {
    if fs == [] then []
    else
      (if ForSocket(fs[0], at) then [PacketOf(fs[0], envs[0].behind)] else [])
      + ToSocket(fs[1..], at, envs[1..])
  }

  lemma EffectOnSocket(s: Side, f: Frame, at: Station, env: Env)
    requires FrameOk(f) && s.ident <= ONES
    ensures Effect(s, f, at, env).sock ==
            if ForSocket(f, at) then Arrive(s.sock, PacketOf(f, env.behind), at.Listening()) else s.sock
  {
    hide IpWanted, IcmpVerdict, ArpVerdict, Learn, Arrive, PacketOf;
  }

  /** Whatever else the frames do, the socket goes through exactly the datagrams among them, in order. */
  lemma {:induction false} EffectsOnSocket(s: Side, fs: seq<Frame>, at: Station, envs: seq<Env>)
    requires AllFrames(fs) && s.ident <= ONES && |fs| <= |envs|
    ensures Effects(s, fs, at, envs).sock == Poll(s.sock, ToSocket(fs, at, envs), at.Listening())
    decreases |fs|
  {
    hide Effect, ForSocket, FrameOk, Arrive, PacketOf, PacketOk;
    if s.sock.stuck {
      PollStuck(s.sock, ToSocket(fs, at, envs), at.Listening());
    } else if fs != [] {
      EffectOnSocket(s, fs[0], at, envs[0]);
      EffectsOnSocket(Effect(s, fs[0], at, envs[0]), fs[1..], at, envs[1..]);
      var ps, rest := ToSocket(fs, at, envs), ToSocket(fs[1..], at, envs[1..]);
      if ForSocket(fs[0], at) {
        assert ps[0] == PacketOf(fs[0], envs[0].behind) && ps[1..] == rest;
      } else {
        assert ps == rest;
      }
    }
  }

  /** What enet_poll makes of a row of frames and what udp_input makes of the datagrams in them, together: the ring
      holds what it held before, followed by the payloads that are for the socket and find room, whole and in order; and
      the poll comes back exactly when it meets no datagram that udp_input does not come back from. */
  lemma PollFillsRing(s: Side, fs: seq<Frame>, at: Station, envs: seq<Env>)
    requires AllFrames(fs) && s.ident <= ONES && |fs| <= |envs| && !s.sock.stuck
    ensures var news := ToSocket(fs, at, envs); var r := Effects(s, fs, at, envs).sock;
      && r.queue == s.sock.queue + Payloads(Outcome(s.sock, at.port, []), Incomings(news), at.peer, at.host.ip, false)
      && (r.stuck <==> exists k :: 0 <= k < |news| && RunsOn(news[k], at.Listening()))
  {
    hide Effects, ToSocket, Poll, Payloads, Run, PacketOk, RunsOn;
    var news, o := ToSocket(fs, at, envs), Outcome(s.sock, at.port, []);
    EffectsOnSocket(s, fs, at, envs);
    PollIsRun(o, news, at.peer, at.host.ip);
    QueueConserved(o, Incomings(news), at.peer, at.host.ip);
    StuckIff(s.sock, news, at.Listening());
    var r := Poll(s.sock, news, at.Listening());
    assert [] + r.queue == r.queue && [] + s.sock.queue == s.sock.queue;
  }

  // ---------------------------------------------------------------- from station to station

  /** What ip_output and enet_send put around a datagram. */
  function UdpFrame(d: Bytes, dest: Ether, mac: Ether, ident: nat, src: Address, dst: Address): (f: Bytes)
    requires |d| + IP_HDR <= ONES && ident <= ONES
    ensures |f| == IP_PKT + |d|
  {
    dest + mac + [8, 0] + IpHeader(|d| + IP_HDR, ident, 17, src, dst) + d
  }

  /** Bytes behind a datagram, such as the padding of a short frame, change nothing. */
  lemma PaddedIsAccepted(d: Bytes, pad: Bytes, src: Address, dst: Address)
    requires Framed(d) && Length(d) == |d| && Accepts(d, src, dst)
    ensures Framed(d + pad) && Length(d + pad) == |d| && Checks(d + pad, src, dst)
    ensures (d + pad)[UDP_HDR_SIZE..|d|] == d[UDP_HDR_SIZE..]
  {
    hide OnesSum, Pseudo, Checks;
    var p := d + pad;
    assert p[4] == d[4] && p[5] == d[5] && p[4..6] == d[4..6];
    assert p[..|d|] == d && d[..|d|] == d;
    PassesIff(p, src, dst);
  }

  /** A buffer that holds such a frame: `pad` are the bytes that come with it, `rest` is what the buffer keeps behind
      them. */
  datatype Carried = Carried(payload: Bytes, ident: nat, pad: Bytes, rest: Bytes)

  /** Two stations, and the ports on them. */
  datatype Link = Link(src: Address, dst: Address, sport: nat, dport: nat, dest: Ether, mac: Ether)

  predicate LinkOk(l: Link) { l.sport <= ONES && l.dport <= ONES }

  predicate CarriedOk(c: Carried) {
    && |c.payload| <= UDP_DATA_MAX_SIZE && c.ident <= ONES
    && IP_PKT + UDP_HDR_SIZE + |c.payload| + |c.pad| + |c.rest| == LARGEST
  }

  function Arrived(l: Link, c: Carried): (f: Frame)
    requires LinkOk(l) && CarriedOk(c)
    ensures FrameOk(f)
  {
    var frame := UdpFrame(Datagram(c.payload, l.src, l.dst, l.sport, l.dport), l.dest, l.mac, c.ident, l.src, l.dst);
    Frame(frame + (c.pad + c.rest), |frame| + |c.pad|)
  }

  lemma FrameParts(dest: Ether, mac: Ether, h: Bytes, d: Bytes, tail: Bytes)
    requires |h| == IP_HDR
    ensures var b := dest + mac + [8, 0] + h + d + tail;
      && b[12] == 8 && b[13] == 0 && b[14..34] == h && b[34..] == d + tail
      && b[14] == h[0] && b[20] == h[6] && b[23] == h[9] && b[26..30] == h[12..16] && b[30..34] == h[16..20]
  {
    var b := dest + mac + [8, 0] + h + d + tail;
    assert b[14..34] == h;
    assert b[34..] == d + tail;
    assert forall k :: 0 <= k < 20 ==> b[14 + k] == h[k];
  }

  lemma HeaderWanted(d: Bytes, len: nat, h: Bytes, host: Host)
    requires BufferOk(d, len) && len >= IP_PKT && |h| == IP_HDR && d[14..34] == h
    requires h[0] == 0x45 && h[6] == 0 && Csum(h, 0) == 0
    ensures IpWanted(d, len, host) <==> h[16..20] == host.ip || h[16..20] == BROADCAST
  {
    hide Csum;
    assert d[14] == d[14..34][0] && d[20] == d[14..34][6] && d[30..34] == d[14..34][16..20];
  }

  /** A frame that one station sends comes to the socket of every other that it is addressed to or sent to all; the
      datagram in it carries the payload and passes the checksum.  It is taken in exactly when it is addressed to the
      station itself: what is sent to all reaches no socket. */
  lemma ArrivedIsForSocket(l: Link, c: Carried, at: Station, behind: Memory)
    requires LinkOk(l) && CarriedOk(c)
    ensures var f := Arrived(l, c); var p := PacketOf(f, behind);
      && (ForSocket(f, at) <==> l.dst == at.host.ip || l.dst == BROADCAST)
      && Framed(p.d) && Checks(p.d, p.src, p.dst) && Payload(p) == c.payload && Be16At(p.d, 0) == l.sport
      && (ForUs(p, Ends(l.src, at.host.ip, l.dport)) <==> l.dst == at.host.ip)
  {
    hide Csum, IpHeader, Datagram, Accepts, Checks, Framed, IpWanted;
    var d := Datagram(c.payload, l.src, l.dst, l.sport, l.dport);
    var h := IpHeader(|d| + IP_HDR, c.ident, 17, l.src, l.dst);
    var f := Arrived(l, c);
    HeaderIsGood(|d| + IP_HDR, c.ident, 17, l.src, l.dst);
    FrameParts(l.dest, l.mac, h, d, c.pad + c.rest);
    HeaderWanted(f.d, f.len, h, at.host);
    BuiltIsAccepted(c.payload, l.src, l.dst, l.sport, l.dport);
    PaddedIsAccepted(d, c.pad + c.rest + behind, l.src, l.dst);
    var p := PacketOf(f, behind);
    assert p.d == d + (c.pad + c.rest + behind);
    assert p.d[0] == d[0] && p.d[1] == d[1] && p.d[2] == d[2] && p.d[3] == d[3];
  }

  predicate AllCarried(cs: seq<Carried>) {
    forall i :: 0 <= i < |cs| ==> CarriedOk(cs[i])
  }

  function ArrivedAll(l: Link, cs: seq<Carried>): (fs: seq<Frame>)
    requires LinkOk(l) && AllCarried(cs)
    ensures |fs| == |cs| && AllFrames(fs)
  {
    if cs == [] then [] else [Arrived(l, cs[0])] + ArrivedAll(l, cs[1..])
  }

  function Text(cs: seq<Carried>): Bytes {
    if cs == [] then [] else cs[0].payload + Text(cs[1..])
  }

  lemma OneMoreText(k: Bytes, cs: seq<Carried>)
    requires cs != []
    ensures k + cs[0].payload + Text(cs[1..]) == k + Text(cs)
  {
  }

  /** Station to station: what udp_output, ip_output and enet_send of one machine make of a row of payloads, enet_poll
      and udp_input of the other put into its ring, payload behind payload, as long as they fit: no byte is lost,
      doubled or out of place, no error is noted, and the poll comes back. */
  lemma {:induction false} StationToStation(s: Side, l: Link, cs: seq<Carried>, at: Station, envs: seq<Env>)
    requires LinkOk(l) && AllCarried(cs) && |cs| <= |envs| && s.ident <= ONES && !s.sock.stuck
    requires l.dst == at.host.ip && l.src == at.peer && l.dport == at.port
    requires |s.sock.queue| + |Text(cs)| <= SIZE
    ensures var r := Effects(s, ArrivedAll(l, cs), at, envs).sock;
      && r.queue == s.sock.queue + Text(cs) && r.error == s.sock.error && !r.stuck
      && (cs != [] ==> r.fromPort == l.sport)
    decreases |cs|
  {
    hide CarriedOk, Arrived, ForSocket, PacketOf, ForUs, Payload, PacketOk, Effect, Framed;
    if cs == [] {
      assert s.sock.queue + [] == s.sock.queue;
    } else {
      var fs := ArrivedAll(l, cs);
      assert fs[0] == Arrived(l, cs[0]) && fs[1..] == ArrivedAll(l, cs[1..]);
      ArrivedIsForSocket(l, cs[0], at, envs[0].behind);
      EffectOnSocket(s, fs[0], at, envs[0]);
      var t := Effect(s, fs[0], at, envs[0]);
      assert t.sock.queue == s.sock.queue + cs[0].payload;
      OneMoreText(s.sock.queue, cs);
      StationToStation(t, l, cs[1..], at, envs[1..]);
    }
  }
}
