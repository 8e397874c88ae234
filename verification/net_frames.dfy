/** src/net/enet.c, ip.c, icmp.c and arp.c: what a received frame calls for, and the answers to an echo request and
    to an ARP request, as bytes. */
module NetFrames {
  import opened ByteData
  import opened InetChecksum

  const ETH_HDR := 14
  const IP_HDR := 20
  const IP_PKT := 34
  const ARP_PKT := 42
  const LARGEST := 2048                // the data area of a network buffer

  type Ether = a: Bytes | |a| == 6 witness [0, 0, 0, 0, 0, 0]

  const BROADCAST: Address := [255, 255, 255, 255]

  /** This machine. */
  datatype Host = Host(ip: Address, mac: Ether)

  /** A buffer: its data area, and how much of it is the frame. */
  predicate BufferOk(d: Bytes, len: nat) { |d| == LARGEST && len <= LARGEST }

  /** The tests of ip_input. */
  predicate IpWanted(d: Bytes, len: nat, host: Host)
    requires BufferOk(d, len)
  {
    && d[14] % 16 >= 5 && d[14] / 16 == 4 && len >= IP_PKT
    && (d[30..34] == BROADCAST || d[30..34] == host.ip)
    && d[20] / 32 % 2 == 0                                          // IP_MF
    && Csum(d[14..14 + d[14] % 16 * 4], 0) == 0
  }

  /** What becomes of a frame. */
  datatype Verdict = Discard | Answer(frame: Bytes) | Listener | Socket

  /** A message of fewer than four bytes that starts like an echo request has a sum that is no positive multiple of
      65535. */
  lemma ShortSum(b: Bytes)
    requires |b| < 4 && (|b| > 0 ==> b[0] == 8) && (|b| > 1 ==> b[1] == 0)
    ensures LeSum(b) % ONES == 0 ==> LeSum(b) == 0
  {
    if |b| == 3 {
      assert LeSum(b) == Word(8, 0) + b[2] by {
        assert b[2..] == [b[2]];
      }
    }
  }

  /** What icmp_input makes of a frame.  An echo request too short for its own header is never answered: it cannot have
      a good checksum. */
  function IcmpVerdict(d: Bytes, len: nat, host: Host, ident: nat, listening: bool): (v: Verdict)
    requires BufferOk(d, len) && len >= IP_PKT && ident <= ONES
    ensures v != Socket && (v.Answer? ==> len >= IP_PKT + 4)
  {
    if d[34] == 8 && d[35] == 0 then
      if Csum(d[34..len], 0) != 0 then Discard
      else
        assert len >= IP_PKT + 4 by {
          ZeroIff(d[34..len], 0);
          if len < IP_PKT + 4 { ShortSum(d[34..len]); }
        }
        Answer(EchoFrame(d, len, host, ident))
    else if d[34] == 0 && listening then Listener
    else Discard
  }

  function IpVerdict(d: Bytes, len: nat, host: Host, ident: nat, listening: bool): Verdict
    requires BufferOk(d, len) && ident <= ONES
  {
    if !IpWanted(d, len, host) then Discard
    else if d[23] == 1 then IcmpVerdict(d, len, host, ident, listening)
    else if d[23] == 17 then Socket
    else Discard
  }

  function ArpVerdict(d: Bytes, len: nat, host: Host, listening: bool): Verdict
    requires BufferOk(d, len)
  {
    if len < ARP_PKT || Be16At(d, 14) != 1 || Be16At(d, 16) != 0x800 || d[38..42] != host.ip then Discard
    else if Be16At(d, 20) == 1 then Answer(ArpFrame(d, host))
    else if Be16At(d, 20) == 2 && listening then Listener
    else Discard
  }

  // ---------------------------------------------------------------- answers

  /** A message with its checksum filled in at an even offset. */
  function Signed(b: Bytes, at: nat): (c: Bytes)
    requires at + 2 <= |b| <= LONGEST
    ensures |c| == |b|
  {
    Stored(b, at, Csum(b, 0))
  }

  /** The header that ip_output writes; `size` counts header and contents. */
  function IpHeader(size: nat, ident: nat, protocol: byte, src: Address, dst: Address): (h: Bytes)
    requires size <= ONES && ident <= ONES
    ensures |h| == IP_HDR
  {
    Signed([0x45, 0] + Be16(size) + Be16(ident) + [0, 0, 64, protocol, 0, 0] + src + dst, 10)
  }

  /** The answer to an echo request's ICMP message. */
  function EchoMessage(m: Bytes): (r: Bytes)
    requires 4 <= |m| <= LONGEST
    ensures |r| == |m|
  {
    Signed([0, m[1], 0, 0] + m[4..], 2)
  }

  function EchoFrame(d: Bytes, len: nat, host: Host, ident: nat): (f: Bytes)
    requires BufferOk(d, len) && len >= IP_PKT + 4 && ident <= ONES
    ensures |f| == len
  {
    d[6..12] + host.mac + [8, 0] + IpHeader(len - ETH_HDR, ident, 1, host.ip, d[26..30]) + EchoMessage(d[34..len])
  }

  function ArpFrame(d: Bytes, host: Host): (f: Bytes)
    requires |d| >= ARP_PKT
    ensures |f| == ARP_PKT
  {
    d[22..28] + host.mac + [8, 6] + d[14..20] + [0, 2] + host.mac + host.ip + d[22..28] + d[28..32]
  }

  // ---------------------------------------------------------------- what the answers are worth

  lemma SignedIsZero(b: Bytes, at: nat)
    requires at + 2 <= |b| <= LONGEST && at % 2 == 0 && b[at] == 0 && b[at + 1] == 0
    ensures Csum(Signed(b, at), 0) == 0
  {
    hide LeSum, Fold;
    StoredIsZero(b, at, 0);
  }

  lemma HeaderIsGood(size: nat, ident: nat, protocol: byte, src: Address, dst: Address)
    requires size <= ONES && ident <= ONES
    ensures var h := IpHeader(size, ident, protocol, src, dst);
      && Csum(h, 0) == 0 && h[0] == 0x45 && h[6] == 0 && h[9] == protocol && h[12..16] == src && h[16..20] == dst
  {
    hide Csum;
    SignedIsZero([0x45, 0] + Be16(size) + Be16(ident) + [0, 0, 64, protocol, 0, 0] + src + dst, 10);
  }

  lemma MessageIsGood(m: Bytes)
    requires 4 <= |m| <= LONGEST
    ensures var r := EchoMessage(m); Csum(r, 0) == 0 && r[0] == 0 && r[1] == m[1] && r[4..] == m[4..]
  {
    hide Csum;
    SignedIsZero([0, m[1], 0, 0] + m[4..], 2);
  }

  /** The answer to an echo request goes back to the station that asked, with both checksums good and the request's
      data; the machine that asked, running the same code, takes it for the answer it listens for. */
  lemma EchoComesBack(d: Bytes, len: nat, host: Host, ident: nat, rest: Bytes, asker: Host)
    requires BufferOk(d, len) && len >= IP_PKT + 4 && ident <= ONES && d[26..30] == asker.ip && |rest| == LARGEST - len
    ensures var f := EchoFrame(d, len, host, ident);
      && f[..6] == d[6..12] && f[6..12] == host.mac && f[12..14] == [8, 0] && f[38..] == d[38..len]
      && IpVerdict(f + rest, len, asker, 0, true) == Listener
  {
    hide Csum, IpHeader, EchoMessage;
    var f := EchoFrame(d, len, host, ident);
    var h, m := IpHeader(len - ETH_HDR, ident, 1, host.ip, d[26..30]), EchoMessage(d[34..len]);
    HeaderIsGood(len - ETH_HDR, ident, 1, host.ip, d[26..30]);
    MessageIsGood(d[34..len]);
    var e := f + rest;
    assert f[..6] == d[6..12] && f[6..12] == host.mac && f[12..14] == [8, 0];
    assert e[14..34] == h && e[34..len] == m && f[34..] == m;
    assert f[38..] == m[4..] == d[34..len][4..] == d[38..len];
    assert e[14] == h[0] && e[20] == h[6] && e[23] == h[9] && e[34] == m[0];
    assert e[30..34] == h[16..20];
    assert e[14..14 + e[14] % 16 * 4] == h;
  }

  /** The answer to an ARP request goes back to the station that asked and names this machine's address and hardware
      address; the machine that asked takes it for the answer it listens for. */
  lemma ArpComesBack(d: Bytes, len: nat, host: Host, rest: Bytes, asker: Host)
    requires BufferOk(d, len) && ArpVerdict(d, len, host, true).Answer? && d[28..32] == asker.ip
        && |rest| == LARGEST - ARP_PKT
    ensures var f := ArpFrame(d, host);
      && f[..6] == d[22..28] && f[6..12] == host.mac && f[12..14] == [8, 6] && f[22..28] == host.mac
          && f[28..32] == host.ip
      && ArpVerdict(f + rest, ARP_PKT, asker, true) == Listener
  {
    var f := ArpFrame(d, host);
    var e := f + rest;
    assert f[..6] == d[22..28] && f[6..12] == host.mac && f[12..14] == [8, 6];
    assert e[14..20] == d[14..20];
    assert e[14] == d[14..20][0] && e[15] == d[14..20][1] && e[16] == d[14..20][2] && e[17] == d[14..20][3];
    assert e[20] == 0 && e[21] == 2;
    assert f[22..28] == host.mac && f[28..32] == host.ip && e[38..42] == d[28..32];
  }
}
