/** src/net/udp.c: the checksum of a UDP datagram with its pseudo header, as udp_output makes it and udp_input tests it
    (RFC 768 and section 1 of RFC 1071). */
module UdpDatagram {
  import opened ByteData
  import opened InetChecksum

  const UDP_HDR_SIZE := 8
  const UDP_DATA_MAX_SIZE := 1472      // 1514 - 14 - 20 - 8
  const CHKSUM := 6                    // offset of the checksum in the header

  /** A frame with a UDP datagram in it: the addresses of the IP header, and memory from the UDP header on, past the end
      of the frame as far as it may be read. */
  datatype Packet = Packet(src: Address, dst: Address, d: Bytes)

  /** Addresses, a zero, the protocol number and the length. */
  function Pseudo(src: Address, dst: Address, length: Bytes): (b: Bytes)
    requires |length| == 2
    ensures |b| == 12
  {
    src + dst + [0, 17] + length
  }

  /** udp_pseudo_sum, with `length` the two bytes stored in tot_len */
  method UdpPseudoSum(src: Address, dst: Address, length: Bytes) returns (sum: nat)
    requires |length| == 2
    ensures sum == LeSum(Pseudo(src, dst, length)) <= 6 * ONES
  {
    sum := Word(src[0], src[1]);
    sum := sum + Word(src[2], src[3]);
    sum := sum + Word(dst[0], dst[1]);
    sum := sum + Word(dst[2], dst[3]);
    sum := sum + Word(0, 17);
    sum := sum + Word(length[0], length[1]);
    SixWords(Pseudo(src, dst, length));
  }

  lemma SixWords(b: Bytes)
    requires |b| == 12
    ensures LeSum(b) == Word(b[0], b[1]) + Word(b[2], b[3]) + Word(b[4], b[5]) + Word(b[6], b[7]) + Word(b[8], b[9])
                        + Word(b[10], b[11])
  {
    hide Word;
    assert b[0..] == b;
    WordsStep(b, 0);
    WordsStep(b, 2);
    WordsStep(b, 4);
    WordsStep(b, 6);
    WordsStep(b, 8);
    WordsStep(b, 10);
    WordsEnd(b, 12);
  }

  /** The pseudo header contributes the protocol number at least. */
  lemma PseudoPositive(src: Address, dst: Address, length: Bytes)
    requires |length| == 2
    ensures 0 < LeSum(Pseudo(src, dst, length)) <= 6 * ONES
  {
    SixWords(Pseudo(src, dst, length));
  }

  // ---------------------------------------------------------------- sending

  /** The datagram with a checksum field of zero. */
  function Unsigned(payload: Bytes, sport: nat, dport: nat): (d: Bytes)
    requires |payload| <= UDP_DATA_MAX_SIZE && sport <= ONES && dport <= ONES
    ensures |d| == UDP_HDR_SIZE + |payload|
  {
    Be16(sport) + Be16(dport) + Be16(UDP_HDR_SIZE + |payload|) + [0, 0] + payload
  }

  /** The checksum of RFC 768: the complement of the one's complement sum of pseudo header and datagram. */
  function Checksum(d: Bytes, src: Address, dst: Address): (c: nat)
    requires |d| >= UDP_HDR_SIZE
    ensures c <= ONES
  {
    ONES - OnesSum(Pseudo(src, dst, d[4..6]) + d)
  }

  /** What udp_output hands to ip_output. */
  function Datagram(payload: Bytes, src: Address, dst: Address, sport: nat, dport: nat): (d: Bytes)
    requires |payload| <= UDP_DATA_MAX_SIZE && sport <= ONES && dport <= ONES
    ensures |d| == UDP_HDR_SIZE + |payload|
  {
    var u := Unsigned(payload, sport, dport);
    var c := Checksum(u, src, dst);
    u[CHKSUM := c / 0x100][CHKSUM + 1 := c % 0x100]
  }

  /** udp_output up to the call of ip_output; None when the data is too long. */
  method UdpOutput(payload: Bytes, src: Address, dst: Address, sport: nat, dport: nat) returns (d: Option<Bytes>)
    requires sport <= ONES && dport <= ONES
    ensures d == if |payload| <= UDP_DATA_MAX_SIZE then Some(Datagram(payload, src, dst, sport, dport)) else None
  {
    hide LeSum, OnesSum, Csum, Pseudo;
    if |payload| > UDP_DATA_MAX_SIZE {
      return None;
    }
    var buf := Be16(sport) + Be16(dport) + Be16(UDP_HDR_SIZE + |payload|) + [0, 0] + payload;
    var sum := UdpPseudoSum(src, dst, buf[4..6]);
    var cksum := IpCsum(buf, sum);
    StandardWithFront(Pseudo(src, dst, buf[4..6]), buf);
    StoredInOrder(buf, CHKSUM, cksum);
    return Some(Stored(buf, CHKSUM, cksum));
  }

  // ---------------------------------------------------------------- receiving

  function Length(d: Bytes): (n: nat)
    requires |d| >= UDP_HDR_SIZE
    ensures n <= ONES
  {
    Be16At(d, 4)
  }

  /** Memory reaches as far as the length field says, which may be further than the frame. */
  predicate Reaches(d: Bytes) {
    UDP_HDR_SIZE <= |d| && Length(d) <= |d|
  }

  /** The length field counts the header at least; udp_input does not ask for that. */
  predicate Framed(d: Bytes) {
    Reaches(d) && UDP_HDR_SIZE <= Length(d)
  }

  /** What RFC 768 and RFC 1071 call correct: pseudo header and datagram, in network byte order, have a one's complement
      sum of all ones. */
  predicate Accepts(d: Bytes, src: Address, dst: Address)
    requires Reaches(d)
  {
    OnesSum(Pseudo(src, dst, d[4..6]) + d[..Length(d)]) == ONES
  }

  /** A checksum of 0xffff is made 0. */
  function Normal(d: Bytes): (c: Bytes)
    requires |d| >= UDP_HDR_SIZE
    ensures |c| == |d|
  {
    if Word(d[CHKSUM], d[CHKSUM + 1]) == ONES then d[CHKSUM := 0][CHKSUM + 1 := 0] else d
  }

  /** The same once a checksum of 0xffff has been made 0: what udp_input lets pass. */
  predicate Checks(d: Bytes, src: Address, dst: Address)
    requires Reaches(d)
  {
    OnesSum(Pseudo(src, dst, d[4..6]) + Normal(d)[..Length(d)]) == ONES
  }

  /** udp_input's test of the checksum. */
  predicate Passes(d: Bytes, src: Address, dst: Address)
    requires Reaches(d)
  {
    PseudoPositive(src, dst, d[4..6]);
    Csum(Normal(d)[..Length(d)], LeSum(Pseudo(src, dst, d[4..6]))) == 0
  }

  method TestChecksum(d: Bytes, src: Address, dst: Address) returns (ok: bool)
    requires Reaches(d)
    ensures ok <==> Checks(d, src, dst)
    ensures Length(d) != CHKSUM + 1 ==> (ok <==> Accepts(d, src, dst))
  {
    hide LeSum, OnesSum, Csum, Pseudo, Accepts, Checks;
    var c := d;
    if Word(c[CHKSUM], c[CHKSUM + 1]) == 0xFFFF {
      c := c[CHKSUM := 0][CHKSUM + 1 := 0];
    }
    var sum := UdpPseudoSum(src, dst, c[4..6]);
    assert c[4..6] == d[4..6];
    var cksum := IpCsum(c[..Length(d)], sum);
    PassesIff(d, src, dst);
    return cksum == 0;
  }

  // ---------------------------------------------------------------- what the test means

  /** One's complement addition does not tell zero from 0xffff, as long as the sum is not all zeros. */
  lemma {:induction false} ZeroForOnes(b: Bytes, at: nat)
    requires at + 2 <= |b| && at % 2 == 0 && b[at] == 0xFF && b[at + 1] == 0xFF
    ensures var c := b[at := 0][at + 1 := 0]; OnesSum(c) == OnesSum(b) || (OnesSum(c) == 0 && OnesSum(b) == ONES)
  {
    var c := b[at := 0][at + 1 := 0];
    if at == 0 {
      assert c[2..] == b[2..];
    } else {
      assert c[2..] == b[2..][at - 2 := 0][at - 1 := 0];
      ZeroForOnes(b[2..], at - 2);
      assert c[0] == b[0] && c[1] == b[1];
    }
  }

  /** Making 0xffff a zero changes nothing, unless the length cuts the checksum field in two. */
  lemma NormalSum(d: Bytes, src: Address, dst: Address)
    requires Reaches(d) && Length(d) != CHKSUM + 1
    ensures var p := Pseudo(src, dst, d[4..6]);
      OnesSum(p + Normal(d)[..Length(d)]) == OnesSum(p + d[..Length(d)])
  {
    hide OnesSum;
    var n, p := Length(d), Pseudo(src, dst, d[4..6]);
    if n <= CHKSUM {
      assert Normal(d)[..n] == d[..n];
    } else if Word(d[CHKSUM], d[CHKSUM + 1]) == ONES {
      var s := p + d[..n];
      assert s[12 + CHKSUM] == d[CHKSUM] && s[12 + CHKSUM + 1] == d[CHKSUM + 1];
      assert p + Normal(d)[..n] == s[12 + CHKSUM := 0][12 + CHKSUM + 1 := 0];
      ZeroForOnes(s, 12 + CHKSUM);
      assert (p + Normal(d)[..n])[9] == p[9] == 17;
    }
  }

  /** The code's test passes exactly the datagrams that the standards call correct, once a checksum of 0xffff has been
      made 0; that makes a difference only when the length field is 7.  A datagram sent without a checksum gets no
      exception. */
  lemma PassesIff(d: Bytes, src: Address, dst: Address)
    requires Reaches(d)
    ensures Passes(d, src, dst) <==> Checks(d, src, dst)
    ensures Length(d) != CHKSUM + 1 ==> (Checks(d, src, dst) <==> Accepts(d, src, dst))
  {
    hide LeSum, OnesSum, Csum, Pseudo, Normal, Length;
    PseudoPositive(src, dst, d[4..6]);
    if Length(d) != CHKSUM + 1 { NormalSum(d, src, dst); }
    StandardWithFront(Pseudo(src, dst, d[4..6]), Normal(d)[..Length(d)]);
  }

  // ---------------------------------------------------------------- sender and receiver together

  /** Putting a number into a zero field adds it, in one's complement. */
  lemma {:induction false} FieldSum(b: Bytes, at: nat, hi: byte, lo: byte)
    requires at + 2 <= |b| && at % 2 == 0 && b[at] == 0 && b[at + 1] == 0
    ensures OnesSum(b[at := hi][at + 1 := lo]) == OnesAdd(Word(lo, hi), OnesSum(b))
  {
    var c := b[at := hi][at + 1 := lo];
    if at == 0 {
      assert c[2..] == b[2..];
    } else {
      assert c[2..] == b[2..][at - 2 := hi][at - 1 := lo];
      FieldSum(b[2..], at - 2, hi, lo);
      assert c[0] == b[0] && c[1] == b[1];
    }
  }

  /** Every datagram that udp_output builds is accepted, and carries its payload behind the header. */
  lemma BuiltIsAccepted(payload: Bytes, src: Address, dst: Address, sport: nat, dport: nat)
    requires |payload| <= UDP_DATA_MAX_SIZE && sport <= ONES && dport <= ONES
    ensures var d := Datagram(payload, src, dst, sport, dport);
      && Framed(d) && Length(d) == |d| && d[UDP_HDR_SIZE..] == payload
      && Be16At(d, 0) == sport && Be16At(d, 2) == dport && Accepts(d, src, dst)
  {
    hide OnesSum, Pseudo, Checksum;
    var u := Unsigned(payload, sport, dport);
    var d := Datagram(payload, src, dst, sport, dport);
    BeReadBack(sport);
    BeReadBack(dport);
    BeReadBack(UDP_HDR_SIZE + |payload|);
    assert d[4..6] == u[4..6] && d[..|d|] == d && d[UDP_HDR_SIZE..] == payload;
    SumWithChecksum(u, src, dst);
  }

  /** A datagram with its checksum in the zero field has a sum of all ones. */
  lemma SumWithChecksum(u: Bytes, src: Address, dst: Address)
    requires |u| >= UDP_HDR_SIZE && u[CHKSUM] == 0 && u[CHKSUM + 1] == 0
    ensures var c := Checksum(u, src, dst);
      OnesSum(Pseudo(src, dst, u[4..6]) + u[CHKSUM := c / 0x100][CHKSUM + 1 := c % 0x100]) == ONES
  {
    hide OnesSum;
    var c, p := Checksum(u, src, dst), Pseudo(src, dst, u[4..6]);
    var s := p + u;
    assert s[9] == 17;
    BeReadBack(c);
    assert s[12 + CHKSUM] == 0 && s[12 + CHKSUM + 1] == 0;
    FieldSum(s, 12 + CHKSUM, c / 0x100, c % 0x100);
    assert p + u[CHKSUM := c / 0x100][CHKSUM + 1 := c % 0x100]
           == s[12 + CHKSUM := c / 0x100][12 + CHKSUM + 1 := c % 0x100];
  }

  /** The checksum that udp_output stores is never 0xffff; it is 0, which to others means that there is none, exactly
      when pseudo header and datagram have a sum of all ones without it. */
  lemma StoredChecksum(payload: Bytes, src: Address, dst: Address, sport: nat, dport: nat)
    requires |payload| <= UDP_DATA_MAX_SIZE && sport <= ONES && dport <= ONES
    ensures var d, u := Datagram(payload, src, dst, sport, dport), Unsigned(payload, sport, dport);
      && Be16At(d, CHKSUM) < ONES
      && (Be16At(d, CHKSUM) == 0 <==> OnesSum(Pseudo(src, dst, u[4..6]) + u) == ONES)
  {
    hide OnesSum, Unsigned;
    var u := Unsigned(payload, sport, dport);
    assert (Pseudo(src, dst, u[4..6]) + u)[9] == 17;
    BeReadBack(Checksum(u, src, dst));
  }
}
