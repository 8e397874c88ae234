/** src/net/tftp_client.c: fetching a file by TFTP (RFC 1350), as runs over what the network delivers. */
module TftpClient {
  type Bytes = seq<bv8>

  const SEG := 512                  // TFTP_BUF_SIZE
  const TIMEOUT_NUM := 5
  const OK := 0
  const NET_ERR := -2
  const TIMEOUT := -3
  const TOO_LARGE := -4
  const UNKNOWN := -5

  /** A datagram of at least the four header bytes. */
  datatype Packet = Data(block: nat, data: Bytes) | Ack(acked: nat) | Error(code: nat) | Other

  /** One wait of udp_recvfrom: an error, the timeout, or a datagram. */
  datatype Arrival = Broken | Silent | Datagram(p: Packet)

  /** An arrival, and whether what the client sends next gets out. */
  datatype Turn = Turn(arrival: Arrival, sendOk: bool)

  datatype Status = Running | Done(code: int)

  // ---------------------------------------------------------------- the client

  /** The client between two waits: `last` is last_good_block, `room` what is left of `len`, `got` the bytes written to
      the buffer, `acks` the acknowledgements sent, `reported` what the caller finds in *total_size. */
  datatype Get = Get(last: nat, room: int, got: Bytes, total: nat, timeouts: nat, acks: seq<nat>, status: Status,
      reported: nat)

  function GetStart(len: int): Get { Get(0, len, [], 0, 0, [], Running, 0) }

  datatype Stored = Stored(put: Bytes, room: int, full: bool)

  /** The copy loop for one block: the bytes it writes, the room it leaves, and whether it gives up. */
  function Store(room: int, data: Bytes): (r: Stored)
    ensures |r.put| <= |data| && (room <= 0 ==> r.put == []) && (room > 0 ==> |r.put| <= room)
    decreases |data|
  {
    if data == [] then Stored([], room, false)
    else
      var put := if room > 0 then [data[0]] else [];
      if room - 1 <= 0 && |data| > 1 then Stored(put, room - 1, true)
      else var r := Store(room - 1, data[1..]); Stored(put + r.put, r.room, r.full)
  }

  /** Acknowledge the last good block, and stop if the buffer is exactly full or the block was a short one. */
  function Answer(g: Get, short: bool, sendOk: bool): Get {
    if !sendOk then g.(status := Done(NET_ERR))
    else
      var g1 := g.(acks := g.acks + [g.last % 0x1_0000]);
      if g.room == 0 || short then g1.(status := Done(OK), reported := g.total) else g1
  }

  /** A block with the number expected. */
  function TakeBlock(g: Get, data: Bytes, sendOk: bool): Get {
    var s := Store(g.room, data);
    var g1 := g.(total := g.total + |data|, got := g.got + s.put, room := s.room);
    if s.full then g1.(status := Done(TOO_LARGE)) else Answer(g1.(last := g.last + 1), |data| < SEG, sendOk)
  }

  function GetStep(g: Get, t: Turn): Get {
    match t.arrival
    case Broken => g.(status := Done(NET_ERR))
    case Silent =>
      var g1 := g.(timeouts := g.timeouts + 1);
      if g1.timeouts > TIMEOUT_NUM || g.last == 0 then g1.(status := Done(TIMEOUT))
      else if !t.sendOk then g1.(status := Done(NET_ERR))
      else g1.(acks := g.acks + [g.last % 0x1_0000])
    case Datagram(p) =>
      match p
      case Data(block, data) => if block == g.last + 1 then TakeBlock(g, data, t.sendOk) else Answer(g, false, t.sendOk)
      case Error(code) => g.(status := Done(code))
      case _ => g.(status := Done(UNKNOWN))
  }

  function GetRun(g: Get, net: seq<Turn>): Get
    decreases |net|
  {
    if net == [] || g.status.Done? then g else GetRun(GetStep(g, net[0]), net[1..])
  }

  lemma StoreNext(room: int, data: Bytes)
    requires data != []
    ensures var put := if room > 0 then [data[0]] else [];
      Store(room, data) ==
      if room - 1 <= 0 && |data| > 1 then Stored(put, room - 1, true)
      else var r := Store(room - 1, data[1..]); Stored(put + r.put, r.room, r.full)
  {
  }

  /** What the copy loop still has to do, after what it has put already. */
  function StoreFrom(put: Bytes, room: int, data: Bytes): Stored {
    var r := Store(room, data);
    Stored(put + r.put, r.room, r.full)
  }

  /** The inner loop of tftpc_get: one block into the buffer at fp. */
  method StoreBlock(buf: array<bv8>, fp0: nat, room0: int, data: Bytes)
    returns (fp: nat, room: int, full: bool, ghost put: Bytes)
    requires fp0 <= buf.Length && (room0 > 0 ==> fp0 + room0 <= buf.Length)
    modifies buf
    ensures Stored(put, room, full) == Store(room0, data) && fp == fp0 + |put| <= buf.Length
    ensures room > 0 ==> fp + room <= buf.Length
    ensures buf[..fp] == old(buf[..fp0]) + put
    ensures forall i :: fp <= i < buf.Length ==> buf[i] == old(buf[i])
  {
    hide Store;
    fp, room, full, put := fp0, room0, false, [];
    var i := 0;
    assert data[0..] == data && StoreFrom([], room0, data) == Store(room0, data);
    while i < |data|
      invariant 0 <= i <= |data| && fp == fp0 + |put| <= buf.Length && (room > 0 ==> fp + room <= buf.Length)
      invariant StoreFrom(put, room, data[i..]) == Store(room0, data)
      invariant buf[..fp] == old(buf[..fp0]) + put
      invariant forall k :: fp <= k < buf.Length ==> buf[k] == old(buf[k])
    {
      ghost var rest := data[i..];
      assert rest[0] == data[i] && rest[1..] == data[i + 1..];
      StoreNext(room, rest);
      ghost var head := buf[..fp];
      if room > 0 {
        buf[fp] := data[i];
        assert buf[..fp] == head;
        fp := fp + 1;
        assert buf[..fp] == head + [data[i]];
        Joined(put, [data[i]], Store(room - 1, rest[1..]).put);
        put := put + [data[i]];
      } else {
        Joined(put, [], Store(room - 1, rest[1..]).put);
      }
      room := room - 1;
      i := i + 1;
      if room <= 0 && |data| - i > 0 {
        return fp, room, true, put;
      }
    }
    EmptyStore(room);
  }

  lemma EmptyStore(room: int)
    ensures Store(room, []) == Stored([], room, false)
  {
  }

  lemma Joined(a: Bytes, b: Bytes, c: Bytes)
    ensures a + (b + c) == (a + b) + c && a + [] == a
  {
  }

  /** tftpc_get from the first wait on, over all the turns of a run; Running at the end means that the run is cut off
      there.  The buffer has room for `len` bytes; nothing behind the bytes received is touched. */
  method TftpGet(buf: array<bv8>, len: int, net: seq<Turn>)
    returns (status: Status, totalSize: nat, acks: seq<nat>, ghost g: Get)
    requires len <= buf.Length
    modifies buf
    ensures g == GetRun(GetStart(len), net) && status == g.status && totalSize == g.reported && acks == g.acks
    ensures |g.got| <= buf.Length && buf[..|g.got|] == g.got
    ensures forall i :: |g.got| <= i < buf.Length ==> buf[i] == old(buf[i])
  {
    hide Store;
    var fp: nat, timeouts: nat, last: nat, room, total: nat := 0, 0, 0, len, 0;
    totalSize, acks, status := 0, [], Running;
    g := GetStart(len);
    var at := 0;
    while at < |net| && status.Running?
      invariant 0 <= at <= |net| && fp <= buf.Length && (room > 0 ==> fp + room <= buf.Length)
      invariant GetRun(g, net[at..]) == GetRun(GetStart(len), net)
      invariant g == Get(last, room, buf[..fp], total, timeouts, acks, status, totalSize)
      invariant forall i :: fp <= i < buf.Length ==> buf[i] == old(buf[i])
      decreases |net| - at
    {
      var t := net[at];
      assert net[at..][0] == t && net[at..][1..] == net[at + 1..];
      g := GetStep(g, t);
      at := at + 1;
      match t.arrival
      case Broken =>
        status := Done(NET_ERR);
      case Silent =>
        timeouts := timeouts + 1;
        if timeouts > TIMEOUT_NUM || last == 0 {
          status := Done(TIMEOUT);
        } else if !t.sendOk {
          status := Done(NET_ERR);
        } else {
          acks := acks + [last % 0x1_0000];
        }
      case Datagram(p) =>
        match p {
          case Data(block, data) =>
            var short := false;
            if block == last + 1 {
              total := total + |data|;
              var full;
              ghost var put;
              fp, room, full, put := StoreBlock(buf, fp, room, data);
              if full {
                status := Done(TOO_LARGE);
              } else {
                last := last + 1;
                short := |data| < SEG;
              }
            }
            if status.Running? {
              if !t.sendOk {
                status := Done(NET_ERR);
              } else {
                acks := acks + [last % 0x1_0000];
                if room == 0 || short {
                  totalSize := total;
                  status := Done(OK);
                }
              }
            }
          case Error(code) =>
            status := Done(code);
          case _ =>
            status := Done(UNKNOWN);
        }
    }
    assert status.Done? || net[at..] == [];
  }
}
