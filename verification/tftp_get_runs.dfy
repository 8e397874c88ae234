/** Runs of tftpc_get (src/net/tftp_client.c) against a server that follows RFC 1350, over a network that loses, repeats
    and reorders datagrams. */
module TftpGetRuns {
  import opened Numbers
  import opened TftpClient

  /** Block k of a file, for k from 1: 512 bytes, less in the last block, which may be empty. */
  function Chunk(file: Bytes, k: nat): (r: Bytes)
    requires 1 <= k <= LastBlock(file)
    ensures |r| <= SEG && (|r| < SEG <==> k == LastBlock(file))
  {
    file[SEG * (k - 1)..Min(SEG * k, |file|)]
  }

  function LastBlock(file: Bytes): nat { |file| / SEG + 1 }

  /** A block the server may have sent by now: any block up to the one after the last that was acknowledged, numbered
      modulo 65536. */
  ghost predicate FromServer(file: Bytes, g: Get, block: nat, data: Bytes) {
    exists k :: 1 <= k <= LastBlock(file) && k <= g.last + 1 && block == k % 0x1_0000 && data == Chunk(file, k)
  }

  ghost predicate Honest(file: Bytes, g: Get, t: Turn) {
    t.arrival.Datagram? && t.arrival.p.Data? ==> FromServer(file, g, t.arrival.p.block, t.arrival.p.data)
  }

  /** Every data block of the run comes from the server; errors, timeouts and other datagrams come as they like. */
  ghost predicate HonestRun(file: Bytes, g: Get, net: seq<Turn>)
    decreases |net|
  {
    net == [] || g.status.Done? || (Honest(file, g, net[0]) && HonestRun(file, GetStep(g, net[0]), net[1..]))
  }

  // ---------------------------------------------------------------- what the copy loop amounts to

  lemma {:induction false} StoreWithRoom(room: int, data: Bytes)
    requires room > 0
    ensures |data| <= room ==> Store(room, data) == Stored(data, room - |data|, false)
    ensures |data| > room ==> Store(room, data).put == data[..room] && Store(room, data).full
    decreases |data|
  {
    hide Store;
    if data == [] {
      EmptyStore(room);
    } else {
      StoreNext(room, data);
      assert [data[0]] + data[1..] == data;
      if room > 1 {
        StoreWithRoom(room - 1, data[1..]);
        if |data| > room { assert [data[0]] + data[1..][..room - 1] == data[..room]; }
      } else if |data| == 1 {
        EmptyStore(0);
        assert data[1..] == [];
      } else {
        assert data[..1] == [data[0]];
      }
    }
  }

  /** A block that is repeated or late never passes for the one expected, and block 65536 is never accepted. */
  lemma BlockIsTheNext(file: Bytes, g: Get, block: nat, data: Bytes)
    requires FromServer(file, g, block, data) && block == g.last + 1
    ensures block < 0x1_0000 && block <= LastBlock(file) && data == Chunk(file, block)
  {
    var k :| 1 <= k <= LastBlock(file) && k <= g.last + 1 && block == k % 0x1_0000 && data == Chunk(file, k);
    assert k % 0x1_0000 <= k;
  }

  // ---------------------------------------------------------------- safety

  /** What the client has, in every state of a run. */
  ghost predicate Faithful(file: Bytes, len: int, g: Get) {
    && g.last <= LastBlock(file) && g.last < 0x1_0000 && |g.got| <= len
    && g.got <= file
    && (g.status.Running? ==>
          g.last < LastBlock(file) && g.total == |g.got| == SEG * g.last && g.room == len - |g.got| > 0
              && g.reported == 0)
    && (g.reported > 0 ==> g.status == Done(OK))
    && (g.status == Done(TOO_LARGE) ==> |g.got| == len < |file|)
  }

  /** A run that reports success has everything, or exactly as much as the buffer holds; and the latter without the
      former can only happen when the buffer ends on a block boundary. */
  ghost predicate Complete(file: Bytes, len: int, g: Get) {
    && 0 <= len && g.reported == |g.got| && g.got == file[..Min(len, |file|)]
    && (len < |file| ==> len % SEG == 0)
  }

  predicate ZeroError(t: Turn) {
    t.arrival == Datagram(Error(0))
  }

  lemma TakeBlockFaithful(file: Bytes, len: int, g: Get, sendOk: bool)
    requires Faithful(file, len, g) && g.status.Running? && g.last + 1 < 0x1_0000
    ensures var g' := TakeBlock(g, Chunk(file, g.last + 1), sendOk);
      Faithful(file, len, g') && (g'.status == Done(OK) ==> Complete(file, len, g'))
  {
    var k := g.last + 1;
    hide Store;
    var data := Chunk(file, k);
    StoreWithRoom(g.room, data);
    assert g.got == file[..SEG * g.last];
    assert data == file[SEG * g.last..Min(SEG * k, |file|)];
    if |data| <= g.room {
      assert g.got + data == file[..Min(SEG * k, |file|)];
    } else {
      assert g.got + data[..g.room] == file[..len];
    }
  }

  lemma StepFaithful(file: Bytes, len: int, g: Get, t: Turn)
    requires Faithful(file, len, g) && g.status.Running? && Honest(file, g, t)
    ensures var g' := GetStep(g, t);
      && Faithful(file, len, g')
      && (g'.status == Done(OK) && !ZeroError(t) ==> Complete(file, len, g'))
      && (ZeroError(t) ==> g'.status == Done(OK) && g'.reported == 0)
  {
    hide Chunk, TakeBlock, LastBlock;
    if t.arrival.Datagram? && t.arrival.p.Data? && t.arrival.p.block == g.last + 1 {
      BlockIsTheNext(file, g, t.arrival.p.block, t.arrival.p.data);
      TakeBlockFaithful(file, len, g, t.sendOk);
    }
  }

  /** Whether the run is ended by an error packet with code 0, RFC 1350's "not defined". */
  predicate EndsInZeroError(g: Get, net: seq<Turn>)
    decreases |net|
  {
    net != [] && g.status.Running? && (ZeroError(net[0]) || EndsInZeroError(GetStep(g, net[0]), net[1..]))
  }

  lemma {:induction false} RunFaithful(file: Bytes, len: int, g: Get, net: seq<Turn>)
    requires Faithful(file, len, g) && g.status.Running? && HonestRun(file, g, net)
    ensures var r := GetRun(g, net);
      && Faithful(file, len, r)
      && (r.status == Done(OK) && !EndsInZeroError(g, net) ==> Complete(file, len, r))
      && (EndsInZeroError(g, net) ==> r.status == Done(OK) && r.reported == 0)
    decreases |net|
  {
    hide GetStep, Faithful, Complete, Honest;
    if net != [] {
      StepFaithful(file, len, g, net[0]);
      var g1 := GetStep(g, net[0]);
      if g1.status.Running? {
        RunFaithful(file, len, g1, net[1..]);
      } else {
        assert GetRun(g1, net[1..]) == g1 && !EndsInZeroError(g1, net[1..]);
      }
    }
  }

  /** Safety in every run with a buffer of at least one byte: the buffer holds a prefix of the file, each block stored
      once in its place, never more than len bytes; a success reports the file's size, or len when the file is longer;
      except when the server refuses with error code 0, which the caller takes for success: then, and only then, the
      size reported with a success is neither, unless the file is empty. */
  lemma GetIsFaithful(file: Bytes, len: int, net: seq<Turn>)
    requires len > 0 && HonestRun(file, GetStart(len), net)
    ensures var r := GetRun(GetStart(len), net);
      && r.got <= file && |r.got| <= len
      && (r.status == Done(OK) && !EndsInZeroError(GetStart(len), net) ==>
            r.reported == Min(len, |file|) && r.got == file[..r.reported] && (len < |file| ==> len % SEG == 0))
      && (r.status == Done(OK)
          ==> (r.reported == Min(len, |file|) <==> !EndsInZeroError(GetStart(len), net) || file == []))
      && (r.status == Done(TOO_LARGE) ==> len < |file| && r.got == file[..len])
  {
    var g := GetStart(len);
    assert Faithful(file, len, g);
    RunFaithful(file, len, g, net);
  }

  /** More blocks than block numbers are needed to reach the end of the file or of the buffer. */
  predicate TooLong(file: Bytes, len: int) {
    if |file| < len then |file| >= SEG * 0xFFFF else len > SEG * 0xFFFF
  }

  /** Such a transfer never reports success, whatever arrives: the block after number 65535 is waited for in vain. */
  lemma {:induction false} LongFilesNeverComplete(file: Bytes, len: int, g: Get, net: seq<Turn>)
    requires TooLong(file, len) && Faithful(file, len, g) && g.status.Running? && HonestRun(file, g, net)
    ensures GetRun(g, net).reported == 0
    decreases |net|
  {
    if net != [] {
      StepFaithful(file, len, g, net[0]);
      var g1 := GetStep(g, net[0]);
      StepIncomplete(file, len, g, net[0]);
      if g1.status.Running? {
        LongFilesNeverComplete(file, len, g1, net[1..]);
      }
    }
  }

  lemma StepIncomplete(file: Bytes, len: int, g: Get, t: Turn)
    requires TooLong(file, len) && Faithful(file, len, g) && g.status.Running? && Honest(file, g, t)
    ensures GetStep(g, t).reported == 0
  {
    if t.arrival.Datagram? && t.arrival.p.Data? && t.arrival.p.block == g.last + 1 {
      BlockIsTheNext(file, g, t.arrival.p.block, t.arrival.p.data);
      StoreWithRoom(g.room, t.arrival.p.data);
      hide Store;
    }
  }

  /** The buffer takes the whole file, or ends with one of its blocks. */
  predicate Fits(file: Bytes, len: int) {
    |file| <= len || len % SEG == 0
  }

  // ---------------------------------------------------------------- progress

  /** The undisturbed exchange from block k on. */
  function Undisturbed(file: Bytes, k: nat): seq<Turn>
    requires 1 <= k <= LastBlock(file)
    decreases LastBlock(file) - k
  {
    [Turn(Datagram(Data(k, Chunk(file, k))), true)] + if k == LastBlock(file) then [] else Undisturbed(file, k + 1)
  }

  /** A success that an error with code 0 does not fake. */
  predicate Succeeds(g: Get, net: seq<Turn>) {
    GetRun(g, net).status == Done(OK) && !EndsInZeroError(g, net)
  }

  /** Whatever has happened before, an undisturbed exchange completes the transfer when the file fits the buffer and
      neither has more blocks than block numbers. */
  lemma {:induction false} UndisturbedCompletes(file: Bytes, len: int, g: Get)
    requires !TooLong(file, len) && Fits(file, len) && Faithful(file, len, g) && g.status.Running?
    ensures var net := Undisturbed(file, g.last + 1); var r := GetRun(g, net);
      && HonestRun(file, g, net) && Succeeds(g, net)
      && r.reported == Min(len, |file|) && r.got == file[..Min(len, |file|)]
    decreases LastBlock(file) - g.last
  {
    hide TakeBlock, LastBlock, Chunk, Answer, Store;
    var k := g.last + 1;
    var t := Turn(Datagram(Data(k, Chunk(file, k))), true);
    var net := Undisturbed(file, k);
    var rest := if k == LastBlock(file) then [] else Undisturbed(file, k + 1);
    assert net[0] == t && net[1..] == rest;
    NextHasNumber(file, len, g);
    assert FromServer(file, g, k, Chunk(file, k)) by { assert k == k % 0x1_0000; }
    TakeBlockFaithful(file, len, g, true);
    OneBlock(file, len, g);
    var g1 := GetStep(g, t);
    assert GetRun(g, net) == GetRun(g1, rest);
    if g1.status.Running? {
      UndisturbedCompletes(file, len, g1);
    } else {
      assert GetRun(g1, rest) == g1 && !EndsInZeroError(g1, rest);
    }
  }

  lemma NextHasNumber(file: Bytes, len: int, g: Get)
    requires !TooLong(file, len) && Faithful(file, len, g) && g.status.Running?
    ensures g.last + 1 < 0x1_0000
  {
  }

  lemma OneBlock(file: Bytes, len: int, g: Get)
    requires Fits(file, len) && Faithful(file, len, g) && g.status.Running?
    ensures var g1 := TakeBlock(g, Chunk(file, g.last + 1), true);
      if g.last + 1 == LastBlock(file) || g.room == |Chunk(file, g.last + 1)| then g1.status == Done(OK)
      else g1.status.Running? && g1.last == g.last + 1
  {
    StoreWithRoom(g.room, Chunk(file, g.last + 1));
    hide Store;
    assert len >= |file| || len - SEG * g.last >= SEG;
  }

  /** A fetch into a buffer of at least one byte can succeed exactly when the file fits, or the buffer ends with one of
      its blocks, and there are enough block numbers for the blocks up to there. */
  lemma GetSucceedsIff(file: Bytes, len: int)
    requires len > 0
    ensures (exists net :: HonestRun(file, GetStart(len), net) && Succeeds(GetStart(len), net)) <==>
            !TooLong(file, len) && Fits(file, len)
  {
    var g := GetStart(len);
    assert Faithful(file, len, g);
    if !TooLong(file, len) && Fits(file, len) {
      UndisturbedCompletes(file, len, g);
      assert Succeeds(g, Undisturbed(file, 1));
    } else {
      forall net | HonestRun(file, g, net) ensures !Succeeds(g, net) {
        RunFaithful(file, len, g, net);
        if TooLong(file, len) {
          LongFilesNeverComplete(file, len, g, net);
        }
      }
    }
  }

  // ---------------------------------------------------------------- acknowledgements and the edge of the buffer

  /** Only blocks that are stored are acknowledged; this is why a server can be no further than the next one. */
  ghost predicate Backed(g: Get) {
    forall i :: 0 <= i < |g.acks| ==> g.acks[i] <= g.last
  }

  lemma {:induction false} AcksAreBacked(g: Get, net: seq<Turn>)
    requires Backed(g)
    ensures Backed(GetRun(g, net))
    decreases |net|
  {
    if net != [] && g.status.Running? {
      StepBacked(g, net[0]);
      AcksAreBacked(GetStep(g, net[0]), net[1..]);
    }
  }

  lemma StepBacked(g: Get, t: Turn)
    requires Backed(g)
    ensures Backed(GetStep(g, t))
  {
    hide Store;
    var g' := GetStep(g, t);
    forall i | 0 <= i < |g'.acks| ensures g'.acks[i] <= g'.last {
      if i < |g.acks| { assert g'.acks[i] == g.acks[i]; }
    }
  }

  /** With no room at all a one-byte file is reported as received, and nothing is written. */
  lemma NoRoomOneByte(len: int, b: bv8)
    requires len <= 0
    ensures var net := [Turn(Datagram(Data(1, [b])), true)];
      var r := GetRun(GetStart(len), net);
      HonestRun([b], GetStart(len), net) && r.status == Done(OK) && r.reported == 1 && r.got == []
  {
    hide Store;
    var g, t := GetStart(len), Turn(Datagram(Data(1, [b])), true);
    StoreNext(len, [b]);
    EmptyStore(len - 1);
    assert [b][1..] == [];
    var g1 := GetStep(g, t);
    assert g1.status == Done(OK) && g1.reported == 1 && g1.got == [];
    assert Chunk([b], 1) == [b];
    assert FromServer([b], g, 1, [b]) by { assert 1 == 1 % 0x1_0000; }
    OneTurn([b], g, t);
  }

  lemma OneTurn(file: Bytes, g: Get, t: Turn)
    requires g.status.Running? && Honest(file, g, t) && GetStep(g, t).status.Done?
    ensures HonestRun(file, g, [t]) && GetRun(g, [t]) == GetStep(g, t)
  {
    hide GetStep, Honest;
    var g1 := GetStep(g, t);
    assert [t][0] == t && [t][1..] == [];
    assert HonestRun(file, g1, []) && GetRun(g1, []) == g1;
  }
}
