/** src/ide/libata-scsi.c: the write that sends data to the disk while USB is still filling the buffer.  The last
    word of every 8 KB piece holds a pattern until the piece has arrived; the loop polls these words. */
module PipelinedWrite {
  import opened ByteData

  const PIPE := 8192                   // SW_PIPE_SIZE
  const SECTOR := 512                  // IDE_SECTOR_SIZE
  const PATTERN := 0x91A2_C3D4         // CHECK_PATTERN1

  /** Whole pieces. */
  function Chunks(n: nat): nat { n / PIPE }

  /** Whole pieces and the remainder, if there is one. */
  function Pieces(n: nat): nat { if n % PIPE == 0 then n / PIPE else n / PIPE + 1 }

  /** Where piece k ends. */
  function End(n: nat, k: nat): nat { if k < Chunks(n) then k * PIPE + PIPE else n }

  /** The word that is polled for piece k. */
  function Mark(n: nat, k: nat): int { End(n, k) - 4 }

  /** A look at the buffer: what is in it, and how many pieces have arrived. */
  datatype Look = Look(memory: Bytes, arrived: nat)

  predicate Request(data: Bytes) { data != [] && |data| % SECTOR == 0 }

  /** Pieces arrive in order; those that have are in place, the others still show the pattern. */
  ghost predicate LookOk(data: Bytes, l: Look)
    requires Request(data)
  {
    && |l.memory| == |data| && l.arrived <= Pieces(|data|)
    && (forall k :: 0 <= k < l.arrived ==>
          End(|data|, k) <= |data| && l.memory[..End(|data|, k)] == data[..End(|data|, k)])
    && (forall k :: l.arrived <= k < Pieces(|data|) ==> Polled(l.memory, |data|, k) == PATTERN)
  }

  /** The word polled for piece k. */
  function Polled(memory: Bytes, n: nat, k: nat): nat
    requires |memory| == n && n % SECTOR == 0 && k < Pieces(n)
  {
    MarkInside(n, k);
    Le32At(memory, Mark(n, k))
  }

  lemma MarkInside(n: nat, k: nat)
    requires n % SECTOR == 0 && k < Pieces(n)
    ensures 0 <= Mark(n, k) && Mark(n, k) + 4 == End(n, k) <= n && k * PIPE < End(n, k) && End(n, k) % SECTOR == 0
  {
    assert n == n / PIPE * PIPE + n % PIPE;
    if k < Chunks(n) {
      assert (k + 1) * PIPE <= n / PIPE * PIPE;
    }
  }

  /** The buffer as it is looked at, one look after the other. */
  ghost predicate Schedule(data: Bytes, looks: seq<Look>)
    requires Request(data)
  {
    && (forall t :: 0 <= t < |looks| ==> LookOk(data, looks[t]))
    && (forall t, u :: 0 <= t < u < |looks| ==> looks[t].arrived <= looks[u].arrived)
  }

  /** No piece ends with the pattern itself. */
  ghost predicate NoClash(data: Bytes)
    requires Request(data)
  {
    forall k :: 0 <= k < Pieces(|data|) ==> Polled(data, |data|, k) != PATTERN
  }

  lemma SeenHasArrived(data: Bytes, l: Look, k: nat)
    requires Request(data) && LookOk(data, l) && k < Pieces(|data|) && Polled(l.memory, |data|, k) != PATTERN
    ensures k < l.arrived
  {
  }

  /** A piece that has arrived shows its own last word. */
  lemma ArrivedShows(data: Bytes, l: Look, k: nat)
    requires Request(data) && LookOk(data, l) && k < l.arrived
    ensures Polled(l.memory, |data|, k) == Polled(data, |data|, k)
  {
    MarkInside(|data|, k);
    var m, e := Mark(|data|, k), End(|data|, k);
    SliceOfSlice(l.memory, 0, e, m, 4);
    SliceOfSlice(data, 0, e, m, 4);
    SameWord(l.memory, data, m);
  }

  // ---------------------------------------------------------------- commands

  /** write_dma(block, size, &buffer[offset]) */
  datatype Dma = Dma(sector: nat, size: nat, offset: nat)

  /** The commands write the bytes up to `upto`, each once, in ascending order, each to the sector that goes with its
      place in the buffer. */
  ghost predicate Covers(cmds: seq<Dma>, block: nat, upto: nat)
    decreases |cmds|
  {
    if cmds == [] then upto == 0
    else
      var c := cmds[|cmds| - 1];
      && c.size > 0 && c.offset + c.size == upto && c.offset % SECTOR == 0 && c.sector == block + c.offset / SECTOR
      && Covers(cmds[..|cmds| - 1], block, c.offset)
  }

  lemma CoverMore(cmds: seq<Dma>, block: nat, upto: nat, c: Dma)
    requires Covers(cmds, block, upto) && c.size > 0 && c.offset == upto && upto % SECTOR == 0
    requires c.sector == block + upto / SECTOR
    ensures Covers(cmds + [c], block, upto + c.size)
  {
    assert (cmds + [c])[..|cmds|] == cmds;
  }

  /** Byte `at` of the disk after all the commands, carried out on a buffer. */
  function DiskAfter(disk: Bytes, cmds: seq<Dma>, buffer: Bytes, at: nat): byte
    requires at < |disk| && forall i :: 0 <= i < |cmds| ==> cmds[i].offset + cmds[i].size <= |buffer|
    decreases |cmds|
  {
    if cmds == [] then disk[at]
    else
      var c := cmds[|cmds| - 1];
      if c.sector * SECTOR <= at < c.sector * SECTOR + c.size then buffer[c.offset + (at - c.sector * SECTOR)]
      else DiskAfter(disk, cmds[..|cmds| - 1], buffer, at)
  }

  lemma {:induction false} CoversInside(cmds: seq<Dma>, block: nat, upto: nat)
    requires Covers(cmds, block, upto)
    ensures forall i :: 0 <= i < |cmds| ==> cmds[i].offset + cmds[i].size <= upto
    decreases |cmds|
  {
    if cmds != [] {
      CoversInside(cmds[..|cmds| - 1], block, cmds[|cmds| - 1].offset);
    }
  }

  /** Commands that cover n bytes put exactly these bytes at their sectors, and touch nothing else. */
  lemma {:induction false} CoversWrites(disk: Bytes, cmds: seq<Dma>, block: nat, upto: nat, buffer: Bytes, at: nat)
    requires Covers(cmds, block, upto) && upto <= |buffer| && at < |disk|
    ensures (CoversInside(cmds, block, upto);
             DiskAfter(disk, cmds, buffer, at)) ==
            if block * SECTOR <= at < block * SECTOR + upto then buffer[at - block * SECTOR] else disk[at]
    decreases |cmds|
  {
    if cmds != [] {
      var c := cmds[|cmds| - 1];
      assert c.sector * SECTOR == block * SECTOR + c.offset;
      CoversWrites(disk, cmds[..|cmds| - 1], block, c.offset, buffer, at);
    }
  }

  // ---------------------------------------------------------------- schedules

  /** The looks that have been taken at most when i pieces have been sent: those until everything has arrived, and
      those the loops take besides. */
  function Budget(late: nat, i: nat, chunks: nat): nat { late + i * (chunks + 1) }

  function Enough(late: nat, n: nat): nat { Budget(late, Chunks(n), Chunks(n)) + 2 }

  /** From look `late` on everything has arrived. */
  ghost predicate AllFrom(data: Bytes, looks: seq<Look>, late: nat) {
    forall t :: late <= t < |looks| ==> looks[t].arrived == Pieces(|data|)
  }

  /** Until the pieces before k have been sent, no more than these have arrived. */
  ghost predicate HeldUp(looks: seq<Look>, n: nat, k: nat) {
    forall t :: 0 <= t < |looks| && t < Budget(0, k, Chunks(n)) ==> looks[t].arrived == k
  }

  function Max(a: nat, b: nat): nat { if a < b then b else a }

  // ---------------------------------------------------------------- what the loops see

  predicate Sized(n: nat, looks: seq<Look>) {
    n % SECTOR == 0 && forall t :: 0 <= t < |looks| ==> |looks[t].memory| == n
  }

  /** Waiting for piece k from look `start` on: the number of looks taken when it is seen. */
  function WaitAt(n: nat, looks: seq<Look>, start: nat, k: nat): (t: Option<nat>)
    requires Sized(n, looks) && k < Pieces(n) && start <= |looks|
    ensures t.Some? ==> start < t.value <= |looks|
    decreases |looks| - start
  {
    if start == |looks| then None
    else if Polled(looks[start].memory, n, k) != PATTERN then Some(start + 1)
    else WaitAt(n, looks, start + 1, k)
  }

  datatype Bulk = Bulk(size: nat, t: nat)

  /** One look for each piece from j on; the pieces seen add to the bulk. */
  function ScanAt(n: nat, looks: seq<Look>, start: nat, j: nat, bulk: nat): (r: Option<Bulk>)
    requires Sized(n, looks) && j <= Chunks(n) <= Pieces(n) && start <= |looks|
    ensures r.Some? ==> bulk <= r.value.size <= bulk + (Chunks(n) - j) && start <= r.value.t <= |looks|
    decreases Chunks(n) - j
  {
    if j == Chunks(n) then Some(Bulk(bulk, start))
    else if start == |looks| then None
    else ScanAt(n, looks, start + 1, j + 1, if Polled(looks[start].memory, n, j) != PATTERN then bulk + 1 else bulk)
  }

  /** One command: wait for piece i, then look ahead. */
  function Round(n: nat, looks: seq<Look>, start: nat, i: nat): (r: Option<Bulk>)
    requires Sized(n, looks) && i < Chunks(n) <= Pieces(n) && start <= |looks|
    ensures r.Some? ==> 0 < r.value.size <= Chunks(n) - i && start < r.value.t <= |looks|
  {
    var t := WaitAt(n, looks, start, i);
    if t.None? then None else ScanAt(n, looks, t.value, i + 1, 1)
  }

  /** The write comes to its end, from piece i on. */
  predicate FinishesFrom(n: nat, looks: seq<Look>, start: nat, i: nat)
    requires Sized(n, looks) && i <= Chunks(n) <= Pieces(n) && start <= |looks|
    decreases Chunks(n) - i
  {
    if i == Chunks(n) then n % PIPE == 0 || WaitAt(n, looks, start, i).Some?
    else
      var r := Round(n, looks, start, i);
      r.Some? && FinishesFrom(n, looks, r.value.t, i + r.value.size)
  }

  predicate Finishes(n: nat, looks: seq<Look>)
    requires Sized(n, looks)
  {
    ChunkFacts(n);
    FinishesFrom(n, looks, 0, 0)
  }

  lemma ScheduleSized(data: Bytes, looks: seq<Look>)
    requires Request(data) && Schedule(data, looks)
    ensures Sized(|data|, looks)
  {
  }

  lemma {:induction false} WaitFacts(data: Bytes, looks: seq<Look>, start: nat, k: nat, late: nat)
    requires Request(data) && Schedule(data, looks) && Sized(|data|, looks) && AllFrom(data, looks, late)
    requires k < Pieces(|data|) && start <= |looks|
    ensures var t := WaitAt(|data|, looks, start, k);
      && (t.Some? ==> looks[t.value - 1].arrived > k)
      && (NoClash(data) && t.Some? ==> t.value <= Max(start, late) + 1)
      && (NoClash(data) && t.None? ==> |looks| <= Max(start, late))
      && (Polled(data, |data|, k) == PATTERN ==> t.None?)
      && (t.Some? && looks[start].arrived > k ==> t.value == start + 1)
    decreases |looks| - start
  {
    hide Polled, LookOk;
    if start < |looks| {
      var l := looks[start];
      if Polled(l.memory, |data|, k) != PATTERN {
        SeenHasArrived(data, l, k);
        ArrivedShows(data, l, k);
      } else {
        WaitFacts(data, looks, start + 1, k, late);
        if l.arrived > k { ArrivedShows(data, l, k); }
      }
    }
  }

  lemma {:induction false} ScanFacts(data: Bytes, looks: seq<Look>, start: nat, i: nat, j: nat, bulk: nat)
    requires Request(data) && Schedule(data, looks) && Sized(|data|, looks) && 0 < start <= |looks|
    requires i + bulk <= j <= Chunks(|data|) <= Pieces(|data|) && looks[start - 1].arrived >= i + bulk
    ensures var r := ScanAt(|data|, looks, start, j, bulk);
      && (r.Some? ==> r.value.t == start + Chunks(|data|) - j && looks[r.value.t - 1].arrived >= i + r.value.size)
      && (r.None? ==> |looks| < start + Chunks(|data|) - j)
    decreases Chunks(|data|) - j
  {
    hide Polled, LookOk;
    if j < Chunks(|data|) && start < |looks| {
      var seen := Polled(looks[start].memory, |data|, j) != PATTERN;
      if seen { SeenHasArrived(data, looks[start], j); }
      ScanFacts(data, looks, start + 1, i, j + 1, if seen then bulk + 1 else bulk);
    }
  }

  lemma RoundFacts(data: Bytes, looks: seq<Look>, start: nat, i: nat, late: nat)
    requires Request(data) && Schedule(data, looks) && Sized(|data|, looks) && AllFrom(data, looks, late)
    requires i < Chunks(|data|) <= Pieces(|data|) && start <= |looks|
    ensures var r := Round(|data|, looks, start, i); var c := Chunks(|data|);
      && (r.Some? ==> looks[r.value.t - 1].arrived >= i + r.value.size)
      && (NoClash(data) && r.Some? ==> r.value.t <= Max(start, late) + c)
      && (NoClash(data) && r.None? ==> |looks| < Max(start, late) + c + 1)
      && (Polled(data, |data|, i) == PATTERN ==> r.None?)
      && (r.Some? && looks[start].arrived > i ==> r.value.t <= start + c)
  {
    hide Polled, LookOk, Schedule, AllFrom, NoClash, WaitAt, ScanAt;
    WaitFacts(data, looks, start, i, late);
    var t := WaitAt(|data|, looks, start, i);
    if t.Some? {
      ScanFacts(data, looks, t.value, i, i + 1, 1);
    }
  }

  /** Without a piece that ends with the pattern, enough looks let the write finish. */
  lemma {:induction false} EnoughFinishes(data: Bytes, looks: seq<Look>, start: nat, i: nat, late: nat)
    requires Request(data) && Schedule(data, looks) && Sized(|data|, looks) && AllFrom(data, looks, late)
    requires NoClash(data) && |looks| >= Enough(late, |data|)
    requires i <= Chunks(|data|) <= Pieces(|data|) && start <= |looks| && start <= Budget(late, i, Chunks(|data|))
    ensures FinishesFrom(|data|, looks, start, i)
    decreases Chunks(|data|) - i
  {
    hide Polled, LookOk, Schedule, AllFrom, NoClash, Budget, Round;
    var c := Chunks(|data|);
    BudgetGrows(late, i, c, c);
    if i == c {
      if |data| % PIPE != 0 { WaitFacts(data, looks, start, i, late); }
    } else {
      RoundFacts(data, looks, start, i, late);
      var r := Round(|data|, looks, start, i);
      assert r.Some?;
      BudgetGrows(late, i, i + r.value.size, c);
      EnoughFinishes(data, looks, r.value.t, i + r.value.size, late);
    }
  }

  /** A piece that ends with the pattern stops a write that has to wait for it. */
  lemma {:induction false} ClashStops(data: Bytes, looks: seq<Look>, start: nat, i: nat, late: nat, k: nat)
    requires Request(data) && Schedule(data, looks) && Sized(|data|, looks) && AllFrom(data, looks, late)
    requires k < Pieces(|data|) && Polled(data, |data|, k) == PATTERN && HeldUp(looks, |data|, k)
    requires i <= k && i <= Chunks(|data|) <= Pieces(|data|)
    requires start <= |looks| && start <= Budget(0, i, Chunks(|data|))
    ensures !FinishesFrom(|data|, looks, start, i)
    decreases Chunks(|data|) - i
  {
    hide Polled, LookOk, Schedule, AllFrom, NoClash, Budget, Round;
    var c := Chunks(|data|);
    if i == c {
      ChunkFacts(|data|);
      WaitFacts(data, looks, start, i, late);
    } else {
      RoundFacts(data, looks, start, i, late);
      var r := Round(|data|, looks, start, i);
      if r.Some? {
        BudgetGrows(0, i, k, c);
        BudgetGrows(0, i, i + r.value.size, c);
        HeldBack(data, looks, start, i, k, r.value.t, r.value.size);
        ClashStops(data, looks, r.value.t, i + r.value.size, late, k);
      }
    }
  }

  lemma HeldBack(data: Bytes, looks: seq<Look>, start: nat, i: nat, k: nat, t: nat, size: nat)
    requires Request(data) && Schedule(data, looks) && HeldUp(looks, |data|, k) && i < k && start < t <= |looks|
    requires var c := Chunks(|data|); start <= Budget(0, i, c) && Budget(0, i, c) + c + 1 <= Budget(0, k, c)
    requires looks[t - 1].arrived >= i + size && (looks[start].arrived > i ==> t <= start + Chunks(|data|))
    ensures i + size <= k && t <= start + Chunks(|data|)
  {
    hide LookOk, Budget;
  }

  /** A buffer in which the pieces before k have arrived. */
  function Waiting(data: Bytes, k: nat): (l: Look)
    requires k * PIPE <= |data|
    ensures l.arrived == k
  {
    Look(seq(|data|, x requires 0 <= x < |data| => if x < k * PIPE then data[x] else PatternByte(x)), k)
  }

  /** The pattern, repeated. */
  function PatternByte(x: nat): byte {
    if x % 4 == 0 then 0xD4 else if x % 4 == 1 then 0xC3 else if x % 4 == 2 then 0xA2 else 0x91
  }

  lemma ArrivedInPlace(data: Bytes, k: nat, j: nat)
    requires Request(data) && j < k < Pieces(|data|)
    ensures k * PIPE <= |data| && End(|data|, j) <= k * PIPE
    ensures Waiting(data, k).memory[..End(|data|, j)] == data[..End(|data|, j)]
  {
    hide PatternByte;
    MarkInside(|data|, k);
    MarkInside(|data|, j);
  }

  lemma WholeSectors(e: nat, j: nat)
    requires e % SECTOR == 0 && j * PIPE < e
    ensures e - 4 >= j * PIPE && (e - 4) % 4 == 0
  {
    var q := e / SECTOR;
    assert e == q * SECTOR && q > j * (PIPE / SECTOR);
  }

  lemma NotArrived(data: Bytes, k: nat, j: nat)
    requires Request(data) && k <= j < Pieces(|data|)
    ensures k * PIPE <= |data| && Polled(Waiting(data, k).memory, |data|, j) == PATTERN
  {
    hide Waiting, Pieces, End;
    MarkInside(|data|, j);
    WholeSectors(End(|data|, j), j);
    PatternShows(data, k, Mark(|data|, j));
  }

  lemma WaitingIsOk(data: Bytes, k: nat)
    requires Request(data) && k < Pieces(|data|)
    ensures k * PIPE <= |data| && LookOk(data, Waiting(data, k))
  {
    hide End, Pieces, Polled;
    MarkInside(|data|, k);
    var l := Waiting(data, k);
    forall j | 0 <= j < k ensures End(|data|, j) <= |data| && l.memory[..End(|data|, j)] == data[..End(|data|, j)] {
      ArrivedInPlace(data, k, j);
    }
    forall j | k <= j < Pieces(|data|) ensures Polled(l.memory, |data|, j) == PATTERN {
      NotArrived(data, k, j);
    }
  }

  lemma PatternBytes(m: nat)
    requires m % 4 == 0
    ensures PatternByte(m) == 0xD4 && PatternByte(m + 1) == 0xC3
    ensures PatternByte(m + 2) == 0xA2 && PatternByte(m + 3) == 0x91
  {
  }

  lemma PatternShows(data: Bytes, k: nat, m: nat)
    requires k * PIPE <= m && m + 4 <= |data| && m % 4 == 0
    ensures Le32At(Waiting(data, k).memory, m) == PATTERN
  {
    hide PatternByte;
    var w := Waiting(data, k).memory;
    PatternBytes(m);
    assert w[m] == PatternByte(m) && w[m + 1] == PatternByte(m + 1);
    assert w[m + 2] == PatternByte(m + 2) && w[m + 3] == PatternByte(m + 3);
  }

  /** The pieces before k arrive at once; the rest only after `held` looks, and then `more` looks are taken. */
  function Delayed(data: Bytes, k: nat, held: nat, more: nat): (looks: seq<Look>)
    requires k * PIPE <= |data|
    ensures |looks| == held + more
    ensures forall t :: 0 <= t < held ==> looks[t] == Waiting(data, k)
    ensures forall t :: held <= t < held + more ==> looks[t] == Look(data, Pieces(|data|))
  {
    seq(held, _ => Waiting(data, k)) + seq(more, _ => Look(data, Pieces(|data|)))
  }

  lemma DelayedIsSchedule(data: Bytes, k: nat, held: nat, more: nat)
    requires Request(data) && k < Pieces(|data|) && k * PIPE <= |data|
    ensures Schedule(data, Delayed(data, k, held, more)) && AllFrom(data, Delayed(data, k, held, more), held)
  {
    WaitingIsOk(data, k);
    assert LookOk(data, Look(data, Pieces(|data|))) by {
      forall j | 0 <= j < Pieces(|data|) ensures End(|data|, j) <= |data| { MarkInside(|data|, j); }
    }
    hide LookOk, Waiting;
  }

  /** Everything arrives in the end, and enough looks follow. */
  ghost predicate Suffices(data: Bytes, looks: seq<Look>, late: nat)
    requires Request(data)
  {
    Schedule(data, looks) && AllFrom(data, looks, late) && |looks| >= Enough(late, |data|)
  }

  /** Whatever the schedule, as long as enough looks follow the last arrival. */
  ghost predicate AlwaysFinishes(data: Bytes)
    requires Request(data)
  {
    forall looks, late :: Suffices(data, looks, late) ==> Finishes(|data|, looks)
  }

  /** A write of at least a piece is sure to finish exactly when no piece ends with the pattern. */
  lemma AlwaysFinishesIff(data: Bytes)
    requires Request(data) && |data| >= PIPE
    ensures AlwaysFinishes(data) <==> NoClash(data)
  {
    hide Polled, LookOk, Schedule, AllFrom, FinishesFrom, HeldUp;
    ChunkFacts(|data|);
    var c := Chunks(|data|);
    if NoClash(data) {
      forall looks, late | Suffices(data, looks, late)
        ensures Sized(|data|, looks) && Finishes(|data|, looks)
      {
        ScheduleSized(data, looks);
        EnoughFinishes(data, looks, 0, 0, late);
      }
    } else {
      var k :| 0 <= k < Pieces(|data|) && Polled(data, |data|, k) == PATTERN;
      WaitingIsOk(data, k);
      var held := Budget(0, k, c);
      var looks := Delayed(data, k, held, Enough(held, |data|));
      DelayedIsSchedule(data, k, held, Enough(held, |data|));
      ScheduleSized(data, looks);
      DelayedHoldsUp(data, k, Enough(held, |data|));
      ClashStops(data, looks, 0, 0, held, k);
      assert Suffices(data, looks, held);
    }
  }

  lemma DelayedHoldsUp(data: Bytes, k: nat, more: nat)
    requires Request(data) && k * PIPE <= |data|
    ensures HeldUp(Delayed(data, k, Budget(0, k, Chunks(|data|)), more), |data|, k)
  {
    hide Budget, Chunks;
  }

  // ---------------------------------------------------------------- the loops

  /** while (pbuf[...] == CHECK_PATTERN1) */
  method WaitFor(ghost data: Bytes, n: nat, looks: seq<Look>, start: nat, k: nat, ghost late: nat)
    returns (ok: bool, t: nat)
    requires Request(data) && n == |data| && Schedule(data, looks) && Sized(n, looks) && AllFrom(data, looks, late)
    requires k < Pieces(n) && start <= |looks|
    ensures WaitAt(n, looks, start, k) == if ok then Some(t) else None
    ensures start <= t <= |looks|
    ensures ok ==> start < t && looks[t - 1].arrived > k
    ensures !ok ==> t == |looks|
    ensures NoClash(data) ==> t <= Max(start, late) + 1 && (ok || |looks| <= Max(start, late))
    ensures Polled(data, n, k) == PATTERN ==> !ok
    ensures ok && start < |looks| && looks[start].arrived > k ==> t == start + 1
  {
    hide Polled, Schedule, AllFrom, NoClash;
    WaitFacts(data, looks, start, k, late);
    t := start;
    while t < |looks|
      invariant start <= t <= |looks|
      invariant WaitAt(n, looks, t, k) == WaitAt(n, looks, start, k)
    {
      t := t + 1;
      if Polled(looks[t - 1].memory, n, k) != PATTERN {
        return true, t;
      }
    }
    return false, t;
  }

  /** The loop over j: how many pieces from i on go into one command. */
  method ScanAhead(ghost data: Bytes, n: nat, looks: seq<Look>, start: nat, i: nat)
    returns (ok: bool, bulk: nat, t: nat)
    requires Request(data) && n == |data| && Schedule(data, looks) && Sized(n, looks) && i < Chunks(n) <= Pieces(n)
    requires 0 < start <= |looks| && looks[start - 1].arrived > i
    ensures ScanAt(n, looks, start, i + 1, 1) == if ok then Some(Bulk(bulk, t)) else None
    ensures start <= t <= |looks| && t <= start + Chunks(n) - i - 1
    ensures ok ==> 0 < bulk <= Chunks(n) - i && looks[t - 1].arrived >= i + bulk
    ensures !ok ==> t == |looks| < start + Chunks(n) - i - 1
  {
    hide Polled, Schedule, Chunks, Pieces;
    ScanFacts(data, looks, start, i, i + 1, 1);
    bulk, t := 1, start;
    var j := i + 1;
    while j < Chunks(n)
      invariant i < j <= Chunks(n) && start <= t <= |looks| && t - start == j - i - 1 && 0 < bulk <= j - i
      invariant ScanAt(n, looks, t, j, bulk) == ScanAt(n, looks, start, i + 1, 1)
    {
      if t == |looks| {
        return false, bulk, t;
      }
      t := t + 1;
      if Polled(looks[t - 1].memory, n, j) != PATTERN {
        bulk := bulk + 1;
      }
      j := j + 1;
    }
    return true, bulk, t;
  }

  /** The bytes of a buffer that a command takes are the data, once their pieces have arrived. */
  lemma TakenIsData(data: Bytes, l: Look, from: nat, k: nat)
    requires Request(data) && LookOk(data, l) && k < l.arrived && from <= End(|data|, k)
    ensures End(|data|, k) <= |data| && l.memory[from..End(|data|, k)] == data[from..End(|data|, k)]
  {
    var e := End(|data|, k);
    assert l.memory[from..e] == l.memory[..e][from..] == data[..e][from..] == data[from..e];
  }

  lemma Extend(data: Bytes, from: nat, upto: nat)
    requires from <= upto <= |data|
    ensures data[..from] + data[from..upto] == data[..upto]
  {
  }

  lemma BudgetGrows(late: nat, i: nat, j: nat, c: nat)
    requires i <= j
    ensures late <= Budget(late, i, c) <= Budget(late, j, c)
    ensures i < j ==> Budget(late, i, c) + c + 1 <= Budget(late, j, c)
  {
    if i < j {
      assert j * (c + 1) == i * (c + 1) + (j - i) * (c + 1);
      Times(j - i, c + 1);
    }
  }

  lemma Times(a: nat, b: nat)
    requires a > 0
    ensures a * b >= b
  {
  }

  /** The commands issued so far, and the bytes they have carried. */
  ghost predicate Progress(data: Bytes, block: nat, cmds: seq<Dma>, sent: Bytes) {
    Covers(cmds, block, |sent|) && |sent| <= |data| && sent == data[..|sent|]
  }

  /** One more command, for pieces that have arrived. */
  lemma Send(data: Bytes, block: nat, cmds: seq<Dma>, sent: Bytes, l: Look, k: nat)
    requires Request(data) && LookOk(data, l) && k < l.arrived && Progress(data, block, cmds, sent)
    requires |sent| < End(|data|, k) && |sent| % SECTOR == 0
    ensures var from, e := |sent|, End(|data|, k);
      e <= |data| == |l.memory|
      && Progress(data, block, cmds + [Dma(block + from / SECTOR, e - from, from)], sent + l.memory[from..e])
  {
    var from, e := |sent|, End(|data|, k);
    TakenIsData(data, l, from, k);
    Extend(data, from, e);
    CoverMore(cmds, block, from, Dma(block + from / SECTOR, e - from, from));
  }

  /** One round of the loop over i. */
  method SendBulk(block: nat, n: nat, ghost data: Bytes, looks: seq<Look>, start: nat, i: nat, ghost late: nat,
                  cmds: seq<Dma>, sent: Bytes)
    returns (ok: bool, bulk: nat, t: nat, cmds': seq<Dma>, sent': Bytes)
    requires Request(data) && n == |data| && Schedule(data, looks) && Sized(n, looks) && AllFrom(data, looks, late)
    requires start <= |looks| && i < Chunks(n) <= Pieces(n) && |sent| == i * PIPE && Progress(data, block, cmds, sent)
    ensures Round(n, looks, start, i) == if ok then Some(Bulk(bulk, t)) else None
    ensures start <= t <= |looks|
    ensures ok ==> 0 < bulk <= Chunks(n) - i && |sent'| == (i + bulk) * PIPE && Progress(data, block, cmds', sent')
    ensures !ok ==> cmds' == cmds && sent' == sent
    ensures NoClash(data) ==> t <= Max(start, late) + Chunks(n) && (ok || |looks| < Max(start, late) + Chunks(n) + 1)
    ensures Polled(data, n, i) == PATTERN ==> !ok
    ensures ok ==> start < t && i + bulk <= looks[t - 1].arrived
    ensures ok && looks[start].arrived > i ==> t <= start + Chunks(n)
  {
    hide LookOk, Polled, Schedule, Sized, AllFrom, NoClash, Progress, Pieces, Chunks, End, WaitAt, ScanAt;
    cmds', sent', bulk := cmds, sent, 1;
    ok, t := WaitFor(data, n, looks, start, i, late);
    if !ok {
      return;
    }
    ok, bulk, t := ScanAhead(data, n, looks, t, i);
    if !ok {
      return;
    }
    ScheduleAt(data, looks, t - 1);
    BulkEnd(n, i, bulk);
    Send(data, block, cmds, sent, looks[t - 1], i + bulk - 1);
    cmds' := cmds + [Dma(block + i * (PIPE / SECTOR), bulk * PIPE, i * PIPE)];
    sent' := sent + looks[t - 1].memory[i * PIPE..(i + bulk) * PIPE];
  }

  /** The remainder. */
  method SendRest(block: nat, n: nat, ghost data: Bytes, looks: seq<Look>, start: nat, ghost late: nat,
                  cmds: seq<Dma>, sent: Bytes)
    returns (ok: bool, cmds': seq<Dma>, sent': Bytes)
    requires Request(data) && n == |data| && Schedule(data, looks) && Sized(n, looks) && AllFrom(data, looks, late)
    requires start <= |looks| && n % PIPE != 0 && |sent| == Chunks(n) * PIPE && Progress(data, block, cmds, sent)
    ensures Chunks(n) < Pieces(n) && (ok <==> WaitAt(n, looks, start, Chunks(n)).Some?)
    ensures Progress(data, block, cmds', sent') && (ok ==> |sent'| == n)
    ensures !ok ==> cmds' == cmds && sent' == sent
    ensures NoClash(data) ==> ok || |looks| <= Max(start, late)
    ensures Polled(data, n, Chunks(n)) == PATTERN ==> !ok
  {
    hide LookOk, Polled, Schedule, Sized, AllFrom, NoClash, Progress, Chunks, Pieces, End, WaitAt;
    ChunkFacts(n);
    cmds', sent' := cmds, sent;
    var i, rest, t := Chunks(n), n % PIPE, 0;
    ok, t := WaitFor(data, n, looks, start, i, late);
    if !ok {
      return;
    }
    ScheduleAt(data, looks, t - 1);
    Send(data, block, cmds, sent, looks[t - 1], i);
    cmds' := cmds + [Dma(block + i * (PIPE / SECTOR), rest, i * PIPE)];
    sent' := sent + looks[t - 1].memory[i * PIPE..i * PIPE + rest];
  }

  /** The pipelined part of ata_scsi_rw_xlat.  `looks` is what the polls see, in the order in which they are made;
      when they run out, `done` is false and the code still waits.  Whatever the schedule: the commands cover the
      request from its first byte on, each byte once, in ascending order, and carry the data, never what was in the
      buffer before it.  They cover all of it if enough polls are made after the last piece has arrived, and no piece
      ends with the pattern.  A piece k that does end with it stops the write for good, once it is waited for. */
  method WriteChunks(block: nat, n: nat, ghost data: Bytes, looks: seq<Look>, ghost late: nat, ghost k: nat)
    returns (done: bool, cmds: seq<Dma>, sent: Bytes)
    requires Request(data) && n == |data| >= PIPE && Schedule(data, looks)
    requires AllFrom(data, looks, late) && k < Pieces(n)
    ensures done <==> Finishes(n, looks)
    ensures Covers(cmds, block, |sent|) && |sent| <= n && sent == data[..|sent|]
    ensures done ==> |sent| == n
    ensures NoClash(data) && |looks| >= Enough(late, n) ==> done
    ensures Polled(data, n, k) == PATTERN && HeldUp(looks, n, k) ==> !done
  {
    hide LookOk, Polled, Schedule, Sized, AllFrom, NoClash, HeldUp, Progress, Covers, Pieces, Round, WaitAt;
    var i: nat, t: nat := 0, 0;
    cmds, sent := [], [];
    ScheduleSized(data, looks);
    ChunkFacts(n);
    if NoClash(data) && |looks| >= Enough(late, n) { EnoughFinishes(data, looks, 0, 0, late); }
    if Polled(data, n, k) == PATTERN && HeldUp(looks, n, k) { ClashStops(data, looks, 0, 0, late, k); }
    Nothing(data, block);
    while i < Chunks(n)
      invariant i <= Chunks(n) && t <= |looks| && |sent| == i * PIPE && Progress(data, block, cmds, sent)
      invariant FinishesFrom(n, looks, t, i) == Finishes(n, looks)
      decreases Chunks(n) - i
    {
      var ok, bulk;
      ok, bulk, t, cmds, sent := SendBulk(block, n, data, looks, t, i, late, cmds, sent);
      if !ok {
        ProgressIs(data, block, cmds, sent);
        return false, cmds, sent;
      }
      i := i + bulk;
    }
    if n % PIPE != 0 {
      done, cmds, sent := SendRest(block, n, data, looks, t, late, cmds, sent);
    } else {
      done := true;
    }
    ProgressIs(data, block, cmds, sent);
  }

  lemma ChunkFacts(n: nat)
    requires n % SECTOR == 0
    ensures Chunks(n) <= Pieces(n) && n == Chunks(n) * PIPE + n % PIPE && (n >= PIPE ==> Chunks(n) > 0)
    ensures End(n, Chunks(n)) == n && Pieces(n) == Chunks(n) + (if n % PIPE == 0 then 0 else 1)
    ensures Chunks(n) * PIPE / SECTOR == Chunks(n) * (PIPE / SECTOR) && Chunks(n) * PIPE % SECTOR == 0
  {
  }

  lemma BulkEnd(n: nat, i: nat, bulk: nat)
    requires bulk > 0 && i + bulk <= Chunks(n)
    ensures End(n, i + bulk - 1) == (i + bulk) * PIPE == i * PIPE + bulk * PIPE
    ensures i * PIPE / SECTOR == i * (PIPE / SECTOR) && i * PIPE % SECTOR == 0
  {
  }

  lemma Nothing(data: Bytes, block: nat)
    ensures Progress(data, block, [], [])
  {
  }

  lemma ProgressIs(data: Bytes, block: nat, cmds: seq<Dma>, sent: Bytes)
    requires Progress(data, block, cmds, sent)
    ensures Covers(cmds, block, |sent|) && |sent| <= |data| && sent == data[..|sent|]
  {
  }

  lemma ScheduleAt(data: Bytes, looks: seq<Look>, t: nat)
    requires Request(data) && Schedule(data, looks) && t < |looks|
    ensures LookOk(data, looks[t]) && |looks[t].memory| == |data|
  {
  }

  /** The write branch of ata_scsi_rw_xlat: a request shorter than a piece is sent as it lies in the buffer, without
      a look at the pattern. */
  method WriteXlat(block: nat, n: nat, ghost data: Bytes, memory: Bytes, looks: seq<Look>, ghost late: nat,
      ghost k: nat)
    returns (done: bool, cmds: seq<Dma>, sent: Bytes)
    requires Request(data) && n == |data| == |memory| && Schedule(data, looks)
    requires AllFrom(data, looks, late) && k < Pieces(n)
    ensures done <==> n < PIPE || Finishes(n, looks)
    ensures Covers(cmds, block, |sent|) && (done ==> |sent| == n)
    ensures n >= PIPE ==> |sent| <= n && sent == data[..|sent|]
    ensures n >= PIPE && NoClash(data) && |looks| >= Enough(late, n) ==> done
    ensures n >= PIPE && Polled(data, n, k) == PATTERN && HeldUp(looks, n, k) ==> !done
    ensures n < PIPE ==> done && sent == memory
  {
    hide Polled, Schedule, Sized, AllFrom, NoClash, Finishes;
    ScheduleSized(data, looks);
    if n >= PIPE {
      done, cmds, sent := WriteChunks(block, n, data, looks, late, k);
    } else {
      CoverMore([], block, 0, Dma(block, n, 0));
      done, cmds, sent := true, [] + [Dma(block, n, 0)], memory;
    }
  }
}
