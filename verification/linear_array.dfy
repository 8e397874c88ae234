/** src/raid/raid.c: two partitions joined end to end.  The size of the first is counted in KB, requests in sectors. */
module LinearArray {
  import opened ByteData

  const SECTOR := 512
  const KB := 1024

  /** A stretch of one partition, in bytes. */
  datatype Extent = Extent(disk: nat, at: nat, size: nat)

  /** The stretches that linear_read and linear_write touch for a request; `r` is sb->rdev_size. */
  function Touched(r: nat, start: nat, n: nat): seq<Extent> {
    if start / 2 + n / KB <= r then [Extent(0, start * SECTOR, n)]
    else if start / 2 >= r then [Extent(1, (start - r * 2) * SECTOR, n)]
    else
      var c1 := (r * 2 - start) * SECTOR;
      [Extent(0, start * SECTOR, c1), Extent(1, 0, n - c1)]
  }

  /** Where the bytes of a request are in partition 0 followed by partition 1. */
  function Meant(r: nat, start: nat, n: nat): seq<Extent> {
    var at := start * SECTOR;
    if at + n <= r * KB then [Extent(0, at, n)]
    else if at >= r * KB then [Extent(1, at - r * KB, n)]
    else [Extent(0, at, r * KB - at), Extent(1, 0, at + n - r * KB)]
  }

  /** The request ends at an odd sector, or starts at one, where its halved figures just meet the boundary. */
  predicate Misjudged(r: nat, start: nat, n: nat) {
    start / 2 + n / KB == r && (start % 2 != 0 || n % KB != 0)
  }

  /** The code touches what is meant exactly when the request is not misjudged; that only requests with an odd sector
      are. */
  lemma TouchedIsMeantIff(r: nat, start: nat, n: nat)
    requires n > 0 && n % SECTOR == 0
    ensures Touched(r, start, n) == Meant(r, start, n) <==> !Misjudged(r, start, n)
    ensures start % 2 == 0 && n % KB == 0 ==> !Misjudged(r, start, n)
  {
    Halves(start, n);
    if start / 2 + n / KB <= r && start * SECTOR + n > r * KB {
      assert Touched(r, start, n)[0].disk == 0 && Touched(r, start, n)[0].size == n;
    }
  }

  lemma Halves(start: nat, n: nat)
    requires n % SECTOR == 0
    ensures start * SECTOR + n == (start / 2 + n / KB) * KB + (start % 2) * SECTOR + n % KB
    ensures n % KB == 0 || n % KB == SECTOR
  {
  }

  /** A misjudged request runs past the end of partition 0's share by one or two sectors. */
  lemma HowFarPast(r: nat, start: nat, n: nat)
    requires n > 0 && n % SECTOR == 0 && Misjudged(r, start, n)
    ensures Touched(r, start, n) == [Extent(0, start * SECTOR, n)]
    ensures r * KB < start * SECTOR + n <= r * KB + 2 * SECTOR
  {
    Halves(start, n);
  }

  /** The three branches, in bytes. */
  lemma Branches(r: nat, start: nat, n: nat)
    requires 0 < n < WORD_LIMIT && n % SECTOR == 0
    ensures var at := start * SECTOR;
      if start / 2 + n / KB <= r then
        at + n <= r * KB + 2 * SECTOR && (!Misjudged(r, start, n) ==> at + n <= r * KB)
      else
        && !Misjudged(r, start, n)
        && if start / 2 >= r then start >= r * 2 && at >= r * KB && (start - r * 2) * SECTOR == at - r * KB
           else start <= r * 2 && at < r * KB < at + n && (r * 2 - start) * SECTOR == r * KB - at
  {
    Halves(start, n);
  }

  // ---------------------------------------------------------------- stretches of two partitions

  datatype Disks = Disks(d0: Bytes, d1: Bytes) {
    function Get(k: nat): Bytes { if k == 0 then d0 else d1 }

    function Put(k: nat, b: Bytes): Disks { if k == 0 then Disks(b, d1) else Disks(d0, b) }

    /** Partition 1 behind the share of partition 0. */
    function Flat(r: nat): (b: Bytes)
      requires r * KB <= |d0|
      ensures |b| == r * KB + |d1|
    {
      d0[..r * KB] + d1
    }
  }

  predicate Within(ds: Disks, es: seq<Extent>) {
    forall i :: 0 <= i < |es| ==> es[i].at + es[i].size <= |ds.Get(es[i].disk)|
  }

  function Total(es: seq<Extent>): nat {
    if es == [] then 0 else es[0].size + Total(es[1..])
  }

  /** The stretches, one after the other. */
  function Gather(ds: Disks, es: seq<Extent>): (b: Bytes)
    requires Within(ds, es)
    ensures |b| == Total(es)
    decreases |es|
  {
    if es == [] then [] else ds.Get(es[0].disk)[es[0].at..es[0].at + es[0].size] + Gather(ds, es[1..])
  }

  /** Data laid over the stretches. */
  function Scatter(ds: Disks, es: seq<Extent>, data: Bytes): (r: Disks)
    requires Within(ds, es) && |data| == Total(es)
    ensures |r.d0| == |ds.d0| && |r.d1| == |ds.d1|
    decreases |es|
  {
    if es == [] then ds
    else
      var e := es[0];
      Scatter(ds.Put(e.disk, Updated(ds.Get(e.disk), e.at, data[..e.size])), es[1..], data[e.size..])
  }

  lemma OneStretch(ds: Disks, e: Extent, data: Bytes)
    requires e.at + e.size <= |ds.Get(e.disk)| && |data| == e.size
    ensures Within(ds, [e])
    ensures Total([e]) == e.size && Gather(ds, [e]) == ds.Get(e.disk)[e.at..e.at + e.size]
    ensures Scatter(ds, [e], data) == ds.Put(e.disk, Updated(ds.Get(e.disk), e.at, data))
  {
    assert [e][1..] == [] && data[..e.size] == data && data[e.size..] == [];
    assert Total([]) == 0 && Gather(ds, []) == [];
  }

  lemma TwoStretches(ds: Disks, e: Extent, f: Extent, data: Bytes)
    requires e.disk == 0 && f.disk == 1 && |data| == e.size + f.size
    requires e.at + e.size <= |ds.d0| && f.at + f.size <= |ds.d1|
    ensures Within(ds, [e, f])
    ensures Total([e, f]) == e.size + f.size
    ensures Gather(ds, [e, f]) == ds.d0[e.at..e.at + e.size] + ds.d1[f.at..f.at + f.size]
    ensures Scatter(ds, [e, f], data) ==
            Disks(Updated(ds.d0, e.at, data[..e.size]), Updated(ds.d1, f.at, data[e.size..]))
  {
    assert [e, f][0] == e && [e, f][1..] == [f] && [e, f][1] == f;
    OneStretch(ds, f, data[e.size..]);
    OneStretch(ds.Put(0, Updated(ds.d0, e.at, data[..e.size])), f, data[e.size..]);
  }

  lemma ReadFirst(d0: Bytes, d1: Bytes, r: nat, at: nat, n: nat)
    requires at + n <= r <= |d0|
    ensures (d0[..r] + d1)[at..at + n] == d0[at..at + n]
  {
  }

  lemma ReadSecond(d0: Bytes, d1: Bytes, r: nat, at: nat, n: nat)
    requires r <= |d0| && r <= at && at + n <= r + |d1|
    ensures (d0[..r] + d1)[at..at + n] == d1[at - r..at - r + n]
  {
  }

  lemma ReadAcross(d0: Bytes, d1: Bytes, r: nat, at: nat, n: nat)
    requires at < r <= |d0| && r < at + n <= r + |d1|
    ensures (d0[..r] + d1)[at..at + n] == d0[at..r] + d1[0..at + n - r]
  {
  }

  lemma WriteFirst(d0: Bytes, d1: Bytes, r: nat, at: nat, data: Bytes)
    requires at + |data| <= r <= |d0|
    ensures var e0 := Updated(d0, at, data);
      e0[..r] + d1 == Updated(d0[..r] + d1, at, data) && e0[r..] == d0[r..]
  {
  }

  lemma WriteSecond(d0: Bytes, d1: Bytes, r: nat, at: nat, data: Bytes)
    requires r <= |d0| && r <= at && at + |data| <= r + |d1|
    ensures d0[..r] + Updated(d1, at - r, data) == Updated(d0[..r] + d1, at, data)
  {
  }

  lemma AcrossBoundary(d0: Bytes, d1: Bytes, r: nat, at: nat, data: Bytes)
    requires at < r <= |d0| && r < at + |data| <= r + |d1|
    ensures var c1 := r - at;
      var e0, e1 := Updated(d0, at, data[..c1]), Updated(d1, 0, data[c1..]);
      e0[..r] + e1 == Updated(d0[..r] + d1, at, data) && e0[r..] == d0[r..]
  {
    var c1 := r - at;
    assert data == data[..c1] + data[c1..];
    assert (d0[..r] + d1)[at + |data|..] == d1[|data| - c1..];
  }

  lemma UpdatedBack(b: Bytes, at: nat, data: Bytes)
    requires at + |data| <= |b|
    ensures Updated(b, at, data)[at..at + |data|] == data
  {
  }

  lemma UpdatedElsewhere(b: Bytes, at: nat, data: Bytes, from: nat, n: nat)
    requires at + |data| <= |b| && from + n <= |b| && (from + n <= at || at + |data| <= from)
    ensures Updated(b, at, data)[from..from + n] == b[from..from + n]
  {
    var c := Updated(b, at, data);
    assert forall k :: from <= k < from + n ==> c[k] == b[k];
  }

  /** The request lies inside the array. */
  predicate Fits(ds: Disks, r: nat, start: nat, n: nat) {
    && r * KB + 2 * SECTOR <= |ds.d0|      // the superblock lies behind the data
    && 0 < n < WORD_LIMIT && n % SECTOR == 0 && start * SECTOR + n <= r * KB + |ds.d1|
  }

  /** The three shapes that the stretches of a request have. */
  lemma TouchedShape(r: nat, start: nat, n: nat)
    requires 0 < n < WORD_LIMIT && n % SECTOR == 0
    ensures var es := Touched(r, start, n); var at, share := start * SECTOR, r * KB;
      || (es == [Extent(0, at, n)] && at + n <= share + 2 * SECTOR && (!Misjudged(r, start, n) ==> at + n <= share))
      || (share <= at && es == [Extent(1, at - share, n)] && !Misjudged(r, start, n))
      || (at < share < at + n && es == [Extent(0, at, share - at), Extent(1, 0, at + n - share)]
          && !Misjudged(r, start, n))
  {
    hide Misjudged;
    Branches(r, start, n);
  }

  lemma TouchedWithin(ds: Disks, r: nat, start: nat, n: nat)
    requires Fits(ds, r, start, n)
    ensures Within(ds, Touched(r, start, n)) && Total(Touched(r, start, n)) == n
  {
    hide Misjudged, Touched, Within, Total, Gather, Scatter;
    TouchedShape(r, start, n);
    var es := Touched(r, start, n);
    var any: Bytes := seq(n, _ => 0);
    if |es| == 1 {
      OneStretch(ds, es[0], any);
    } else {
      TwoStretches(ds, es[0], es[1], any);
    }
  }

  lemma FirstIsFlat(ds: Disks, r: nat, at: nat, data: Bytes)
    requires at + |data| <= r * KB <= |ds.d0|
    ensures var es := [Extent(0, at, |data|)];
      && Within(ds, es) && Total(es) == |data| && Gather(ds, es) == ds.Flat(r)[at..at + |data|]
      && Scatter(ds, es, data).Flat(r) == Updated(ds.Flat(r), at, data)
      && Scatter(ds, es, data).d0[r * KB..] == ds.d0[r * KB..]
  {
    hide Updated, Within, Total, Gather, Scatter;
    OneStretch(ds, Extent(0, at, |data|), data);
    ReadFirst(ds.d0, ds.d1, r * KB, at, |data|);
    WriteFirst(ds.d0, ds.d1, r * KB, at, data);
  }

  lemma SecondIsFlat(ds: Disks, r: nat, at: nat, data: Bytes)
    requires r * KB <= at && r * KB <= |ds.d0| && at + |data| <= r * KB + |ds.d1|
    ensures var es := [Extent(1, at - r * KB, |data|)];
      && Within(ds, es) && Total(es) == |data| && Gather(ds, es) == ds.Flat(r)[at..at + |data|]
      && Scatter(ds, es, data).Flat(r) == Updated(ds.Flat(r), at, data)
      && Scatter(ds, es, data).d0[r * KB..] == ds.d0[r * KB..]
  {
    hide Updated, Within, Total, Gather, Scatter;
    OneStretch(ds, Extent(1, at - r * KB, |data|), data);
    ReadSecond(ds.d0, ds.d1, r * KB, at, |data|);
    WriteSecond(ds.d0, ds.d1, r * KB, at, data);
  }

  lemma BothAreFlat(ds: Disks, r: nat, at: nat, data: Bytes)
    requires at < r * KB <= |ds.d0| && r * KB < at + |data| <= r * KB + |ds.d1|
    ensures var es := [Extent(0, at, r * KB - at), Extent(1, 0, at + |data| - r * KB)];
      && Within(ds, es) && Total(es) == |data| && Gather(ds, es) == ds.Flat(r)[at..at + |data|]
      && Scatter(ds, es, data).Flat(r) == Updated(ds.Flat(r), at, data)
      && Scatter(ds, es, data).d0[r * KB..] == ds.d0[r * KB..]
  {
    hide Updated, Within, Total, Gather, Scatter;
    TwoStretches(ds, Extent(0, at, r * KB - at), Extent(1, 0, at + |data| - r * KB), data);
    ReadAcross(ds.d0, ds.d1, r * KB, at, |data|);
    AcrossBoundary(ds.d0, ds.d1, r * KB, at, data);
  }

  /** Reading the stretches of a request that is not misjudged is reading the flat array, and writing them is writing
      it. */
  lemma MeantIsFlat(ds: Disks, r: nat, start: nat, data: Bytes)
    requires Fits(ds, r, start, |data|) && !Misjudged(r, start, |data|)
    ensures Within(ds, Touched(r, start, |data|)) && Total(Touched(r, start, |data|)) == |data|
    ensures var es := Touched(r, start, |data|); var at := start * SECTOR; var after := Scatter(ds, es, data);
      && Gather(ds, es) == ds.Flat(r)[at..at + |data|]
      && after.Flat(r) == Updated(ds.Flat(r), at, data)
      && after.d0[r * KB..] == ds.d0[r * KB..]
  {
    hide Misjudged, Updated, Touched, Within, Total, Gather, Scatter;
    TouchedShape(r, start, |data|);
    var es := Touched(r, start, |data|);
    if |es| == 2 {
      BothAreFlat(ds, r, start * SECTOR, data);
    } else if es[0].disk == 0 {
      FirstIsFlat(ds, r, start * SECTOR, data);
    } else {
      SecondIsFlat(ds, r, start * SECTOR, data);
    }
  }

  /** What is written is read back by the same request, misjudged or not. */
  lemma ReadBack(ds: Disks, r: nat, start: nat, data: Bytes)
    requires Fits(ds, r, start, |data|)
    ensures Within(ds, Touched(r, start, |data|)) && Total(Touched(r, start, |data|)) == |data|
    ensures var es := Touched(r, start, |data|); var after := Scatter(ds, es, data);
      Within(after, es) && Gather(after, es) == data
  {
    hide Misjudged, Updated, Touched, Within, Total, Gather, Scatter;
    TouchedShape(r, start, |data|);
    var es := Touched(r, start, |data|);
    if |es| == 1 {
      OneStretch(ds, es[0], data);
      OneStretch(Scatter(ds, es, data), es[0], data);
      UpdatedBack(ds.Get(es[0].disk), es[0].at, data);
    } else {
      TwoStretches(ds, es[0], es[1], data);
      TwoStretches(Scatter(ds, es, data), es[0], es[1], data);
      UpdatedBack(ds.d0, es[0].at, data[..es[0].size]);
      UpdatedBack(ds.d1, es[1].at, data[es[0].size..]);
    }
  }

  /** A request that does not overlap one written before, neither of them misjudged, finds what it found before. */
  lemma ReadElsewhere(ds: Disks, r: nat, start: nat, data: Bytes, from: nat, n: nat)
    requires Fits(ds, r, start, |data|) && Fits(ds, r, from, n)
    requires !Misjudged(r, start, |data|) && !Misjudged(r, from, n)
    requires from * SECTOR + n <= start * SECTOR || start * SECTOR + |data| <= from * SECTOR
    ensures Within(ds, Touched(r, start, |data|)) && Total(Touched(r, start, |data|)) == |data|
    ensures Within(ds, Touched(r, from, n))
    ensures var after := Scatter(ds, Touched(r, start, |data|), data); var fs := Touched(r, from, n);
      Within(after, fs) && Gather(after, fs) == Gather(ds, fs)
  {
    hide Misjudged, Updated, Touched, Within, Total, Gather, Scatter;
    var any: Bytes := seq(n, _ => 0);
    MeantIsFlat(ds, r, start, data);
    MeantIsFlat(ds, r, from, any);
    MeantIsFlat(Scatter(ds, Touched(r, start, |data|), data), r, from, any);
    UpdatedElsewhere(ds.Flat(r), start * SECTOR, data, from * SECTOR, n);
  }

  /** Sectors written by a misjudged request behind the share of partition 0 are not found by a request that starts
      there: it reads what it read before the write. */
  lemma MisjudgedIsNotFound(ds: Disks, r: nat, start: nat, data: Bytes, from: nat, n: nat)
    requires Fits(ds, r, start, |data|) && Fits(ds, r, from, n)
    requires Misjudged(r, start, |data|) && !Misjudged(r, from, n) && from >= 2 * r
    ensures Within(ds, Touched(r, start, |data|)) && Total(Touched(r, start, |data|)) == |data|
    ensures Within(ds, Touched(r, from, n))
    ensures var after := Scatter(ds, Touched(r, start, |data|), data); var fs := Touched(r, from, n);
      Within(after, fs) && Gather(after, fs) == Gather(ds, fs)
  {
    hide Misjudged, Updated, Touched, Within, Total, Gather, Scatter;
    var any: Bytes := seq(n, _ => 0);
    TouchedShape(r, from, n);
    HowFarPast(r, start, |data|);
    var es, fs := Touched(r, start, |data|), Touched(r, from, n);
    OneStretch(ds, es[0], data);
    OneStretch(ds, fs[0], any);
    OneStretch(Scatter(ds, es, data), fs[0], any);
  }

  /** What a read finds. */
  lemma Found(ds: Disks, r: nat, start: nat, n: nat)
    requires Fits(ds, r, start, n)
    ensures Within(ds, Touched(r, start, n))
    ensures var at := start * SECTOR; var b := Gather(ds, Touched(r, start, n));
      if Misjudged(r, start, n) then at + n <= |ds.d0| && b == ds.d0[at..at + n] else b == ds.Flat(r)[at..at + n]
  {
    hide Misjudged, Updated, Touched, Within, Total, Gather, Scatter;
    var any: Bytes := seq(n, _ => 0);
    if Misjudged(r, start, n) {
      HowFarPast(r, start, n);
      OneStretch(ds, Extent(0, start * SECTOR, n), any);
    } else {
      MeantIsFlat(ds, r, start, any);
    }
  }

  /** The same, branch by branch. */
  lemma FoundByBranch(ds: Disks, r: nat, start: nat, n: nat)
    requires Fits(ds, r, start, n) && Within(ds, Touched(r, start, n))
    ensures var b := Gather(ds, Touched(r, start, n));
      if start / 2 + n / KB <= r then start * SECTOR + n <= |ds.d0| && b == ds.d0[start * SECTOR..start * SECTOR + n]
      else if start / 2 >= r then
        var at := (start - r * 2) * SECTOR;
        start >= r * 2 && at + n <= |ds.d1| && b == ds.d1[at..at + n]
      else
        var c1 := (r * 2 - start) * SECTOR;
        && 0 <= c1 < n && c1 % WORD_LIMIT == c1 && start * SECTOR + c1 <= |ds.d0| && n - c1 <= |ds.d1|
        && b == ds.d0[start * SECTOR..start * SECTOR + c1] + ds.d1[0..n - c1]
  {
    hide Misjudged, Updated, Within, Total, Gather, Scatter;
    Branches(r, start, n);
    var es := Touched(r, start, n);
    var any: Bytes := seq(n, _ => 0);
    if |es| == 2 {
      TwoStretches(ds, es[0], es[1], any);
    } else {
      OneStretch(ds, es[0], any);
    }
  }

  // ---------------------------------------------------------------- the code

  /** What a partition's read delivers. */
  method ReadPart(disk: array<byte>, start: nat, n: nat) returns (buf: Bytes)
    requires start * SECTOR + n <= disk.Length
    ensures buf == disk[..][start * SECTOR..start * SECTOR + n]
  {
    buf := disk[start * SECTOR..start * SECTOR + n];
  }

  method Put(disk: array<byte>, at: nat, data: Bytes)
    requires at + |data| <= disk.Length
    modifies disk
    ensures disk[..] == Updated(old(disk[..]), at, data)
  {
    forall i | 0 <= i < |data| {
      disk[at + i] := data[i];
    }
  }

  class Linear {
    const disk0: array<byte>
    const disk1: array<byte>
    const rdevSize: nat

    ghost predicate Valid() {
      && disk0 != disk1 && rdevSize < 0x8000_0000
      && rdevSize * KB + 2 * SECTOR <= disk0.Length      // the superblock lies behind the data
    }

    constructor (disk0: array<byte>, disk1: array<byte>, rdevSize: nat)
      requires disk0 != disk1 && rdevSize < 0x8000_0000 && rdevSize * KB + 2 * SECTOR <= disk0.Length
      ensures Valid() && this.disk0 == disk0 && this.disk1 == disk1 && this.rdevSize == rdevSize
    {
      this.disk0, this.disk1, this.rdevSize := disk0, disk1, rdevSize;
    }

    ghost function Contents(): (ds: Disks)
      reads disk0, disk1
      ensures |ds.d0| == disk0.Length && |ds.d1| == disk1.Length
    {
      Disks(disk0[..], disk1[..])
    }

    ghost function Flat(): (b: Bytes)
      requires Valid()
      reads disk0, disk1
      ensures |b| == rdevSize * KB + disk1.Length
    {
      Contents().Flat(rdevSize)
    }

    /** The request lies inside the array. */
    predicate Inside(start: nat, n: nat)
    {
      0 < n && n % SECTOR == 0 && n < WORD_LIMIT && start * SECTOR + n <= rdevSize * KB + disk1.Length
    }

    /** linear_read */
    method Read(start: nat, n: nat) returns (buf: Bytes)
      requires Valid() && Inside(start, n)
      ensures Within(Contents(), Touched(rdevSize, start, n))
              && buf == Gather(Contents(), Touched(rdevSize, start, n))
      ensures !Misjudged(rdevSize, start, n) ==> buf == Flat()[start * SECTOR..start * SECTOR + n]
      ensures Misjudged(rdevSize, start, n) ==>
                start * SECTOR + n <= disk0.Length && buf == disk0[start * SECTOR..start * SECTOR + n]
    {
      hide Misjudged, Touched, Within, Gather;
      ghost var ds := Contents();
      Found(ds, rdevSize, start, n);
      FoundByBranch(ds, rdevSize, start, n);
      if start / 2 + n / KB <= rdevSize {
        buf := ReadPart(disk0, start, n);
      } else if start / 2 >= rdevSize {
        buf := ReadPart(disk1, start - rdevSize * 2, n);
      } else {
        var c1 := (rdevSize * 2 - start) * SECTOR % WORD_LIMIT;
        buf := ReadPart(disk0, start, c1);
        var c2 := n - c1;
        var rest := ReadPart(disk1, 0, c2);
        buf := buf + rest;
      }
    }

    /** linear_write */
    method Write(start: nat, data: Bytes)
      requires Valid() && Inside(start, |data|)
      modifies disk0, disk1
      ensures Within(old(Contents()), Touched(rdevSize, start, |data|))
              && Total(Touched(rdevSize, start, |data|)) == |data|
              && Contents() == Scatter(old(Contents()), Touched(rdevSize, start, |data|), data)
      ensures !Misjudged(rdevSize, start, |data|) ==>
                Flat() == Updated(old(Flat()), start * SECTOR, data)
                && disk0[rdevSize * KB..] == old(disk0[rdevSize * KB..])
      ensures Misjudged(rdevSize, start, |data|) ==>
                start * SECTOR + |data| <= disk0.Length
                && disk0[..] == Updated(old(disk0[..]), start * SECTOR, data) && disk1[..] == old(disk1[..])
    {
      hide Misjudged, Updated, Within, Total, Gather, Scatter;
      ghost var ds, es := Contents(), Touched(rdevSize, start, |data|);
      Branches(rdevSize, start, |data|);
      TouchedWithin(ds, rdevSize, start, |data|);
      if start / 2 + |data| / KB <= rdevSize {
        OneStretch(ds, es[0], data);
        Put(disk0, start * SECTOR, data);
      } else if start / 2 >= rdevSize {
        OneStretch(ds, es[0], data);
        Put(disk1, (start - rdevSize * 2) * SECTOR, data);
      } else {
        TwoStretches(ds, es[0], es[1], data);
        var c1 := (rdevSize * 2 - start) * SECTOR % WORD_LIMIT;
        Put(disk0, start * SECTOR, data[..c1]);
        Put(disk1, 0, data[c1..]);
      }
      if !Misjudged(rdevSize, start, |data|) { MeantIsFlat(ds, rdevSize, start, data); }
    }
  }
}
