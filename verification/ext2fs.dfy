/** src/ide/ext2fs.c: the reader as code, with its one block buffer shared by pointer look-ups and file data, and its
    one-sector cache of group descriptors. */
module Ext2fs {
  import opened ByteData
  import opened Ext2Disk

  const GDESC_SIZE := 32
  const GDESC_PER_SECTOR := 16
  const INODE_SIZE := 128

  // ---------------------------------------------------------------- what a file holds

  /** Block i of a file; None when a pointer block or the block itself cannot be read. */
  function FileBlock(v: View, part: Part, bs: nat, ino: Inode, i: nat): (r: Option<Bytes>)
    requires BlockSize(bs) && InodeOk(ino) && i < MaxBlocks(bs)
    ensures r.Some? ==> |r.value| == bs
  {
    var b := BlockNumber(v, part, bs, ino, i);
    if b.None? then None
    else if b.value == 0 then Some(seq(bs, _ => 0))
    else Block(part, bs, b.value)
  }

  /** The block that holds position p. */
  function BlockAt(v: View, part: Part, bs: nat, ino: Inode, p: nat): (r: Option<Bytes>)
    requires BlockSize(bs) && InodeOk(ino) && p < WORD_LIMIT
    ensures r.Some? ==> |r.value| == bs
  {
    SizeFits(bs, p);
    FileBlock(v, part, bs, ino, p / bs)
  }

  /** What ext2fs_read returns when the block at position p cannot be had: -1 when a pointer block is missing, 0 when
      it is the block itself. */
  function Refusal(part: Part, bs: nat, ino: Inode, p: nat): int
    requires BlockSize(bs) && InodeOk(ino) && p < WORD_LIMIT
  {
    SizeFits(bs, p);
    if BlockNumber(Walked, part, bs, ino, p / bs).None? then -1 else 0
  }

  /** The byte at position p: of the file for `Meant`, of what the loader takes for it for `Walked`. */
  function FileByte(v: View, part: Part, bs: nat, ino: Inode, p: nat): Option<byte>
    requires BlockSize(bs) && InodeOk(ino) && p < WORD_LIMIT
  {
    var b := BlockAt(v, part, bs, ino, p);
    if b.None? then None else Some(b.value[p % bs])
  }

  /** `out` is what the file holds from position p on. */
  ghost predicate IsSlice(v: View, part: Part, bs: nat, ino: Inode, p: nat, out: Bytes)
    requires BlockSize(bs) && InodeOk(ino)
  {
    p + |out| <= WORD_LIMIT && forall k :: 0 <= k < |out| ==> FileByte(v, part, bs, ino, p + k) == Some(out[k])
  }

  /** Position p lies below a null indirect pointer. */
  predicate HoleAt(part: Part, bs: nat, ino: Inode, p: nat)
    requires BlockSize(bs) && InodeOk(ino) && p < WORD_LIMIT
  {
    SizeFits(bs, p);
    HoleOver(part, bs, ino, p / bs)
  }

  /** At such a position, block 0 taken for a pointer block leads to a readable zero byte. */
  predicate ZeroThroughBlock0(part: Part, bs: nat, ino: Inode, p: nat)
    requires BlockSize(bs) && InodeOk(ino) && p < WORD_LIMIT && HoleAt(part, bs, ino, p)
  {
    SizeFits(bs, p);
    var n := NumberThroughBlock0(part, bs, ino, p / bs);
    n.Some? && (n.value == 0 || var b := Block(part, bs, n.value); b.Some? && b.value[p % bs] == 0)
  }

  /** The condition on n positions from p on. */
  ghost predicate HolesReadZero(part: Part, bs: nat, ino: Inode, p: nat, n: nat)
    requires BlockSize(bs) && InodeOk(ino) && p + n <= WORD_LIMIT
  {
    forall k :: p <= k < p + n && HoleAt(part, bs, ino, k) ==> ZeroThroughBlock0(part, bs, ino, k)
  }

  lemma ByteIsMeantIff(part: Part, bs: nat, ino: Inode, p: nat)
    requires BlockSize(bs) && InodeOk(ino) && p < WORD_LIMIT
    ensures FileByte(Walked, part, bs, ino, p) == FileByte(Meant, part, bs, ino, p) <==>
            (HoleAt(part, bs, ino, p) ==> ZeroThroughBlock0(part, bs, ino, p))
    ensures HoleAt(part, bs, ino, p) ==> FileByte(Meant, part, bs, ino, p) == Some(0)
  {
    hide BlockNumber, HoleOver, NumberThroughBlock0, Fan, Block;
    SizeFits(bs, p);
    NumbersDiffer(part, bs, ino, p / bs);
  }

  /** What the loader takes for the file from p on is the file exactly when, at every position below a null indirect
      pointer, block 0 leads to a zero byte. */
  lemma SliceIsMeantIff(part: Part, bs: nat, ino: Inode, p: nat, out: Bytes)
    requires BlockSize(bs) && InodeOk(ino) && IsSlice(Walked, part, bs, ino, p, out)
    ensures IsSlice(Meant, part, bs, ino, p, out) <==> HolesReadZero(part, bs, ino, p, |out|)
  {
    hide FileByte, HoleAt, ZeroThroughBlock0;
    forall k | p <= k < p + |out|
      ensures FileByte(Meant, part, bs, ino, k) == Some(out[k - p]) <==>
              (HoleAt(part, bs, ino, k) ==> ZeroThroughBlock0(part, bs, ino, k))
    {
      assert FileByte(Walked, part, bs, ino, p + (k - p)) == Some(out[k - p]);
      ByteIsMeantIff(part, bs, ino, k);
    }
    if IsSlice(Meant, part, bs, ino, p, out) {
      forall k | p <= k < p + |out| && HoleAt(part, bs, ino, k) ensures ZeroThroughBlock0(part, bs, ino, k) {
        assert FileByte(Meant, part, bs, ino, p + (k - p)) == Some(out[k - p]);
      }
    }
  }

  lemma StoppedAsMeant(part: Part, bs: nat, ino: Inode, p: nat)
    requires BlockSize(bs) && InodeOk(ino) && p < WORD_LIMIT && !HoleAt(part, bs, ino, p)
    ensures BlockAt(Meant, part, bs, ino, p) == BlockAt(Walked, part, bs, ino, p)
  {
    hide BlockNumber, HoleOver, Fan;
    SizeFits(bs, p);
    NumbersDiffer(part, bs, ino, p / bs);
  }

  /** With a block 0 of zeros every file reads as it is meant. */
  lemma ZeroBlockHolesReadZero(part: Part, bs: nat, ino: Inode, p: nat, n: nat)
    requires BlockSize(bs) && InodeOk(ino) && p + n <= WORD_LIMIT && ZeroBlock0(part, bs)
    ensures HolesReadZero(part, bs, ino, p, n)
  {
    hide HoleOver, NumberThroughBlock0, ZeroBlock0, BlockNumber, Block, Fan;
    forall k | p <= k < p + n && HoleAt(part, bs, ino, k) ensures ZeroThroughBlock0(part, bs, ino, k) {
      SizeFits(bs, k);
      NumbersDiffer(part, bs, ino, k / bs);
      ZeroBlockIsMeant(part, bs, ino, k / bs);
    }
  }

  lemma SliceConcat(v: View, part: Part, bs: nat, ino: Inode, p: nat, a: Bytes, b: Bytes)
    requires BlockSize(bs) && InodeOk(ino) && IsSlice(v, part, bs, ino, p, a) && IsSlice(v, part, bs, ino, p + |a|, b)
    ensures IsSlice(v, part, bs, ino, p, a + b)
  {
    hide FileByte;
    forall k | 0 <= k < |a + b| ensures FileByte(v, part, bs, ino, p + k) == Some((a + b)[k]) {
      if k >= |a| { assert p + k == (p + |a|) + (k - |a|); }
    }
  }

  lemma EmptySlice(v: View, part: Part, bs: nat, ino: Inode, p: nat)
    requires BlockSize(bs) && InodeOk(ino) && p <= WORD_LIMIT
    ensures IsSlice(v, part, bs, ino, p, [])
  {
  }

  lemma PositionInBlock(bs: nat, p: nat, k: nat)
    requires BlockSize(bs) && p % bs + k < bs
    ensures (p + k) / bs == p / bs && (p + k) % bs == p % bs + k
  {
    if bs == 1024 {
    } else if bs == 2048 {
    } else {
    }
  }

  /** A piece of one block is a slice of the file. */
  lemma BlockPieceIsSlice(v: View, part: Part, bs: nat, ino: Inode, p: nat, n: nat, b: Bytes)
    requires BlockSize(bs) && InodeOk(ino) && p + n <= WORD_LIMIT && p < WORD_LIMIT && p % bs + n <= bs && |b| == bs
    requires BlockAt(v, part, bs, ino, p) == Some(b)
    ensures IsSlice(v, part, bs, ino, p, b[p % bs..p % bs + n])
  {
    hide FileBlock;
    var out := b[p % bs..p % bs + n];
    forall k | 0 <= k < |out| ensures FileByte(v, part, bs, ino, p + k) == Some(out[k]) {
      PositionInBlock(bs, p, k);
    }
  }

  // ---------------------------------------------------------------- positions

  /** How many bytes ext2fs_read sets out to read: the end of the file is compared with a 32-bit sum. */
  function Clamp(pos: nat, nbytes: nat, size: nat): int {
    if (pos + nbytes) % WORD_LIMIT > size then size - pos else nbytes
  }

  /** The sum wraps to something inside the file. */
  predicate Overruns(pos: nat, nbytes: nat, size: nat) {
    WORD_LIMIT <= pos + nbytes <= WORD_LIMIT + size
  }

  /** A read stays inside the file exactly when the 32-bit sum does not wrap into it. */
  lemma ClampIff(pos: nat, nbytes: nat, size: nat)
    requires pos <= size < WORD_LIMIT && nbytes < WORD_LIMIT
    ensures Clamp(pos, nbytes, size) <= size - pos <==> !Overruns(pos, nbytes, size)
    ensures !Overruns(pos, nbytes, size)
        ==> Clamp(pos, nbytes, size) == if nbytes <= size - pos then nbytes else size - pos
  {
  }

  /** The bytes a read takes from what the last one left in the buffer. */
  function Leftover(pos: nat, bs: nat, n: int): int
    requires bs > 0
  {
    if pos % bs == 0 then 0 else if bs - pos % bs > n then n else bs - pos % bs
  }

  lemma LeftoverFits(pos: nat, bs: nat, n: int)
    requires bs > 0 && n >= 0
    ensures 0 <= Leftover(pos, bs, n) <= n && pos % bs + Leftover(pos, bs, n) <= bs
  {
  }

  lemma BlockEnd(bs: nat, pos: nat)
    requires BlockSize(bs)
    ensures (pos + (bs - pos % bs)) % bs == 0
  {
    if bs == 1024 {
    } else if bs == 2048 {
    } else {
    }
  }

  lemma AfterLeftover(pos: nat, bs: nat, n: int)
    requires BlockSize(bs) && n >= 0 && pos % bs != 0
    ensures var h := Leftover(pos, bs, n);
      if h < bs - pos % bs then h == n && (pos + h) / bs == pos / bs && (pos + h) % bs == pos % bs + h
      else (pos + h) % bs == 0
  {
    var h := Leftover(pos, bs, n);
    if h < bs - pos % bs {
      PositionInBlock(bs, pos, h);
    } else {
      BlockEnd(bs, pos);
    }
  }

  /** Moving on inside a block stays in it. */
  lemma SamePiece(v: View, part: Part, bs: nat, ino: Inode, p: nat, n: nat)
    requires BlockSize(bs) && InodeOk(ino) && p + n < WORD_LIMIT && p % bs + n <= bs
    ensures (p + n) % bs != 0 ==> BlockAt(v, part, bs, ino, p + n) == BlockAt(v, part, bs, ino, p)
  {
    hide FileBlock;
    if p % bs + n < bs {
      PositionInBlock(bs, p, n);
    } else {
      BlockEnd(bs, p);
    }
  }

  lemma NextPosition(pos: nat, bs: nat, n: nat)
    requires BlockSize(bs) && pos % bs == 0 && n <= bs
    ensures n == bs ==> (pos + n) % bs == 0 && (pos + n) / bs == pos / bs + 1
    ensures n < bs ==> (pos + n) / bs == pos / bs && (pos + n) % bs == n
  {
    if bs == 1024 {
    } else if bs == 2048 {
    } else {
    }
  }

  // ---------------------------------------------------------------- the file that a read moves on in

  /** FILE_T */
  class OpenFile {
    const inode: Inode
    var pos: nat

    constructor (inode: Inode)
      ensures this.inode == inode && pos == 0
    {
      this.inode, pos := inode, 0;
    }

    predicate Ok()
      reads this
    {
      InodeOk(inode) && pos <= inode.size
    }
  }

  // ---------------------------------------------------------------- series of reads

  /** Where a series of complete reads leaves the position. */
  function Wanted(pos: nat, sizes: seq<nat>, size: nat): nat
    requires pos <= size
    decreases |sizes|
  {
    if sizes == [] then pos else Wanted(if sizes[0] <= size - pos then pos + sizes[0] else size, sizes[1..], size)
  }

  lemma WantedNothing(pos: nat, sizes: seq<nat>, size: nat)
    requires pos <= size && |sizes| == 0
    ensures Wanted(pos, sizes, size) == pos
  {
  }

  /** No request of a series overruns the 32-bit sum from where the ones before it leave the position. */
  predicate Safe(pos: nat, sizes: seq<nat>, size: nat)
    requires pos <= size
    decreases |sizes|
  {
    sizes != [] ==>
      sizes[0] < WORD_LIMIT && !Overruns(pos, sizes[0], size)
      && Safe(if sizes[0] <= size - pos then pos + sizes[0] else size, sizes[1..], size)
  }

  lemma WantedStep(pos: nat, sizes: seq<nat>, i: nat, size: nat)
    requires pos <= size < WORD_LIMIT && i < |sizes| && Safe(pos, sizes[i..], size)
    ensures sizes[i] < WORD_LIMIT && !Overruns(pos, sizes[i], size)
    ensures 0 <= Clamp(pos, sizes[i], size) <= size - pos
    ensures var next := pos + Clamp(pos, sizes[i], size);
      && Wanted(pos, sizes[i..], size) == Wanted(next, sizes[i + 1..], size)
      && Safe(next, sizes[i + 1..], size)
  {
    var rest := sizes[i..];
    assert rest[0] == sizes[i] && rest[1..] == sizes[i + 1..];
    ClampIff(pos, sizes[i], size);
  }

  function Sum(sizes: seq<nat>): nat {
    if sizes == [] then 0 else sizes[0] + Sum(sizes[1..])
  }

  lemma {:induction false} WantedIsClampedSum(pos: nat, sizes: seq<nat>, size: nat)
    requires pos <= size
    ensures Wanted(pos, sizes, size) == if Sum(sizes) <= size - pos then pos + Sum(sizes) else size
    decreases |sizes|
  {
    if sizes != [] {
      WantedIsClampedSum(if sizes[0] <= size - pos then pos + sizes[0] else size, sizes[1..], size);
    }
  }

  lemma HeldPiece(v: View, part: Part, bs: nat, ino: Inode, p: nat, h: nat, b: Bytes)
    requires BlockSize(bs) && InodeOk(ino) && p + h < WORD_LIMIT && p % bs + h <= bs && |b| == bs
    requires p % bs != 0 ==> BlockAt(v, part, bs, ino, p) == Some(b)
    requires p % bs == 0 ==> h == 0
    ensures IsSlice(v, part, bs, ino, p, b[p % bs..p % bs + h])
  {
    hide BlockAt;
    if h > 0 {
      BlockPieceIsSlice(v, part, bs, ino, p, h, b);
    }
  }

  lemma LeftoverOfHeld(v: View, part: Part, bs: nat, ino: Inode, p: nat, n: nat, b: Bytes)
    requires BlockSize(bs) && InodeOk(ino) && p + n < WORD_LIMIT && |b| == bs
    requires p % bs != 0 ==> BlockAt(v, part, bs, ino, p) == Some(b)
    ensures var h := Leftover(p, bs, n);
      0 <= h <= n && p % bs + h <= bs && IsSlice(v, part, bs, ino, p, b[p % bs..p % bs + h])
  {
    hide BlockAt, IsSlice;
    LeftoverFits(p, bs, n);
    HeldPiece(v, part, bs, ino, p, Leftover(p, bs, n), b);
  }

  lemma LeftoverJoins(v: View, part: Part, bs: nat, ino: Inode, p: nat, h: nat, out: Bytes)
    requires BlockSize(bs) && InodeOk(ino) && h <= |out|
    requires IsSlice(v, part, bs, ino, p, out[..h]) && IsSlice(v, part, bs, ino, p + h, out[h..])
    ensures IsSlice(v, part, bs, ino, p, out)
  {
    hide IsSlice;
    assert out == out[..h] + out[h..];
    SliceConcat(v, part, bs, ino, p, out[..h], out[h..]);
  }

  /** The first bytes of a read are right whatever another look-up has left in the buffer exactly when there are none of
      them: the read asks for nothing or starts with a block. */
  lemma LeftoverRightIff(v: View, part: Part, bs: nat, ino: Inode, p: nat, n: nat)
    requires BlockSize(bs) && InodeOk(ino) && p + n < WORD_LIMIT && BlockAt(v, part, bs, ino, p).Some?
    ensures var h := Leftover(p, bs, n);
      && 0 <= h <= n && p % bs + h <= bs
      && ((forall b: Bytes :: |b| == bs ==> IsSlice(v, part, bs, ino, p, b[p % bs..p % bs + h])) <==>
          n == 0 || p % bs == 0)
  {
    hide BlockAt;
    LeftoverFits(p, bs, n);
    var h := Leftover(p, bs, n);
    if h > 0 {
      var b := BlockAt(v, part, bs, ino, p).value;
      var other := b[p % bs := if b[p % bs] == 0 then 1 else 0];
      assert other[p % bs..p % bs + h][0] != b[p % bs];
      assert FileByte(v, part, bs, ino, p + 0) == Some(b[p % bs]);
      assert !IsSlice(v, part, bs, ino, p, other[p % bs..p % bs + h]);
    }
  }

  // ---------------------------------------------------------------- the pointer levels as the loader walks them

  /** One step: the word at slot j of pointer block `root`. */
  function Follow(part: Part, bs: nat, root: nat, j: nat): Option<nat>
    requires BlockSize(bs) && j < Fan(bs)
  {
    var b := Block(part, bs, root);
    if b.None? then None else Some(Word(b.value, j))
  }

  function Square(bs: nat): nat { Fan(bs) * Fan(bs) }

  /** Two steps, to the i-th leaf. */
  function FollowTwo(part: Part, bs: nat, root: nat, i: nat): Option<nat>
    requires BlockSize(bs) && i < Square(bs)
  {
    DivBelow(i, Fan(bs), Fan(bs));
    var a := Follow(part, bs, root, i / Fan(bs));
    if a.None? then None else Follow(part, bs, a.value, i % Fan(bs))
  }

  lemma TwoLevels(part: Part, bs: nat, root: nat, i: nat)
    requires BlockSize(bs) && i < Square(bs)
    ensures Power(Fan(bs), 2) == Square(bs)
    ensures Leaf(part, bs, 2, root, i) == FollowTwo(part, bs, root, i)
  {
    hide Word, Block;
    PowersOf(bs);
    DivBelow(i, Fan(bs), Fan(bs));
    var a := Follow(part, bs, root, i / Fan(bs));
    if a.Some? {
      OneBlockDown(part, bs, a.value, i % Fan(bs));
    }
  }

  lemma ThreeLevels(part: Part, bs: nat, root: nat, i: nat)
    requires BlockSize(bs) && i < Fan(bs) * Square(bs)
    ensures Power(Fan(bs), 3) == Fan(bs) * Square(bs) && 0 < Square(bs)
    ensures i / Square(bs) < Fan(bs) && i % Square(bs) < Square(bs)
    ensures Leaf(part, bs, 3, root, i) ==
            var a := Follow(part, bs, root, i / Square(bs));
            if a.None? then None else FollowTwo(part, bs, a.value, i % Square(bs))
  {
    hide Word, Block, FollowTwo;
    PowersOf(bs);
    var q := Square(bs);
    DivBelow(i, Fan(bs), q);
    assert i % q < q;
    var a := Follow(part, bs, root, i / q);
    if a.Some? {
      TwoLevels(part, bs, a.value, i % q);
    }
  }

  lemma NumberDirect(part: Part, bs: nat, ino: Inode, i: nat)
    requires BlockSize(bs) && InodeOk(ino) && i < NR_DIR_BLOCKS
    ensures i < MaxBlocks(bs) && BlockNumber(Walked, part, bs, ino, i) == Some(ino.block[i])
  {
  }

  lemma NumberSingle(part: Part, bs: nat, ino: Inode, i: nat)
    requires BlockSize(bs) && InodeOk(ino) && i < Fan(bs)
    ensures NR_DIR_BLOCKS + i < MaxBlocks(bs)
    ensures BlockNumber(Walked, part, bs, ino, NR_DIR_BLOCKS + i) == Follow(part, bs, ino.block[NR_DIR_BLOCKS], i)
  {
    hide Leaf, Word, Block;
    OneBlockDown(part, bs, ino.block[NR_DIR_BLOCKS], i);
  }

  lemma NumberDouble(part: Part, bs: nat, ino: Inode, bindex: nat, i: nat)
    requires BlockSize(bs) && InodeOk(ino) && i < Square(bs) && bindex == NR_DIR_BLOCKS + Fan(bs) + i
    ensures bindex < MaxBlocks(bs)
    ensures BlockNumber(Walked, part, bs, ino, bindex) == FollowTwo(part, bs, ino.block[NR_DIR_BLOCKS + 1], i)
  {
    hide Leaf, Word, Block, Power, Fan, FollowTwo;
    TwoLevels(part, bs, ino.block[NR_DIR_BLOCKS + 1], i);
  }

  lemma NumberTriple(part: Part, bs: nat, ino: Inode, bindex: nat, i: nat)
    requires BlockSize(bs) && InodeOk(ino)
    requires bindex < MaxBlocks(bs) && bindex == NR_DIR_BLOCKS + Fan(bs) + Square(bs) + i
    ensures 0 < Square(bs) && i / Square(bs) < Fan(bs) && i % Square(bs) < Square(bs)
    ensures BlockNumber(Walked, part, bs, ino, bindex) ==
            var a := Follow(part, bs, ino.block[NR_DIR_BLOCKS + 2], i / Square(bs));
            if a.None? then None else FollowTwo(part, bs, a.value, i % Square(bs))
  {
    hide Leaf, Word, Block, Power, FollowTwo;
    ThreeLevels(part, bs, ino.block[NR_DIR_BLOCKS + 2], i);
  }

  // ---------------------------------------------------------------- the superblock

  function Groups(blocks: nat, perGroup: nat): nat
    requires perGroup > 0
  {
    (blocks + perGroup - 1) % WORD_LIMIT / perGroup
  }

  /** The descriptor table starts with the first block that lies wholly behind the superblock, bytes 1024 to 2047. */
  lemma TableBehindSuperblock(bs: nat, b: nat)
    requires BlockSize(bs)
    ensures TableBlock(bs) * bs >= 2048 && (b * bs >= 2048 ==> b >= TableBlock(bs))
  {
    if bs == 1024 {
    } else if bs == 2048 {
    } else {
    }
  }

  /** As long as the sum fits 32 bits, the groups just cover the blocks. */
  lemma GroupsCover(blocks: nat, perGroup: nat)
    requires perGroup > 0 && 0 < blocks && blocks + perGroup - 1 < WORD_LIMIT
    ensures var g := Groups(blocks, perGroup); g > 0 && (g - 1) * perGroup < blocks <= g * perGroup
  {
    var s := blocks + perGroup - 1;
    var g := s / perGroup;
    assert s == g * perGroup + s % perGroup;
    assert (g - 1) * perGroup == g * perGroup - perGroup;
  }

  // ---------------------------------------------------------------- direct look-ups

  function GdescSector(bs: nat, gdescBlock: nat, group: nat): nat {
    (SectorOfBlock(bs, gdescBlock) + group / GDESC_PER_SECTOR) % WORD_LIMIT
  }

  /** The descriptor of a group, read straight from the table. */
  function Gdesc(part: Part, bs: nat, gdescBlock: nat, group: nat): (r: Option<Bytes>)
    ensures r.Some? ==> |r.value| == GDESC_SIZE
  {
    var s := part.Read(GdescSector(bs, gdescBlock, group), 1);
    if s.None? then None
    else var at := group % GDESC_PER_SECTOR * GDESC_SIZE; Some(s.value[at..at + GDESC_SIZE])
  }

  lemma SameSector(group: nat, first: nat)
    requires first % GDESC_PER_SECTOR == 0
    ensures first <= group < first + GDESC_PER_SECTOR ==>
              group / GDESC_PER_SECTOR == first / GDESC_PER_SECTOR && group - first == group % GDESC_PER_SECTOR
  {
  }

  lemma SectorStart(group: nat)
    ensures var first := group / GDESC_PER_SECTOR * GDESC_PER_SECTOR;
      && first % GDESC_PER_SECTOR == 0 && first / GDESC_PER_SECTOR == group / GDESC_PER_SECTOR
      && group - first == group % GDESC_PER_SECTOR
  {
  }

  lemma GroupBelow(i: nat, perGroup: nat)
    requires perGroup > 0
    ensures i / perGroup <= i
  {
    assert i == i / perGroup * perGroup + i % perGroup;
    MulUp(1, perGroup, i / perGroup);
  }

  lemma InodeInSector(offset: nat)
    requires offset % INODE_SIZE == 0
    ensures offset % WORD_LIMIT % SECTOR + INODE_SIZE <= SECTOR
  {
    var r, k := offset % WORD_LIMIT, offset / WORD_LIMIT;
    assert offset == offset / INODE_SIZE * INODE_SIZE && offset == k * WORD_LIMIT + r;
    var m := offset / INODE_SIZE - k * (WORD_LIMIT / INODE_SIZE);
    LastPiece(r, m);
  }

  lemma LastPiece(r: nat, m: int)
    requires r == m * INODE_SIZE
    ensures r % SECTOR + INODE_SIZE <= SECTOR
  {
    var a := r / SECTOR;
    assert r == a * SECTOR + r % SECTOR;
    assert r % SECTOR == (m - 4 * a) * INODE_SIZE;
  }

  /** Byte offset of an inode in the inode table of its group. */
  function TableOffset(perGroup: nat, ino: nat): (r: nat)
    requires perGroup > 0 && ino >= 1
    ensures r % INODE_SIZE == 0 && r < perGroup * INODE_SIZE
  {
    (ino - 1) % perGroup * INODE_SIZE
  }

  function InodeBytes(part: Part, bs: nat, gdescBlock: nat, perGroup: nat, ino: nat): (r: Option<Bytes>)
    requires perGroup > 0 && ino >= 1
    ensures r.Some? ==> |r.value| == INODE_SIZE
  {
    var d := Gdesc(part, bs, gdescBlock, (ino - 1) / perGroup);
    if d.None? || Word(d.value, 2) == 0 then None
    else
      var offset := TableOffset(perGroup, ino) % WORD_LIMIT;
      InodeInSector(TableOffset(perGroup, ino));
      var s := part.Read((SectorOfBlock(bs, Word(d.value, 2)) + offset / SECTOR) % WORD_LIMIT, 1);
      if s.None? then None else Some(s.value[offset % SECTOR..offset % SECTOR + INODE_SIZE])
  }

  /** The fields of an inode that reading needs. */
  function InodeOf(b: Bytes): (ino: Inode)
    requires |b| == INODE_SIZE
    ensures InodeOk(ino)
  {
    Inode(Word(b, 1), seq(15, i requires 0 <= i < 15 => Word(b, 10 + i)))
  }

  /** What ext2fs_get_inode reads once the partition has been mounted. */
  function MountedInode(part: Part, ino: nat): (b: Option<Bytes>)
    requires Mounts(part) && ino >= 1
    ensures b.Some? ==> |b.value| == INODE_SIZE
  {
    var sb := part.Read(2, 2).value;
    var bs := 1024 * Scale(sb);
    InodeBytes(part, bs, TableBlock(bs), Word(sb, 10), ino)
  }

  // ---------------------------------------------------------------- a file of holes, read wrong

  lemma SparseDescriptor()
    ensures var d := Gdesc(SparsePart(), 1024, 2, 0); d.Some? && Word(d.value, 2) == 3
  {
    hide SparsePart, Part.Read;
    SparseSector(4, 1);
  }

  lemma SparsePlace(ino: nat)
    requires 12 <= ino <= 14
    ensures (ino - 1) / 16 == 0 && TableOffset(16, ino) % WORD_LIMIT == (ino - 1) * INODE_SIZE
    ensures SectorOfBlock(1024, 3) == 6
    ensures (ino - 1) * INODE_SIZE == (ino - 1) / 4 * SECTOR + (ino - 1) % 4 * INODE_SIZE
    ensures (ino - 1) * INODE_SIZE / SECTOR == (ino - 1) / 4
    ensures (ino - 1) * INODE_SIZE % SECTOR == (ino - 1) % 4 * INODE_SIZE
  {
  }

  lemma SparseTable(ino: nat)
    requires 12 <= ino <= 14
    ensures var b := InodeBytes(SparsePart(), 1024, 2, 16, ino);
      b.Some? && forall i :: 0 <= i < INODE_SIZE ==> b.value[i] == SparseByte(3072 + (ino - 1) * INODE_SIZE + i)
  {
    hide SparsePart, SparseByte, Part.Read, Gdesc, Word, TableOffset, SectorOfBlock;
    SparseDescriptor();
    SparsePlace(ino);
    var s, at := (ino - 1) / 4, (ino - 1) % 4 * INODE_SIZE;
    SparseSector(6 + s, 1);
    var b := SparsePart().Read(6 + s, 1).value;
    var t := b[at..at + INODE_SIZE];
    forall i | 0 <= i < INODE_SIZE ensures t[i] == SparseByte(3072 + (ino - 1) * INODE_SIZE + i) {
      assert b[at + i] == SparseByte((6 + s) * SECTOR + (at + i));
    }
  }

  /** The inodes 12, 13 and 14 of Ext2Disk.SparsePart as the loader reads them. */
  lemma SparseInodes(ino: nat)
    requires 12 <= ino <= 14
    ensures Mounts(SparsePart()) && 1024 * Scale(SparsePart().Read(2, 2).value) == 1024
    ensures var b := MountedInode(SparsePart(), ino);
      b.Some? && forall i :: 0 <= i < INODE_SIZE ==> b.value[i] == SparseByte(3072 + (ino - 1) * INODE_SIZE + i)
  {
    hide SparsePart, SparseByte, Mounts, Scale, InodeBytes, Part.Read;
    SparseMounts();
    SparseTable(ino);
  }

  lemma InodeWord(b: Bytes, from: nat, k: nat)
    requires |b| == INODE_SIZE && k < 32 && forall i :: 0 <= i < INODE_SIZE ==> b[i] == SparseByte(from + i)
    ensures var at := from + 4 * k;
      Word(b, k) == SparseByte(at) as int + 0x100 * SparseByte(at + 1) as int + 0x1_0000 * SparseByte(at + 2) as int
                    + 0x100_0000 * SparseByte(at + 3) as int
  {
    hide SparseByte;
  }

  lemma HoleyInode()
    ensures Mounts(SparsePart()) && MountedInode(SparsePart(), 12).Some?
    ensures var f := InodeOf(MountedInode(SparsePart(), 12).value); f.size == 12289 && f.block[12] == 0
  {
    hide SparsePart, MountedInode, Mounts, Word;
    SparseInodes(12);
    var b := MountedInode(SparsePart(), 12).value;
    InodeWord(b, 4480, 1);
    InodeWord(b, 4480, 22);
  }

  lemma HoleReadsFive(f: Inode)
    requires InodeOk(f) && f.block[12] == 0 && Power(Fan(1024), 1) == 256 && 12 < MaxBlocks(1024)
    ensures var part := SparsePart();
      && HoleOver(part, 1024, f, 12)
      && BlockNumber(Walked, part, 1024, f, 12) == Some(5) && BlockNumber(Meant, part, 1024, f, 12) == Some(0)
  {
    hide SparsePart, Leaf, TrueLeaf, Power, Mounts, HoleAbove;
    NullPointerFollowed();
    assert Route(1024, 12) == (1, 0) && RootSlot(1024, 12) == 12;
  }

  /** Inode 12 of Ext2Disk.SparsePart, a partition the loader mounts: the loader reads the first byte of block 5 where
      the file has a hole. */
  lemma SparseFileMisread()
    ensures Mounts(SparsePart()) && MountedInode(SparsePart(), 12).Some?
    ensures var part, f := SparsePart(), InodeOf(MountedInode(SparsePart(), 12).value);
      && 12288 < f.size && HoleAt(part, 1024, f, 12288) && !ZeroThroughBlock0(part, 1024, f, 12288)
      && FileByte(Walked, part, 1024, f, 12288) == Some(1) && FileByte(Meant, part, 1024, f, 12288) == Some(0)
  {
    hide SparsePart, BlockNumber, HoleOver, NumberThroughBlock0, MountedInode, Mounts, InodeOf, Block, Power, MaxBlocks;
    HoleyInode();
    PowersOf(1024);
    SizeFits(1024, 12288);
    var f := InodeOf(MountedInode(SparsePart(), 12).value);
    HoleReadsFive(f);
    SparseBlock(5);
    ByteIsMeantIff(SparsePart(), 1024, f, 12288);
  }

  lemma ShortInode(ino: nat)
    requires 13 <= ino <= 14
    ensures Mounts(SparsePart()) && MountedInode(SparsePart(), ino).Some?
    ensures var f := InodeOf(MountedInode(SparsePart(), ino).value);
      f.size == 2 && f.block[0] == if ino == 13 then 5 else 0
  {
    hide SparsePart, MountedInode, Mounts, Word;
    SparseInodes(ino);
    var b := MountedInode(SparsePart(), ino).value;
    if ino == 13 {
      InodeWord(b, 4608, 1);
      InodeWord(b, 4608, 10);
    } else {
      InodeWord(b, 4736, 1);
      InodeWord(b, 4736, 10);
    }
  }

  /** Two files of that partition, of two bytes each, that differ in their second byte. */
  lemma TwoFilesDiffer(v: View)
    ensures Mounts(SparsePart()) && MountedInode(SparsePart(), 13).Some? && MountedInode(SparsePart(), 14).Some?
    ensures var part := SparsePart();
      var f, g := InodeOf(MountedInode(part, 13).value), InodeOf(MountedInode(part, 14).value);
      && f.size == 2 && g.size == 2 && BlockAt(v, part, 1024, f, 0).Some? && BlockAt(v, part, 1024, g, 0).Some?
      && FileByte(v, part, 1024, f, 1) == Some(2) && FileByte(v, part, 1024, g, 1) == Some(0)
  {
    hide SparsePart, MountedInode, Mounts, InodeOf, Block;
    ShortInode(13);
    ShortInode(14);
    SizeFits(1024, 0);
    SizeFits(1024, 1);
    assert Route(1024, 0) == (0, 0) && RootSlot(1024, 0) == 0;
    SparseBlock(5);
  }

  /** The place of an inode, counting bytes from the start of the partition, when its group's table is at block
      `table`. */
  function InodePlace(bs: nat, table: nat, perGroup: nat, ino: nat): nat
    requires perGroup > 0 && ino >= 1
  {
    table * bs + TableOffset(perGroup, ino)
  }

  lemma PieceOfSector(part: Part, sec: nat, at: nat)
    requires part.Read(sec, 1).Some? && at + INODE_SIZE <= SECTOR
    ensures sec * SECTOR + at + INODE_SIZE <= |part.data|
    ensures part.Read(sec, 1).value[at..at + INODE_SIZE] == part.data[sec * SECTOR + at..sec * SECTOR + at + INODE_SIZE]
  {
    SliceOfSlice(part.data, sec * SECTOR, SECTOR, at, INODE_SIZE);
  }

  lemma BlockStart(bs: nat, table: nat, size: nat)
    requires BlockSize(bs) && table * bs < size <= SECTOR * WORD_LIMIT
    ensures SectorOfBlock(bs, table) * SECTOR == table * bs
  {
    assert bs / SECTOR == 2 || bs / SECTOR == 4 || bs / SECTOR == 8;
    assert table * (bs / SECTOR) < WORD_LIMIT;
  }

  lemma SectorSum(s: nat, offset: nat, size: nat)
    requires s * SECTOR + offset < size <= SECTOR * WORD_LIMIT
    ensures (s + offset / SECTOR) % WORD_LIMIT * SECTOR + offset % SECTOR == s * SECTOR + offset
  {
  }

  lemma FlatSector(bs: nat, table: nat, offset: nat, size: nat)
    requires BlockSize(bs) && offset % INODE_SIZE == 0 && table * bs + offset < size <= SECTOR * WORD_LIMIT
        && offset < WORD_LIMIT
    ensures var sec := (SectorOfBlock(bs, table) + offset / SECTOR) % WORD_LIMIT;
      sec * SECTOR + offset % SECTOR == table * bs + offset
  {
    var s := SectorOfBlock(bs, table);
    BlockStart(bs, table, size);
    SectorSum(s, offset, size);
  }

  lemma OffsetFits(perGroup: nat, ino: nat)
    requires 0 < perGroup < WORD_LIMIT / INODE_SIZE && ino >= 1
    ensures TableOffset(perGroup, ino) < WORD_LIMIT
    ensures TableOffset(perGroup, ino) % WORD_LIMIT == TableOffset(perGroup, ino)
  {
    hide TableOffset;
  }

  /** The bytes of an inode, without the 32-bit wrap that cannot happen here. */
  lemma InodeBytesAre(part: Part, bs: nat, gdescBlock: nat, perGroup: nat, ino: nat, desc: Bytes)
    requires 0 < perGroup < WORD_LIMIT / INODE_SIZE && ino >= 1
    requires Gdesc(part, bs, gdescBlock, (ino - 1) / perGroup) == Some(desc)
    requires InodeBytes(part, bs, gdescBlock, perGroup, ino).Some?
    ensures var offset := TableOffset(perGroup, ino);
      var s := part.Read((SectorOfBlock(bs, Word(desc, 2)) + offset / SECTOR) % WORD_LIMIT, 1);
      && offset < WORD_LIMIT && s.Some? && offset % SECTOR + INODE_SIZE <= SECTOR
      && InodeBytes(part, bs, gdescBlock, perGroup, ino) ==
         Some(s.value[offset % SECTOR..offset % SECTOR + INODE_SIZE])
  {
    hide Gdesc, Word, SectorOfBlock, TableOffset, Part.Read;
    var offset := TableOffset(perGroup, ino);
    InodeInSector(offset);
    OffsetFits(perGroup, ino);
  }

  /** Seen as one flat array of bytes, the partition holds inode number ino at its place in the inode table of its
      group. */
  lemma InodeIsInItsTable(part: Part, bs: nat, gdescBlock: nat, perGroup: nat, ino: nat, desc: Bytes)
    requires BlockSize(bs) && 0 < perGroup < WORD_LIMIT / INODE_SIZE && ino >= 1 && |part.data| <= SECTOR * WORD_LIMIT
    requires Gdesc(part, bs, gdescBlock, (ino - 1) / perGroup) == Some(desc)
    requires InodeBytes(part, bs, gdescBlock, perGroup, ino).Some?
    requires InodePlace(bs, Word(desc, 2), perGroup, ino) < |part.data|
    ensures var at := InodePlace(bs, Word(desc, 2), perGroup, ino);
      at + INODE_SIZE <= |part.data|
          && InodeBytes(part, bs, gdescBlock, perGroup, ino) == Some(part.data[at..at + INODE_SIZE])
  {
    hide Gdesc, InodeBytes, Word, SectorOfBlock, TableOffset, Part.Read;
    var offset := TableOffset(perGroup, ino);
    InodeBytesAre(part, bs, gdescBlock, perGroup, ino, desc);
    FlatSector(bs, Word(desc, 2), offset, |part.data|);
    var sec := (SectorOfBlock(bs, Word(desc, 2)) + offset / SECTOR) % WORD_LIMIT;
    PieceOfSector(part, sec, offset % SECTOR);
  }

  // ---------------------------------------------------------------- the reader

  class Ext2 {
    const part: Part
    const blockbuf: array<byte>        // static UINT32 blockbuf[EXT2_MAX_BLOCK_SIZE/4]
    const gdescCache: array<byte>      // one sector of group descriptors
    var blocksize: nat
    var ngroups: nat
    var blocksPerGroup: nat
    var inodesPerGroup: nat
    var gdescBlock: nat
    var gdescFirst: nat
    var nrInd: nat
    var nrDind: nat

    constructor (part: Part)
      ensures this.part == part && fresh(blockbuf) && fresh(gdescCache) && Shaped()
    {
      this.part := part;
      blockbuf := new byte[4096](_ => 0);
      gdescCache := new byte[512](_ => 0);
      blocksize, ngroups, blocksPerGroup, inodesPerGroup := 1024, 0, 1, 1;
      gdescBlock, gdescFirst, nrInd, nrDind := 2, 0, 256, 65536;
    }

    ghost predicate Shaped() {
      blockbuf.Length == 4096 && gdescCache.Length == 512 && blockbuf != gdescCache
    }

    ghost predicate Mounted()
      reads this
    {
      && Shaped() && BlockSize(blocksize) && nrInd == Fan(blocksize) && nrDind == nrInd * nrInd
      && blocksPerGroup > 0 && inodesPerGroup > 0 && gdescFirst % GDESC_PER_SECTOR == 0
    }

    /** __READ_BLOCK: fills the front of the block buffer, or fails and leaves it. */
    method ReadBlock(b: nat) returns (ok: bool)
      requires Mounted()
      modifies blockbuf
      ensures ok <==> Block(part, blocksize, b).Some?
      ensures ok ==> blockbuf[..blocksize] == Block(part, blocksize, b).value
      ensures !ok ==> blockbuf[..] == old(blockbuf[..])
    {
      var r := part.Read(SectorOfBlock(blocksize, b), blocksize / SECTOR);
      if r.None? {
        return false;
      }
      forall i | 0 <= i < blocksize {
        blockbuf[i] := r.value[i];
      }
      return true;
    }

    /** SWAB_LE32(blockbuf[i]) */
    function BufferWord(i: nat): nat
      requires Mounted() && i < nrInd
      reads this, blockbuf
    {
      Word(blockbuf[..blocksize], i)
    }

    lemma Widths()
      requires Mounted()
      ensures BlockSize(blocksize) && 0 < nrInd == Fan(blocksize) && 0 < nrDind == Square(blocksize)
    {
    }

    /** The last two pointer blocks of the double and of the triple way. */
    method TwoBlocks(root: nat, i: nat) returns (ok: bool, blknr: nat)
      requires Mounted() && i < nrDind
      modifies blockbuf
      ensures ok <==> FollowTwo(part, blocksize, root, i).Some?
      ensures ok ==> blknr == FollowTwo(part, blocksize, root, i).value
    {
      hide Word, Block;
      DivBelow(i, nrInd, nrInd);
      ok := ReadBlock(root);
      if !ok { return false, 0; }
      ok := ReadBlock(BufferWord(i / nrInd));
      if !ok { return false, 0; }
      return true, BufferWord(i % nrInd);
    }

    /** ext2fs_inode_block: through at most three pointer blocks, one after the other in the same buffer. */
    method InodeBlock(ino: Inode, bindex: nat) returns (ok: bool, blknr: nat)
      requires Mounted() && InodeOk(ino) && bindex < MaxBlocks(blocksize)
      modifies blockbuf
      ensures ok <==> BlockNumber(Walked, part, blocksize, ino, bindex).Some?
      ensures ok ==> blknr == BlockNumber(Walked, part, blocksize, ino, bindex).value
    {
      hide BlockNumber, BlockSize, MaxBlocks, Word, Block, Fan, Square, Mounted, FollowTwo;
      Widths();
      if bindex < NR_DIR_BLOCKS {
        NumberDirect(part, blocksize, ino, bindex);
        return true, ino.block[bindex];
      }
      var i := bindex - NR_DIR_BLOCKS;
      if i < nrInd {
        NumberSingle(part, blocksize, ino, i);
        ok := ReadBlock(ino.block[NR_DIR_BLOCKS]);
        if !ok { return false, 0; }
        return true, BufferWord(i);
      }
      i := i - nrInd;
      if i < nrDind {
        NumberDouble(part, blocksize, ino, bindex, i);
        ok, blknr := TwoBlocks(ino.block[NR_DIR_BLOCKS + 1], i);
        return ok, blknr;
      }
      i := i - nrDind;
      NumberTriple(part, blocksize, ino, bindex, i);
      ok := ReadBlock(ino.block[NR_DIR_BLOCKS + 2]);
      if !ok { return false, 0; }
      ok, blknr := TwoBlocks(BufferWord(i / nrDind), i % nrDind);
    }

    /** The block buffer still holds the block that the file's position is in the middle of. */
    ghost predicate Holds(f: OpenFile)
      requires Mounted() && f.Ok()
      reads this, blockbuf, f
    {
      f.pos % blocksize != 0 ==> BlockAt(Walked, part, blocksize, f.inode, f.pos) == Some(blockbuf[..blocksize])
    }

    /** One data block into the buffer: from the disk, or zeros for a hole that no null indirect pointer makes.  `why`
        is what ext2fs_read returns when it cannot be had. */
    method LoadBlock(ino: Inode, bindex: nat) returns (ok: bool, why: int)
      requires Mounted() && InodeOk(ino) && bindex < MaxBlocks(blocksize)
      modifies blockbuf
      ensures ok <==> FileBlock(Walked, part, blocksize, ino, bindex).Some?
      ensures ok ==> Some(blockbuf[..blocksize]) == FileBlock(Walked, part, blocksize, ino, bindex)
      ensures !HoleOver(part, blocksize, ino, bindex) ==>
                FileBlock(Walked, part, blocksize, ino, bindex) == FileBlock(Meant, part, blocksize, ino, bindex)
      ensures !ok ==> why == if BlockNumber(Walked, part, blocksize, ino, bindex).None? then -1 else 0
    {
      hide BlockNumber, HoleOver, Fan;
      var blknr;
      NumbersDiffer(part, blocksize, ino, bindex);
      ok, blknr := InodeBlock(ino, bindex);
      if !ok {
        return false, -1;
      }
      if blknr != 0 {
        ok := ReadBlock(blknr);
        return ok, 0;
      }
      forall i | 0 <= i < blocksize {
        blockbuf[i] := 0;
      }
      assert blockbuf[..blocksize] == seq(blocksize, _ => 0);
      return true, 0;
    }

    /** One round of the block loop of ext2fs_read: at most `left` bytes from a position at the start of a block. */
    method CopyOne(f: OpenFile, bindex: nat, left: nat) returns (ok: bool, why: int, piece: Bytes)
      requires Mounted() && f.Ok() && 0 < left && f.pos + left <= f.inode.size
      requires f.pos % blocksize == 0 && bindex == f.pos / blocksize
      modifies blockbuf, f`pos
      ensures f.Ok() && f.pos == old(f.pos) + |piece|
      ensures ok ==> |piece| == (if left > blocksize then blocksize else left) && Holds(f)
      ensures ok ==> IsSlice(Walked, part, blocksize, f.inode, old(f.pos), piece)
      ensures ok && |piece| < left ==> f.pos % blocksize == 0 && f.pos / blocksize == bindex + 1
      ensures !ok ==> piece == [] && Holds(f)
      ensures !ok ==> BlockAt(Walked, part, blocksize, f.inode, f.pos) == None
      ensures !ok ==> why == Refusal(part, blocksize, f.inode, f.pos)
    {
      hide FileBlock, BlockNumber, FileByte, IsSlice, Fan;
      piece := [];
      SizeFits(blocksize, f.pos);
      ok, why := LoadBlock(f.inode, bindex);
      if !ok {
        return;
      }
      ghost var b := blockbuf[..blocksize];
      var toRead := left;
      if toRead > blocksize { toRead := blocksize; }
      NextPosition(f.pos, blocksize, toRead);
      BlockPieceIsSlice(Walked, part, blocksize, f.inode, f.pos, toRead, b);
      assert blockbuf[..toRead] == b[0..toRead];
      piece := blockbuf[..toRead];
      SamePiece(Walked, part, blocksize, f.inode, f.pos, toRead);
      f.pos := f.pos + toRead;
    }

    /** The block loop of ext2fs_read: n bytes from a position at the start of a block. */
    method CopyBlocks(f: OpenFile, n: nat) returns (ret: int, out: Bytes)
      requires Mounted() && f.Ok() && f.pos + n <= f.inode.size && (n > 0 ==> f.pos % blocksize == 0)
      modifies blockbuf, f`pos
      ensures f.Ok() && f.pos == old(f.pos) + |out| && |out| <= n
      ensures IsSlice(Walked, part, blocksize, f.inode, old(f.pos), out)
      ensures IsSlice(Meant, part, blocksize, f.inode, old(f.pos), out) <==>
              HolesReadZero(part, blocksize, f.inode, old(f.pos), |out|)
      ensures n == 0 ==> blockbuf[..] == old(blockbuf[..])
      ensures n > 0 ==> Holds(f)
      ensures |out| < n ==>
              BlockAt(Walked, part, blocksize, f.inode, f.pos) == None
              && ret == Refusal(part, blocksize, f.inode, f.pos)
    {
      hide BlockAt, IsSlice, HolesReadZero, Holds, Refusal, Fan;
      ghost var p0 := f.pos;
      out, ret := [], 0;
      EmptySlice(Walked, part, blocksize, f.inode, p0);
      if n > 0 { StartHolds(f); }
      var bindex := f.pos / blocksize;
      while |out| < n
        invariant |out| <= n && f.pos == p0 + |out|
        invariant |out| < n ==> f.pos % blocksize == 0 && bindex == f.pos / blocksize
        invariant IsSlice(Walked, part, blocksize, f.inode, p0, out)
        invariant n > 0 ==> Holds(f)
        invariant n == 0 ==> blockbuf[..] == old(blockbuf[..])
        decreases n - |out|
      {
        var ok, piece;
        ok, ret, piece := CopyOne(f, bindex, n - |out|);
        if !ok {
          SliceIsMeantIff(part, blocksize, f.inode, p0, out);
          return;
        }
        SliceConcat(Walked, part, blocksize, f.inode, p0, out, piece);
        out := out + piece;
        bindex := bindex + 1;
      }
      SliceIsMeantIff(part, blocksize, f.inode, p0, out);
    }

    /** At the start of a block nothing needs to be left in the buffer. */
    lemma StartHolds(f: OpenFile)
      requires Mounted() && f.Ok() && f.pos % blocksize == 0
      ensures Holds(f)
    {
    }

    /** The start of ext2fs_read: what is left in the buffer of the block the position is in. */
    method CopyLeftover(f: OpenFile, n: nat) returns (out: Bytes)
      requires Mounted() && f.Ok() && f.pos + n <= f.inode.size
      modifies f`pos
      ensures f.Ok() && f.pos == old(f.pos) + |out| && |out| == Leftover(old(f.pos), blocksize, n) <= n
      ensures old(f.pos) % blocksize + |out| <= blocksize
      ensures out == blockbuf[old(f.pos) % blocksize..old(f.pos) % blocksize + |out|]
      ensures |out| < n ==> f.pos % blocksize == 0
      ensures old(Holds(f)) ==> Holds(f)
    {
      hide FileBlock, Fan;
      LeftoverFits(f.pos, blocksize, n);
      out := [];
      var rem := blocksize - f.pos % blocksize;
      if rem != blocksize {
        if rem > n { rem := n; }
        AfterLeftover(f.pos, blocksize, n);
        SamePiece(Walked, part, blocksize, f.inode, f.pos, rem);
        out := blockbuf[f.pos % blocksize..f.pos % blocksize + rem];
        f.pos := f.pos + rem;
      }
    }

    /** ext2fs_read.  `out` is what has been copied to the caller's buffer, `ret` the value returned; the two differ
        when a block cannot be read, and the position has moved on by what was copied all the same. */
    method Read(f: OpenFile, nbytes: nat) returns (ret: int, out: Bytes)
      requires Mounted() && f.Ok() && nbytes < WORD_LIMIT && !Overruns(f.pos, nbytes, f.inode.size)
      modifies blockbuf, f`pos
      ensures f.Ok() && f.pos == old(f.pos) + |out| && |out| <= Clamp(old(f.pos), nbytes, f.inode.size)
      ensures var h := Leftover(old(f.pos), blocksize, Clamp(old(f.pos), nbytes, f.inode.size));
        && 0 <= h <= |out| && old(f.pos) % blocksize + h <= blocksize
        && out[..h] == old(blockbuf[..])[old(f.pos) % blocksize..old(f.pos) % blocksize + h]
        && IsSlice(Walked, part, blocksize, f.inode, old(f.pos) + h, out[h..])
        && (IsSlice(Meant, part, blocksize, f.inode, old(f.pos) + h, out[h..]) <==>
            HolesReadZero(part, blocksize, f.inode, old(f.pos) + h, |out| - h))
        && (|out| > h || old(Holds(f)) ==> Holds(f))
      ensures |out| == Clamp(old(f.pos), nbytes, f.inode.size) ==> ret == |out|
      ensures |out| < Clamp(old(f.pos), nbytes, f.inode.size) ==>
                && BlockAt(Walked, part, blocksize, f.inode, f.pos) == None
                && ret == Refusal(part, blocksize, f.inode, f.pos)
    {
      hide BlockAt, IsSlice, HolesReadZero, Refusal;
      var n := nbytes;
      if (f.pos + n) % WORD_LIMIT > f.inode.size {
        n := f.inode.size - f.pos;
      }
      ClampIff(f.pos, nbytes, f.inode.size);
      out := CopyLeftover(f, n);
      ghost var h := |out|;
      assert h == Leftover(old(f.pos), blocksize, Clamp(old(f.pos), nbytes, f.inode.size));
      var tail;
      ret, tail := CopyBlocks(f, n - |out|);
      assert (out + tail)[..h] == out && (out + tail)[h..] == tail;
      out := out + tail;
      if |out| == n {
        ret := |out|;
      }
    }

    /** A read on a file whose block is still in the buffer. */
    method ReadHeld(f: OpenFile, nbytes: nat) returns (out: Bytes)
      requires Mounted() && f.Ok() && Holds(f) && nbytes < WORD_LIMIT && !Overruns(f.pos, nbytes, f.inode.size)
      modifies blockbuf, f`pos
      ensures f.Ok() && Holds(f) && f.pos == old(f.pos) + |out|
      ensures |out| <= Clamp(old(f.pos), nbytes, f.inode.size)
      ensures IsSlice(Walked, part, blocksize, f.inode, old(f.pos), out)
      ensures IsSlice(Meant, part, blocksize, f.inode, old(f.pos), out) <==>
              HolesReadZero(part, blocksize, f.inode, old(f.pos), |out|)
      ensures |out| < Clamp(old(f.pos), nbytes, f.inode.size)
          ==> BlockAt(Walked, part, blocksize, f.inode, f.pos) == None
    {
      hide BlockAt, IsSlice, HolesReadZero, HoleAt, Fan, Leftover, Clamp, Refusal;
      ghost var p, n := f.pos, Clamp(f.pos, nbytes, f.inode.size);
      ClampIff(p, nbytes, f.inode.size);
      LeftoverFits(p, blocksize, n);
      ghost var h := Leftover(p, blocksize, n);
      ghost var buffer := blockbuf[..];
      LeftoverOfHeld(Walked, part, blocksize, f.inode, p, n, buffer[..blocksize]);
      var ret;
      ret, out := Read(f, nbytes);
      SliceOfSlice(buffer, 0, blocksize, p % blocksize, h);
      LeftoverJoins(Walked, part, blocksize, f.inode, p, h, out);
      SliceIsMeantIff(part, blocksize, f.inode, p, out);
    }

    /** A whole series of reads on one open file, with no other look-up in between: the pieces, put together, are one
        slice of what the loader takes for the file, never past its end; they are what the file holds exactly when
        block 0 leads to zeros wherever a null indirect pointer is met.  The series stops early only at a block that
        cannot be read. */
    method ReadSeries(f: OpenFile, sizes: seq<nat>) returns (out: Bytes)
      requires Mounted() && f.Ok() && Holds(f) && Safe(f.pos, sizes, f.inode.size)
      modifies blockbuf, f`pos
      ensures f.Ok() && Holds(f) && f.pos == old(f.pos) + |out|
      ensures IsSlice(Walked, part, blocksize, f.inode, old(f.pos), out)
      ensures IsSlice(Meant, part, blocksize, f.inode, old(f.pos), out) <==>
              HolesReadZero(part, blocksize, f.inode, old(f.pos), |out|)
      ensures f.pos == Wanted(old(f.pos), sizes, f.inode.size)
              || BlockAt(Walked, part, blocksize, f.inode, f.pos) == None
      ensures f.pos == Wanted(old(f.pos), sizes, f.inode.size) || HoleAt(part, blocksize, f.inode, f.pos)
              || BlockAt(Meant, part, blocksize, f.inode, f.pos) == None
    {
      hide BlockAt, IsSlice, HolesReadZero, HoleAt, Holds, Wanted, Safe, Clamp, Fan;
      out := [];
      var i := 0;
      ghost var p0 := f.pos;
      assert sizes[0..] == sizes;
      EmptySlice(Walked, part, blocksize, f.inode, p0);
      while i < |sizes|
        invariant 0 <= i <= |sizes| && f.Ok() && Holds(f) && f.pos == p0 + |out|
        invariant IsSlice(Walked, part, blocksize, f.inode, p0, out)
        invariant Wanted(f.pos, sizes[i..], f.inode.size) == Wanted(p0, sizes, f.inode.size)
        invariant Safe(f.pos, sizes[i..], f.inode.size)
      {
        var want := Clamp(f.pos, sizes[i], f.inode.size);
        WantedStep(f.pos, sizes, i, f.inode.size);
        var piece := ReadHeld(f, sizes[i]);
        SliceConcat(Walked, part, blocksize, f.inode, p0, out, piece);
        out := out + piece;
        if |piece| < want {
          if !HoleAt(part, blocksize, f.inode, f.pos) {
            StoppedAsMeant(part, blocksize, f.inode, f.pos);
          }
          SliceIsMeantIff(part, blocksize, f.inode, p0, out);
          return;
        }
        i := i + 1;
      }
      WantedNothing(f.pos, sizes[i..], f.inode.size);
      SliceIsMeantIff(part, blocksize, f.inode, p0, out);
    }

    /** Two open files read in turn, a byte each: the third read takes the second byte of the other file. */
    method ReadTwoFiles(a: OpenFile, b: OpenFile) returns (x: Bytes, y: Bytes, z: Bytes)
      requires Mounted() && a != b && a.Ok() && b.Ok() && a.pos == 0 && b.pos == 0
      requires a.inode.size >= 2 && b.inode.size >= 2
      requires BlockAt(Walked, part, blocksize, a.inode, 0).Some? && BlockAt(Walked, part, blocksize, b.inode, 0).Some?
      modifies blockbuf, a`pos, b`pos
      ensures a.pos == 2 && b.pos == 1
      ensures |x| == 1 && IsSlice(Walked, part, blocksize, a.inode, 0, x)
      ensures |y| == 1 && IsSlice(Walked, part, blocksize, b.inode, 0, y)
      ensures |z| == 1 && Some(z[0]) == FileByte(Walked, part, blocksize, b.inode, 1)
      ensures IsSlice(Walked, part, blocksize, a.inode, 1, z) <==>
              FileByte(Walked, part, blocksize, a.inode, 1) == FileByte(Walked, part, blocksize, b.inode, 1)
    {
      hide BlockAt, HolesReadZero, Fan, Refusal;
      var ret;
      ret, x := Read(a, 1);
      ret, y := Read(b, 1);
      ghost var buffer := blockbuf[..];
      ret, z := Read(a, 1);
      assert z == buffer[1..2] && buffer[..blocksize][1] == buffer[1];
      PositionInBlock(blocksize, 0, 1);
      SamePiece(Walked, part, blocksize, b.inode, 0, 1);
      assert IsSlice(Walked, part, blocksize, a.inode, 1, z) <==>
             FileByte(Walked, part, blocksize, a.inode, 1 + 0) == Some(z[0]);
    }

    // ------------------------------------------------------------ group descriptors and inodes

    /** The cache holds the descriptors from gdescFirst on. */
    ghost predicate Cached()
      requires Mounted()
      reads this, gdescCache
    {
      part.Read(GdescSector(blocksize, gdescBlock, gdescFirst), 1) == Some(gdescCache[..])
    }

    /** ext2fs_get_gdesc: whatever was looked up before, the descriptor is the one in the table on the disk. */
    method GetGdesc(group: nat) returns (ok: bool, desc: Bytes)
      requires Mounted() && Cached() && group < WORD_LIMIT
      modifies gdescCache, `gdescFirst
      ensures Mounted() && Cached()
      ensures ok <==> Gdesc(part, blocksize, gdescBlock, group).Some?
      ensures ok ==> desc == Gdesc(part, blocksize, gdescBlock, group).value
    {
      hide SectorOfBlock, Fan;
      desc := [];
      SameSector(group, gdescFirst);
      if group < gdescFirst || group >= gdescFirst + GDESC_PER_SECTOR {
        var sec := (SectorOfBlock(blocksize, gdescBlock) + group / GDESC_PER_SECTOR) % WORD_LIMIT;
        var r := part.Read(sec, 1);
        if r.None? {
          return false, [];
        }
        forall i | 0 <= i < 512 {
          gdescCache[i] := r.value[i];
        }
        assert gdescCache[..] == r.value;
        gdescFirst := group / GDESC_PER_SECTOR * GDESC_PER_SECTOR;
        SectorStart(group);
      }
      var at := (group - gdescFirst) * GDESC_SIZE;
      return true, gdescCache[at..at + GDESC_SIZE];
    }

    /** ext2fs_get_inode */
    method GetInode(ino: nat) returns (ok: bool, bytes: Bytes)
      requires Mounted() && Cached() && 1 <= ino < WORD_LIMIT
      modifies gdescCache, `gdescFirst
      ensures Mounted() && Cached()
      ensures ok <==> InodeBytes(part, blocksize, gdescBlock, inodesPerGroup, ino).Some?
      ensures ok ==> bytes == InodeBytes(part, blocksize, gdescBlock, inodesPerGroup, ino).value
    {
      hide Gdesc;
      GroupBelow(ino - 1, inodesPerGroup);
      var desc;
      ok, desc := GetGdesc((ino - 1) / inodesPerGroup);
      if !ok || Word(desc, 2) == 0 {
        return false, [];
      }
      InodeInSector(TableOffset(inodesPerGroup, ino));
      var offset := (ino - 1) % inodesPerGroup * INODE_SIZE % WORD_LIMIT;
      var sec := (SectorOfBlock(blocksize, Word(desc, 2)) + offset / SECTOR) % WORD_LIMIT;
      offset := offset % SECTOR;
      var r := part.Read(sec, 1);
      if r.None? {
        return false, [];
      }
      return true, r.value[offset..offset + INODE_SIZE];
    }

    /** ext2fs_mount, on a file system whose superblock, if there is one, is sane.  The descriptor table is found in the
        block right behind the superblock. */
    method Mount() returns (r: int)
      requires Shaped()
      requires var sb := part.Read(2, 2); sb.Some? && Magic(sb.value) == SUPER_MAGIC ==> Sane(sb.value)
      modifies this, gdescCache
      ensures r == if Mounts(part) then 0 else -1
      ensures r == 0 ==> Mounted() && Cached() && gdescFirst == 0
      ensures r == 0 ==> var sb := part.Read(2, 2).value;
        && blocksize == 1024 * Scale(sb) && inodesPerGroup == Word(sb, 10) && blocksPerGroup == Word(sb, 8)
        && gdescBlock == TableBlock(blocksize) && ngroups == Groups(Word(sb, 1), blocksPerGroup)
    {
      hide SectorOfBlock, Word, Magic, Groups;
      var sb := part.Read(2, 2);
      if sb.None? {
        return -1;
      }
      if Magic(sb.value) != SUPER_MAGIC {
        return -1;
      }
      blocksize := 1024 * Scale(sb.value);
      nrInd := blocksize / 4;
      nrDind := nrInd * (blocksize / 4);
      blocksPerGroup := Word(sb.value, 8);
      ngroups := Groups(Word(sb.value, 1), blocksPerGroup);
      inodesPerGroup := Word(sb.value, 10);
      gdescBlock := 1024 / blocksize + 1;
      gdescFirst := 0;
      var g := part.Read(SectorOfBlock(blocksize, gdescBlock), 1);
      if g.None? {
        return -1;
      }
      forall i | 0 <= i < 512 {
        gdescCache[i] := g.value[i];
      }
      assert gdescCache[..] == g.value;
      return 0;
    }
  }
}
