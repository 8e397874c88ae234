/** The on-disk view of src/ide/ext2fs.c: sectors, blocks, little-endian words, and the block map of an inode as a
    tree of pointer blocks, independent of how the loader walks it. */
module Ext2Disk {
  import opened ByteData

  const SECTOR := 512
  const NR_DIR_BLOCKS := 12

  /** A partition: its bytes, and the sectors that cannot be read. */
  datatype Part = Part(data: Bytes, bad: set<int>) {
    /** What PARTITION_READ delivers for n sectors from sector s on. */
    function Read(s: nat, n: nat): (r: Option<Bytes>)
      ensures r.Some? ==> |r.value| == n * SECTOR
    {
      if (s + n) * SECTOR <= |data| && forall k :: s <= k < s + n ==> k !in bad
      then Some(data[s * SECTOR..(s + n) * SECTOR]) else None
    }
  }

  predicate BlockSize(bs: nat) { bs == 1024 || bs == 2048 || bs == 4096 }

  /** EXT2_BLOCK_TO_SECTOR, in 32 bits. */
  function SectorOfBlock(bs: nat, b: nat): (s: nat)
    ensures s < WORD_LIMIT
  {
    b * (bs / SECTOR) % WORD_LIMIT
  }

  function Block(part: Part, bs: nat, b: nat): (r: Option<Bytes>)
    requires BlockSize(bs)
    ensures r.Some? ==> |r.value| == bs
  {
    part.Read(SectorOfBlock(bs, b), bs / SECTOR)
  }

  /** The i-th 32-bit word of a block. */
  function Word(b: Bytes, i: nat): nat
    requires 4 * i + 4 <= |b|
  {
    Le32At(b, 4 * i)
  }

  // ---------------------------------------------------------------- the block map as a tree

  /** Pointers per block. */
  function Fan(bs: nat): (n: nat)
    ensures BlockSize(bs) ==> n == 256 || n == 512 || n == 1024
  {
    bs / 4
  }

  function Power(n: nat, k: nat): nat {
    if k == 0 then 1 else n * Power(n, k - 1)
  }

  lemma {:induction false} PowerPositive(n: nat, k: nat)
    requires n > 0
    ensures Power(n, k) > 0
  {
    if k > 0 {
      PowerPositive(n, k - 1);
      Positive(n, Power(n, k - 1));
    }
  }

  lemma Positive(a: nat, b: nat)
    requires a > 0 && b > 0
    ensures a * b > 0
  {
  }

  lemma DivBelow(i: nat, n: nat, p: nat)
    requires p > 0 && i < n * p
    ensures i / p < n
  {
    assert i == i / p * p + i % p;
    if i / p >= n { MulUp(n, i / p, p); }
  }

  lemma MulUp(a: nat, b: nat, p: nat)
    requires a <= b
    ensures a * p <= b * p
  {
  }

  /** The slot of the topmost pointer block that leads to leaf i. */
  function Top(n: nat, level: nat, i: nat): (t: nat)
    requires n > 0 && level > 0 && i < Power(n, level)
    ensures t < n
  {
    PowerPositive(n, level - 1);
    DivBelow(i, n, Power(n, level - 1));
    i / Power(n, level - 1)
  }

  /** The leaf's index below that slot. */
  function Below(n: nat, level: nat, i: nat): (r: nat)
    requires n > 0 && level > 0
    ensures r < Power(n, level - 1)
  {
    PowerPositive(n, level - 1);
    i % Power(n, level - 1)
  }

  lemma TopAndBelow(n: nat, level: nat, i: nat)
    requires n > 0 && level > 0 && i < Power(n, level)
    ensures i == Top(n, level, i) * Power(n, level - 1) + Below(n, level, i)
  {
    PowerPositive(n, level - 1);
  }

  /** The pointer found for leaf i below pointer block `root`, `level` pointer blocks down; None when one of them cannot
      be read. */
  function Leaf(part: Part, bs: nat, level: nat, root: nat, i: nat): Option<nat>
    requires BlockSize(bs) && i < Power(Fan(bs), level)
    decreases level
  {
    if level == 0 then Some(root)
    else
      var b := Block(part, bs, root);
      if b.None? then None
      else Leaf(part, bs, level - 1, Word(b.value, Top(Fan(bs), level, i)), Below(Fan(bs), level, i))
  }

  /** The same, as the file system defines it: a null pointer anywhere on the way is a hole. */
  function TrueLeaf(part: Part, bs: nat, level: nat, root: nat, i: nat): Option<nat>
    requires BlockSize(bs) && i < Power(Fan(bs), level)
    decreases level
  {
    if level == 0 || root == 0 then Some(root)
    else
      var b := Block(part, bs, root);
      if b.None? then None
      else TrueLeaf(part, bs, level - 1, Word(b.value, Top(Fan(bs), level, i)), Below(Fan(bs), level, i))
  }

  /** A null pointer is met above the leaf. */
  predicate HoleAbove(part: Part, bs: nat, level: nat, root: nat, i: nat)
    requires BlockSize(bs) && i < Power(Fan(bs), level)
    decreases level
  {
    level > 0 &&
    (root == 0 ||
     var b := Block(part, bs, root);
     b.Some? && HoleAbove(part, bs, level - 1, Word(b.value, Top(Fan(bs), level, i)), Below(Fan(bs), level, i)))
  }

  /** Where the first null pointer above the leaf is: how many pointer blocks down it should lead, and the index below
      it. */
  function Hole(part: Part, bs: nat, level: nat, root: nat, i: nat): (h: (nat, nat))
    requires BlockSize(bs) && i < Power(Fan(bs), level) && HoleAbove(part, bs, level, root, i)
    ensures 0 < h.0 <= level && h.1 < Power(Fan(bs), h.0)
    decreases level
  {
    if root == 0 then (level, i)
    else
      var b := Block(part, bs, root).value;
      Hole(part, bs, level - 1, Word(b, Top(Fan(bs), level, i)), Below(Fan(bs), level, i))
  }

  /** The words that stand one below the other in the pointer blocks from block `root` down; they end at a block that
      cannot be read. */
  function Words(part: Part, bs: nat, level: nat, root: nat, i: nat): (w: seq<nat>)
    requires BlockSize(bs) && i < Power(Fan(bs), level)
    ensures |w| <= level
    decreases level
  {
    if level == 0 then []
    else
      var b := Block(part, bs, root);
      if b.None? then []
      else
        var word := Word(b.value, Top(Fan(bs), level, i));
        [word] + Words(part, bs, level - 1, word, Below(Fan(bs), level, i))
  }

  /** Block 0 taken for a pointer block leads to this word. */
  function ThroughBlock0(part: Part, bs: nat, level: nat, i: nat): Option<nat>
    requires BlockSize(bs) && 0 < level && i < Power(Fan(bs), level)
  {
    var w := Words(part, bs, level, 0, i);
    if |w| == level then Some(w[level - 1]) else None
  }

  lemma {:induction false} LeafIsLastWord(part: Part, bs: nat, level: nat, root: nat, i: nat)
    requires BlockSize(bs) && i < Power(Fan(bs), level) && level > 0
    ensures var w := Words(part, bs, level, root, i);
      Leaf(part, bs, level, root, i) == if |w| == level then Some(w[level - 1]) else None
    decreases level
  {
    hide Power, Top, Below, Word, Block;
    var b := Block(part, bs, root);
    if b.Some? && level > 1 {
      LeafIsLastWord(part, bs, level - 1, Word(b.value, Top(Fan(bs), level, i)), Below(Fan(bs), level, i));
    }
  }

  /** Below a null pointer the loader finds what block 0 leads to, and the file system means a hole. */
  lemma {:induction false} LeafAtHole(part: Part, bs: nat, level: nat, root: nat, i: nat)
    requires BlockSize(bs) && i < Power(Fan(bs), level) && HoleAbove(part, bs, level, root, i)
    ensures TrueLeaf(part, bs, level, root, i) == Some(0)
    ensures var h := Hole(part, bs, level, root, i);
      Leaf(part, bs, level, root, i) == ThroughBlock0(part, bs, h.0, h.1)
    decreases level
  {
    hide Power, Top, Below, Word, Block, Words;
    if root == 0 {
      LeafIsLastWord(part, bs, level, 0, i);
    } else {
      var b := Block(part, bs, root).value;
      LeafAtHole(part, bs, level - 1, Word(b, Top(Fan(bs), level, i)), Below(Fan(bs), level, i));
    }
  }

  lemma {:induction false} LeafWithoutHole(part: Part, bs: nat, level: nat, root: nat, i: nat)
    requires BlockSize(bs) && i < Power(Fan(bs), level) && !HoleAbove(part, bs, level, root, i)
    ensures Leaf(part, bs, level, root, i) == TrueLeaf(part, bs, level, root, i)
    decreases level
  {
    hide Power, Top, Below, Word, Block;
    if level > 0 {
      var b := Block(part, bs, root);
      if b.Some? {
        LeafWithoutHole(part, bs, level - 1, Word(b.value, Top(Fan(bs), level, i)), Below(Fan(bs), level, i));
      }
    }
  }

  /** Following null pointers gives what the file system means exactly when no null pointer is met above the leaf, or
      the words found from block 0 down can all be read and the last of them is zero. */
  lemma LeafIsTrueIff(part: Part, bs: nat, level: nat, root: nat, i: nat)
    requires BlockSize(bs) && i < Power(Fan(bs), level)
    ensures Leaf(part, bs, level, root, i) == TrueLeaf(part, bs, level, root, i) <==>
            (HoleAbove(part, bs, level, root, i) ==>
               var h := Hole(part, bs, level, root, i);
               var w := Words(part, bs, h.0, 0, h.1);
               |w| == h.0 && w[h.0 - 1] == 0)
  {
    if HoleAbove(part, bs, level, root, i) {
      LeafAtHole(part, bs, level, root, i);
    } else {
      LeafWithoutHole(part, bs, level, root, i);
    }
  }

  lemma PowersOf(bs: nat)
    ensures Power(Fan(bs), 0) == 1 && Power(Fan(bs), 1) == Fan(bs) && Power(Fan(bs), 2) == Fan(bs) * Fan(bs)
    ensures Power(Fan(bs), 3) == Fan(bs) * Fan(bs) * Fan(bs)
  {
    var n := Fan(bs);
    assert Power(n, 1) == n * Power(n, 0);
    assert Power(n, 2) == n * Power(n, 1);
    assert Power(n, 3) == n * Power(n, 2);
    assert n * (n * n) == n * n * n;
  }

  lemma OneBlockDown(part: Part, bs: nat, root: nat, i: nat)
    requires BlockSize(bs) && i < Fan(bs)
    ensures Power(Fan(bs), 1) == Fan(bs)
    ensures var b := Block(part, bs, root);
      Leaf(part, bs, 1, root, i) == if b.None? then None else Some(Word(b.value, i))
  {
    PowersOf(bs);
  }

  // ---------------------------------------------------------------- the superblock

  const SUPER_MAGIC := 0xEF53

  function Magic(sb: Bytes): nat
    requires |sb| == 1024
  {
    sb[56] as int + 256 * sb[57] as int
  }

  /** 1 << log_block_size, for the sizes the block buffer is made for. */
  function Scale(sb: Bytes): nat
    requires |sb| == 1024
  {
    if Word(sb, 6) == 0 then 1 else if Word(sb, 6) == 1 then 2 else 4
  }

  predicate Sane(sb: Bytes) {
    |sb| == 1024 && Word(sb, 6) <= 2 && Word(sb, 8) > 0 && Word(sb, 10) > 0
  }

  /** EXT2_MIN_BLOCK_SIZE / blocksize + 1 */
  function TableBlock(bs: nat): nat
    requires bs > 0
  {
    1024 / bs + 1
  }

  /** What ext2fs_mount asks of a partition: a superblock with the magic number, and a readable descriptor table. */
  predicate Mounts(part: Part) {
    var sb := part.Read(2, 2);
    && sb.Some? && Magic(sb.value) == SUPER_MAGIC && Sane(sb.value)
    && var bs := 1024 * Scale(sb.value); part.Read(SectorOfBlock(bs, TableBlock(bs)), 1).Some?
  }

  // ---------------------------------------------------------------- a partition with a file of holes

  /** A file system of six blocks of 1024 bytes.  Word 0 of block 0 is 5.  Block 1 is the superblock: the magic number,
      8192 blocks and 16 inodes per group.  Block 2 names block 3 as the inode table.  Inode 12 has 12289 bytes and null
      pointers only; inodes 13 and 14 have 2 bytes, the first of them in block 5.  Block 5 starts with 1 and 2. */
  function SparseByte(i: nat): byte {
    match i
    case 0 => 5
    case 1057 => 0x20
    case 1064 => 16
    case 1080 => 0x53
    case 1081 => 0xEF
    case 2056 => 3
    case 4484 => 1
    case 4485 => 0x30
    case 4612 => 2
    case 4648 => 5
    case 4740 => 2
    case 5120 => 1
    case 5121 => 2
    case _ => 0
  }

  function SparsePart(): (part: Part)
    ensures |part.data| == 6144 && part.bad == {}
    ensures forall i :: 0 <= i < 6144 ==> part.data[i] == SparseByte(i)
  {
    Part(seq(6144, i requires 0 <= i => SparseByte(i)), {})
  }

  lemma SparseSector(s: nat, n: nat)
    requires s + n <= 12
    ensures var r := SparsePart().Read(s, n);
      r.Some? && forall i :: 0 <= i < n * SECTOR ==> r.value[i] == SparseByte(s * SECTOR + i)
  {
    hide SparsePart, SparseByte;
  }

  /** The loader mounts it, with blocks of 1024 bytes. */
  lemma SparseMounts()
    ensures Mounts(SparsePart())
    ensures Scale(SparsePart().Read(2, 2).value) == 1 && Word(SparsePart().Read(2, 2).value, 10) == 16
  {
    hide SparsePart, Part.Read;
    SparseSector(2, 2);
    SparseSector(4, 1);
  }

  lemma SparseBlock(b: nat)
    requires b < 6
    ensures var r := Block(SparsePart(), 1024, b);
      r.Some? && forall i :: 0 <= i < 1024 ==> r.value[i] == SparseByte(b * 1024 + i)
  {
    hide SparsePart, SparseByte, Part.Read;
    SparseSector(2 * b, 2);
  }

  /** There a null indirect pointer, a hole of 256 blocks, leads to block 5. */
  lemma NullPointerFollowed()
    ensures Mounts(SparsePart()) && Scale(SparsePart().Read(2, 2).value) == 1
    ensures Power(Fan(1024), 1) == 256 && HoleAbove(SparsePart(), 1024, 1, 0, 0)
    ensures TrueLeaf(SparsePart(), 1024, 1, 0, 0) == Some(0) && Leaf(SparsePart(), 1024, 1, 0, 0) == Some(5)
  {
    hide SparsePart, Mounts, Scale, Block, Part.Read;
    SparseMounts();
    PowersOf(1024);
    OneBlockDown(SparsePart(), 1024, 0, 0);
    SparseBlock(0);
  }

  // ---------------------------------------------------------------- the fifteen pointers of an inode

  datatype Inode = Inode(size: nat, block: seq<nat>)

  predicate InodeOk(ino: Inode) {
    ino.size < WORD_LIMIT && |ino.block| == 15
  }

  /** Where index i is looked up: the number of pointer blocks below the inode, and the index below that root. */
  function Route(bs: nat, i: nat): (r: (nat, nat))
    requires BlockSize(bs)
    ensures i < MaxBlocks(bs) ==> r.0 <= 3 && r.1 < Power(Fan(bs), r.0)
  {
    PowersOf(bs);
    var n := Fan(bs);
    if i < NR_DIR_BLOCKS then (0, 0)
    else if i - NR_DIR_BLOCKS < n then (1, i - NR_DIR_BLOCKS)
    else if i - NR_DIR_BLOCKS - n < n * n then (2, i - NR_DIR_BLOCKS - n)
    else (3, i - NR_DIR_BLOCKS - n - n * n)
  }

  function MaxBlocks(bs: nat): nat {
    NR_DIR_BLOCKS + Fan(bs) + Fan(bs) * Fan(bs) + Fan(bs) * Fan(bs) * Fan(bs)
  }

  /** The inode's own pointer that index i starts from. */
  function RootSlot(bs: nat, i: nat): (s: nat)
    requires BlockSize(bs)
    ensures i < MaxBlocks(bs) ==> s < 15
  {
    var r := Route(bs, i);
    if r.0 == 0 then i else NR_DIR_BLOCKS + r.0 - 1
  }

  /** Two readings of the pointers: as the loader walks them, null ones too, and as the file system means them. */
  datatype View = Walked | Meant

  /** The data block of index i; 0 is a hole. */
  function BlockNumber(v: View, part: Part, bs: nat, ino: Inode, i: nat): Option<nat>
    requires BlockSize(bs) && InodeOk(ino) && i < MaxBlocks(bs)
  {
    var r := Route(bs, i);
    if v.Walked? then Leaf(part, bs, r.0, ino.block[RootSlot(bs, i)], r.1)
    else TrueLeaf(part, bs, r.0, ino.block[RootSlot(bs, i)], r.1)
  }

  /** The way to index i meets a null pointer above the data block. */
  predicate HoleOver(part: Part, bs: nat, ino: Inode, i: nat)
    requires BlockSize(bs) && InodeOk(ino) && i < MaxBlocks(bs)
  {
    var r := Route(bs, i);
    HoleAbove(part, bs, r.0, ino.block[RootSlot(bs, i)], r.1)
  }

  /** The word that the loader then takes for the number of the data block. */
  function NumberThroughBlock0(part: Part, bs: nat, ino: Inode, i: nat): Option<nat>
    requires BlockSize(bs) && InodeOk(ino) && i < MaxBlocks(bs) && HoleOver(part, bs, ino, i)
  {
    var r := Route(bs, i);
    var h := Hole(part, bs, r.0, ino.block[RootSlot(bs, i)], r.1);
    ThroughBlock0(part, bs, h.0, h.1)
  }

  lemma NumbersDiffer(part: Part, bs: nat, ino: Inode, i: nat)
    requires BlockSize(bs) && InodeOk(ino) && i < MaxBlocks(bs)
    ensures !HoleOver(part, bs, ino, i)
        ==> BlockNumber(Walked, part, bs, ino, i) == BlockNumber(Meant, part, bs, ino, i)
    ensures HoleOver(part, bs, ino, i) ==>
              && BlockNumber(Meant, part, bs, ino, i) == Some(0)
              && BlockNumber(Walked, part, bs, ino, i) == NumberThroughBlock0(part, bs, ino, i)
  {
    hide Leaf, TrueLeaf, HoleAbove, Hole, ThroughBlock0, Fan;
    var r := Route(bs, i);
    if HoleOver(part, bs, ino, i) {
      LeafAtHole(part, bs, r.0, ino.block[RootSlot(bs, i)], r.1);
    } else {
      LeafWithoutHole(part, bs, r.0, ino.block[RootSlot(bs, i)], r.1);
    }
  }

  /** Block 0 can be read and holds nothing but zeros. */
  predicate ZeroBlock0(part: Part, bs: nat)
    requires BlockSize(bs)
  {
    var b := Block(part, bs, 0);
    b.Some? && forall k :: 0 <= k < |b.value| ==> b.value[k] == 0
  }

  lemma {:induction false} LeafThroughZeros(part: Part, bs: nat, level: nat, i: nat)
    requires BlockSize(bs) && i < Power(Fan(bs), level) && ZeroBlock0(part, bs)
    ensures Leaf(part, bs, level, 0, i) == Some(0)
    decreases level
  {
    hide Power, Top, Below, Block;
    if level > 0 {
      assert Word(Block(part, bs, 0).value, Top(Fan(bs), level, i)) == 0;
      LeafThroughZeros(part, bs, level - 1, Below(Fan(bs), level, i));
    }
  }

  lemma {:induction false} TreeThroughZeros(part: Part, bs: nat, level: nat, root: nat, i: nat)
    requires BlockSize(bs) && i < Power(Fan(bs), level) && ZeroBlock0(part, bs)
    ensures Leaf(part, bs, level, root, i) == TrueLeaf(part, bs, level, root, i)
    decreases level
  {
    hide Power, Top, Below, Word, Block, ZeroBlock0;
    if level > 0 {
      if root == 0 {
        LeafThroughZeros(part, bs, level, i);
      } else {
        var b := Block(part, bs, root);
        if b.Some? {
          TreeThroughZeros(part, bs, level - 1, Word(b.value, Top(Fan(bs), level, i)), Below(Fan(bs), level, i));
        }
      }
    }
  }

  lemma ZeroBlockIsMeant(part: Part, bs: nat, ino: Inode, i: nat)
    requires BlockSize(bs) && InodeOk(ino) && i < MaxBlocks(bs) && ZeroBlock0(part, bs)
    ensures BlockNumber(Walked, part, bs, ino, i) == BlockNumber(Meant, part, bs, ino, i)
  {
    hide Leaf, TrueLeaf, ZeroBlock0, Fan;
    var r := Route(bs, i);
    TreeThroughZeros(part, bs, r.0, ino.block[RootSlot(bs, i)], r.1);
  }

  /** The inode of a file with holes only. */
  function Empty(): (ino: Inode)
    ensures InodeOk(ino) && forall k :: 0 <= k < 15 ==> ino.block[k] == 0
  {
    Inode(0, seq(15, _ => 0))
  }

  lemma WordOfByte(bs: nat, k: nat)
    requires BlockSize(bs) && k < bs
    ensures k / 4 < Fan(bs) && 4 * (k / 4) + 4 <= bs
  {
  }

  lemma NonzeroIsNotMeant(part: Part, bs: nat) returns (i: nat)
    requires BlockSize(bs) && !ZeroBlock0(part, bs)
    ensures i < MaxBlocks(bs)
    ensures BlockNumber(Walked, part, bs, Empty(), i) != BlockNumber(Meant, part, bs, Empty(), i)
  {
    hide Word, Block, Leaf;
    var b := Block(part, bs, 0);
    PowersOf(bs);
    if b.None? {
      i := NR_DIR_BLOCKS;
    } else {
      var k :| 0 <= k < bs && b.value[k] != 0;
      WordOfByte(bs, k);
      i := NR_DIR_BLOCKS + k / 4;
      NonzeroWord(b.value, k);
    }
    OneBlockDown(part, bs, 0, i - NR_DIR_BLOCKS);
  }

  lemma NonzeroWord(b: Bytes, k: nat)
    requires |b| % 4 == 0 && k < |b| && b[k] != 0
    ensures Word(b, k / 4) != 0
  {
    assert k == 4 * (k / 4) || k == 4 * (k / 4) + 1 || k == 4 * (k / 4) + 2 || k == 4 * (k / 4) + 3;
  }

  /** On a partition all of whose inodes are to be read as they are meant, block 0 must be readable and zero, and that
      is enough. */
  lemma AllNumbersMeantIff(part: Part, bs: nat)
    requires BlockSize(bs)
    ensures (forall ino: Inode, i: nat :: InodeOk(ino) && i < MaxBlocks(bs) ==>
                BlockNumber(Walked, part, bs, ino, i) == BlockNumber(Meant, part, bs, ino, i)) <==>
            ZeroBlock0(part, bs)
  {
    hide BlockNumber, ZeroBlock0, MaxBlocks;
    if ZeroBlock0(part, bs) {
      forall ino: Inode, i: nat | InodeOk(ino) && i < MaxBlocks(bs)
        ensures BlockNumber(Walked, part, bs, ino, i) == BlockNumber(Meant, part, bs, ino, i)
      {
        ZeroBlockIsMeant(part, bs, ino, i);
      }
    } else {
      var i := NonzeroIsNotMeant(part, bs);
    }
  }

  /** The slots on the way to index i, the inode's own first. */
  function Slots(n: nat, level: nat, i: nat): seq<nat>
    requires n > 0 && i < Power(n, level)
    decreases level
  {
    if level == 0 then [] else [Top(n, level, i)] + Slots(n, level - 1, Below(n, level, i))
  }

  function Path(bs: nat, i: nat): seq<nat>
    requires BlockSize(bs) && i < MaxBlocks(bs)
  {
    [RootSlot(bs, i)] + Slots(Fan(bs), Route(bs, i).0, Route(bs, i).1)
  }

  lemma {:induction false} SlotsInjective(n: nat, level: nat, i: nat, j: nat)
    requires n > 0 && i < Power(n, level) && j < Power(n, level) && Slots(n, level, i) == Slots(n, level, j)
    ensures i == j
    decreases level
  {
    if level > 0 {
      hide Power, Top, Below;
      var a, b := Slots(n, level, i), Slots(n, level, j);
      assert Top(n, level, i) == a[0] == b[0] == Top(n, level, j);
      assert a[1..] == Slots(n, level - 1, Below(n, level, i)) && b[1..] == Slots(n, level - 1, Below(n, level, j));
      SlotsInjective(n, level - 1, Below(n, level, i), Below(n, level, j));
      TopAndBelow(n, level, i);
      TopAndBelow(n, level, j);
    }
  }

  /** Different indices take different ways: no two of them end at the same pointer slot. */
  lemma DistinctIndicesDistinctSlots(bs: nat, i: nat, j: nat)
    requires BlockSize(bs) && i < MaxBlocks(bs) && j < MaxBlocks(bs) && Path(bs, i) == Path(bs, j)
    ensures i == j
  {
    var a, b := Path(bs, i), Path(bs, j);
    assert a[0] == RootSlot(bs, i) && b[0] == RootSlot(bs, j);
    assert a[1..] == Slots(Fan(bs), Route(bs, i).0, Route(bs, i).1);
    assert b[1..] == Slots(Fan(bs), Route(bs, j).0, Route(bs, j).1);
    assert Route(bs, i).0 == Route(bs, j).0;
    SlotsInjective(Fan(bs), Route(bs, i).0, Route(bs, i).1, Route(bs, j).1);
  }

  /** Every block of a file whose size is a 32-bit number has an index in range. */
  lemma SizeFits(bs: nat, pos: nat)
    requires BlockSize(bs) && pos < WORD_LIMIT
    ensures pos / bs < MaxBlocks(bs)
  {
    if bs == 1024 {
      assert pos / 1024 < 4194304;
    } else if bs == 2048 {
      assert pos / 2048 < 2097152;
    } else {
      assert pos / 4096 < 1048576;
    }
  }
}
