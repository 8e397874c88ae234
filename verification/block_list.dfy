/** The block list behind the first-fit allocator of src/sys/sys_malloc.c, as a value: the headers met on the
    next-chain from the start of the arena, in order, each with the `prev` link that is really stored in it. */
module BlockList {
  const HEADER := 32
  const END := 0xFFFF_FFFF       // the (void *)-1 that closes both chains
  const SPLIT_SLACK := 64        // a block is split only when more than two headers are left over

  /** `addr` is the address of the header, `size` the payload bytes it claims, `prev` the stored back link. */
  datatype Block = Block(addr: int, size: int, used: bool, prev: int) {
    function Payload(): int { addr + HEADER }

    function Limit(): int { addr + HEADER + size }
  }

  // ---------------------------------------------------------------- what the arena must look like

  /** One block in its place: not below `lo`, inside the arena, 16-aligned, its back link naming `back`. */
  predicate Placed(b: Block, lo: int, back: int, hi: int) {
    lo <= b.addr && b.addr % 16 == 0 && 0 <= b.size && b.Limit() <= hi && b.prev == back
  }

  /** The list ascends from `lo`, no block reaches into the next one, and every back link names the predecessor.
      A block may end before the next header starts: an allocation that does not split forgets what it did not need. */
  predicate Chained(bs: seq<Block>, lo: int, back: int, hi: int) {
    bs == [] || (Placed(bs[0], lo, back, hi) && Chained(bs[1..], bs[0].Limit(), bs[0].addr, hi))
  }

  /** No two neighbouring free blocks: coalescing is maximal. */
  predicate Coalesced(bs: seq<Block>) {
    |bs| < 2 || ((bs[0].used || bs[1].used) && Coalesced(bs[1..]))
  }

  predicate Good(bs: seq<Block>, lo: int, hi: int) {
    && 0 < lo && hi <= END
    && |bs| > 0 && bs[0].addr == lo
    && Chained(bs, lo, END, hi) && Coalesced(bs)
  }

  /** Bytes the list accounts for: header and payload of every block. */
  function Bytes(bs: seq<Block>): int {
    if bs == [] then 0 else HEADER + bs[0].size + Bytes(bs[1..])
  }

  function Owned(b: Block): set<(int, int)> {
    if b.used then {(b.Payload(), b.size)} else {}
  }

  /** What the callers hold: payload pointer and payload size of every block in use. */
  function Live(bs: seq<Block>): set<(int, int)> {
    if bs == [] then {} else Owned(bs[0]) + Live(bs[1..])
  }

  // ---------------------------------------------------------------- the operations on the list

  function Repoint(bs: seq<Block>, back: int): (r: seq<Block>)
    ensures |r| == |bs|
  {
    if bs == [] then [] else [bs[0].(prev := back)] + bs[1..]
  }

  /** One round of the collecting loop: the second block becomes part of the first, and the back link of the block
      after it is repointed. */
  function Absorb(bs: seq<Block>): (r: seq<Block>)
    requires |bs| > 1
    ensures |r| == |bs| - 1
  {
    [bs[0].(size := bs[0].size + bs[1].size + HEADER)] + Repoint(bs[2..], bs[0].addr)
  }

  /** sys_mem_garbage_collect on the first block: swallow the free blocks that follow it directly.  With nothing to
      swallow no back link is touched. */
  function MergeHead(bs: seq<Block>): seq<Block>
    requires |bs| > 0
    decreases |bs|
  {
    if |bs| == 1 || bs[1].used then bs else MergeHead(Absorb(bs))
  }

  function MergeFrom(bs: seq<Block>, i: nat): seq<Block>
    requires i < |bs|
  {
    bs[..i] + MergeHead(bs[i..])
  }

  predicate Fits(b: Block, need: int) {
    !b.used && b.size >= need
  }

  /** The lowest free block that is large enough, or |bs|. */
  function FirstFit(bs: seq<Block>, need: int): (i: nat)
    ensures i <= |bs|
    ensures i < |bs| ==> Fits(bs[i], need)
    ensures forall k :: 0 <= k < i ==> !Fits(bs[k], need)
  {
    if bs == [] then 0 else if Fits(bs[0], need) then 0 else 1 + FirstFit(bs[1..], need)
  }

  predicate Splits(b: Block, need: int) {
    b.size - need > SPLIT_SLACK
  }

  function Taken(b: Block, need: int): Block {
    b.(size := need, used := true)
  }

  /** The free block a split leaves behind. */
  function Rest(b: Block, need: int): Block {
    Block(b.addr + need + HEADER, b.size - need - HEADER, false, b.addr)
  }

  /** The blocks after a split, with or without the old successor's back link set to the new free block. */
  function RepairedTail(b: Block, need: int, after: seq<Block>, repaired: bool): seq<Block> {
    if repaired then Repoint(after, Rest(b, need).addr) else after
  }

  /** sys_malloc on the block it selected, the rest of the list being `after`.  `repair` says whether the back link
      of the old successor is set to the new free block; the code as written does not do that. */
  function Carve(b: Block, need: int, after: seq<Block>, repair: bool): seq<Block> {
    if Splits(b, need) then
      [Taken(b, need)] + MergeHead([Rest(b, need)] + RepairedTail(b, need, after, repair))
    else
      [Taken(b, need)] + after
  }

  function Take(bs: seq<Block>, i: nat, need: int, repair: bool): seq<Block>
    requires i < |bs|
  {
    bs[..i] + Carve(bs[i], need, bs[i + 1..], repair)
  }

  /** The index of the block at address a, or |bs|. */
  function Find(bs: seq<Block>, a: int): (i: nat)
    ensures i <= |bs|
    ensures i < |bs| ==> bs[i].addr == a
    ensures forall k :: 0 <= k < i ==> bs[k].addr != a
  {
    if bs == [] then 0 else if bs[0].addr == a then 0 else 1 + Find(bs[1..], a)
  }

  function Freed(bs: seq<Block>, i: nat): (r: seq<Block>)
    requires i < |bs|
    ensures |r| == |bs|
  {
    bs[..i] + [bs[i].(used := false)] + bs[i + 1..]
  }

  /** The back link of block i can be followed: it ends the chain or names a block of the list. */
  predicate BackKnown(bs: seq<Block>, i: nat)
    requires i < |bs|
  {
    bs[i].prev == END || Find(bs, bs[i].prev) < |bs|
  }

  /** Where sys_free starts collecting: the block named by the stored back link when that one is free, else the freed
      block itself. */
  function CollectFrom(bs: seq<Block>, i: nat): (p: nat)
    requires i < |bs| && BackKnown(bs, i)
    ensures p < |bs|
  {
    if bs[i].prev == END then i
    else var p := Find(bs, bs[i].prev); if bs[p].used then i else p
  }

  function Release(bs: seq<Block>, i: nat): seq<Block>
    requires i < |bs| && BackKnown(bs, i)
  {
    MergeFrom(Freed(bs, i), CollectFrom(bs, i))
  }

  // ---------------------------------------------------------------- cutting a list in two

  function LimitOf(bs: seq<Block>, lo: int): int {
    if bs == [] then lo else bs[|bs| - 1].Limit()
  }

  function BackOf(bs: seq<Block>, back: int): int {
    if bs == [] then back else bs[|bs| - 1].addr
  }

  lemma {:induction false} ChainedConcat(a: seq<Block>, b: seq<Block>, lo: int, back: int, hi: int)
    ensures Chained(a + b, lo, back, hi) <==>
            Chained(a, lo, back, hi)
            && Chained(b, LimitOf(a, lo), BackOf(a, back), hi)
  {
    if a == [] {
      assert a + b == b;
    } else {
      assert (a + b)[1..] == a[1..] + b;
      ChainedConcat(a[1..], b, a[0].Limit(), a[0].addr, hi);
    }
  }

  lemma {:induction false} CoalescedConcat(a: seq<Block>, b: seq<Block>)
    ensures Coalesced(a + b) <==>
              Coalesced(a) && Coalesced(b) && (a == [] || b == [] || a[|a| - 1].used || b[0].used)
  {
    if a == [] {
      assert a + b == b;
    } else {
      assert (a + b)[1..] == a[1..] + b;
      CoalescedConcat(a[1..], b);
      if |a| == 1 { assert a[1..] + b == b; }
    }
  }

  lemma {:induction false} AccountConcat(a: seq<Block>, b: seq<Block>)
    ensures Bytes(a + b) == Bytes(a) + Bytes(b)
    ensures Live(a + b) == Live(a) + Live(b)
  {
    if a == [] {
      assert a + b == b;
    } else {
      assert (a + b)[1..] == a[1..] + b;
      AccountConcat(a[1..], b);
    }
  }

  lemma AccountCons(b: Block, bs: seq<Block>)
    ensures Bytes([b] + bs) == HEADER + b.size + Bytes(bs)
    ensures Live([b] + bs) == Owned(b) + Live(bs)
  {
    assert ([b] + bs)[1..] == bs;
  }

  lemma ChainedCons(b: Block, bs: seq<Block>, lo: int, back: int, hi: int)
    ensures Chained([b] + bs, lo, back, hi) <==> Placed(b, lo, back, hi) && Chained(bs, b.Limit(), b.addr, hi)
  {
    assert ([b] + bs)[1..] == bs;
  }

  lemma CoalescedCons(b: Block, bs: seq<Block>)
    ensures Coalesced([b] + bs) <==> (bs == [] || b.used || bs[0].used) && Coalesced(bs)
  {
    assert ([b] + bs)[1..] == bs;
  }

  lemma RepointKeeps(bs: seq<Block>, lo: int, back: int, lo': int, back': int, hi: int)
    requires Chained(bs, lo, back, hi) && (bs == [] || lo' <= bs[0].addr)
    ensures Chained(Repoint(bs, back'), lo', back', hi)
    ensures Coalesced(Repoint(bs, back')) == Coalesced(bs)
    ensures Bytes(Repoint(bs, back')) == Bytes(bs) && Live(Repoint(bs, back')) == Live(bs)
  {
    if bs != [] {
      assert Repoint(bs, back')[1..] == bs[1..];
    }
  }

  // ---------------------------------------------------------------- collecting

  lemma AbsorbKeeps(s: seq<Block>, lo: int, back: int, hi: int)
    requires |s| > 1 && Chained(s, lo, back, hi) && !s[0].used && !s[1].used
    ensures var r := Absorb(s);
      && Chained(r, lo, back, hi) && (Coalesced(s[1..]) ==> Coalesced(r[1..]))
      && Bytes(r) == Bytes(s) && Live(r) == Live(s)
  {
    var c := s[2..];
    assert s[1..][1..] == c;
    RepointKeeps(c, s[1].Limit(), s[1].addr, Absorb(s)[0].Limit(), s[0].addr, hi) by {
      if c != [] { assert c[0] == s[2]; }
    }
    assert Absorb(s)[1..] == Repoint(c, s[0].addr);
  }

  /** Collecting keeps layout, back links, bytes and what is in use, and leaves nothing free behind the first block. */
  lemma {:induction false} MergeHeadKeeps(s: seq<Block>, lo: int, back: int, hi: int)
    requires |s| > 0 && Chained(s, lo, back, hi) && !s[0].used
    ensures var r := MergeHead(s);
      && |r| > 0 && r[0].addr == s[0].addr && !r[0].used
      && Chained(r, lo, back, hi)
      && (Coalesced(s[1..]) ==> Coalesced(r))
      && Bytes(r) == Bytes(s) && Live(r) == Live(s)
    decreases |s|
  {
    if |s| > 1 && !s[1].used {
      AbsorbKeeps(s, lo, back, hi);
      MergeHeadKeeps(Absorb(s), lo, back, hi);
    }
  }

  lemma CutAt(bs: seq<Block>, i: nat, lo: int, hi: int)
    requires Chained(bs, lo, END, hi) && i <= |bs|
    ensures Chained(bs[..i], lo, END, hi) && Chained(bs[i..], LimitOf(bs[..i], lo), BackOf(bs[..i], END), hi)
    ensures Coalesced(bs) ==> Coalesced(bs[..i]) && Coalesced(bs[i..])
    ensures Live(bs) == Live(bs[..i]) + Live(bs[i..]) && Bytes(bs) == Bytes(bs[..i]) + Bytes(bs[i..])
  {
    assert bs == bs[..i] + bs[i..];
    ChainedConcat(bs[..i], bs[i..], lo, END, hi);
    CoalescedConcat(bs[..i], bs[i..]);
    AccountConcat(bs[..i], bs[i..]);
  }

  /** A collecting pass from a free block i. */
  lemma MergeFromKeeps(bs: seq<Block>, i: nat, lo: int, hi: int)
    requires Chained(bs, lo, END, hi) && i < |bs| && !bs[i].used && lo == bs[0].addr
    ensures var r := MergeFrom(bs, i);
      && |r| > 0 && r[0].addr == lo && Chained(r, lo, END, hi)
      && Live(r) == Live(bs) && Bytes(r) == Bytes(bs)
      && ((i == 0 || bs[i - 1].used) && Coalesced(bs[..i]) && Coalesced(bs[i + 1..]) ==> Coalesced(r))
  {
    var a, s := bs[..i], bs[i..];
    CutAt(bs, i, lo, hi);
    MergeHeadKeeps(s, LimitOf(a, lo), BackOf(a, END), hi);
    assert s[1..] == bs[i + 1..];
    ChainedConcat(a, MergeHead(s), lo, END, hi);
    AccountConcat(a, MergeHead(s));
    CoalescedConcat(a, MergeHead(s));
  }

  // ---------------------------------------------------------------- sys_malloc

  predicate Request(need: int) {
    0 <= need && need % 16 == 0
  }

  /** The split that goes wrong in the code as written: the split block has a successor, whose back link then still
      names the split block instead of the new free one. */
  predicate InteriorSplit(bs: seq<Block>, i: nat, need: int)
    requires i < |bs|
  {
    Splits(bs[i], need) && i + 1 < |bs|
  }

  lemma CarveShape(b: Block, need: int, after: seq<Block>, repair: bool)
    requires Splits(b, need) && (after == [] || after[0].used)
    ensures Carve(b, need, after, repair) ==
            [Taken(b, need)] + ([Rest(b, need)] + RepairedTail(b, need, after, repair))
  {
  }

  lemma RepointAccount(bs: seq<Block>, back: int)
    ensures Bytes(Repoint(bs, back)) == Bytes(bs) && Live(Repoint(bs, back)) == Live(bs)
  {
    if bs != [] {
      assert Repoint(bs, back)[1..] == bs[1..];
    }
  }

  lemma SplitAccount(b: Block, need: int, tail: seq<Block>)
    requires Fits(b, need)
    ensures Live([Taken(b, need)] + ([Rest(b, need)] + tail)) == {(b.Payload(), need)} + Live(tail)
    ensures Bytes([Taken(b, need)] + ([Rest(b, need)] + tail)) == HEADER + b.size + Bytes(tail)
  {
    AccountCons(Taken(b, need), [Rest(b, need)] + tail);
    AccountCons(Rest(b, need), tail);
  }

  lemma CarveAccount(b: Block, need: int, after: seq<Block>, repair: bool)
    requires Fits(b, need) && (after == [] || after[0].used)
    ensures var r := Carve(b, need, after, repair);
      && Live(r) == {(b.Payload(), need)} + Live(after)
      && Bytes(r) == HEADER + Bytes(after) + if Splits(b, need) then b.size else need
  {
    if Splits(b, need) {
      CarveShape(b, need, after, repair);
      SplitAccount(b, need, RepairedTail(b, need, after, repair));
      RepointAccount(after, Rest(b, need).addr);
    } else {
      AccountCons(Taken(b, need), after);
    }
  }

  lemma CarveChained(b: Block, need: int, after: seq<Block>, repair: bool, lo: int, back: int, hi: int)
    requires Fits(b, need) && Request(need) && Chained([b] + after, lo, back, hi) && Coalesced([b] + after)
    ensures var r := Carve(b, need, after, repair);
      && r[0].addr == b.addr && r[0].used && Coalesced(r)
      && (Chained(r, lo, back, hi) <==> repair || !Splits(b, need) || after == [])
  {
    ChainedCons(b, after, lo, back, hi);
    CoalescedCons(b, after);
    if Splits(b, need) {
      CarveShape(b, need, after, repair);
      var rest := Rest(b, need);
      var tail := RepairedTail(b, need, after, repair);
      ChainedCons(Taken(b, need), [rest] + tail, lo, back, hi);
      ChainedCons(rest, tail, Taken(b, need).Limit(), b.addr, hi);
      CoalescedCons(Taken(b, need), [rest] + tail);
      CoalescedCons(rest, tail);
      RepointKeeps(after, b.Limit(), b.addr, rest.Limit(), rest.addr, hi);
    } else {
      ChainedCons(Taken(b, need), after, lo, back, hi);
      CoalescedCons(Taken(b, need), after);
      if after != [] {
        RepointKeeps(after, b.Limit(), b.addr, Taken(b, need).Limit(), b.addr, hi);
        assert Repoint(after, b.addr) == after;
      }
    }
  }

  /** Allocation gives the caller exactly the new payload and moves nothing it held; a split loses no byte, an unsplit
      allocation loses exactly the unused rest, at most SPLIT_SLACK. */
  lemma TakeAccount(bs: seq<Block>, i: nat, need: int, repair: bool, lo: int, hi: int)
    requires Good(bs, lo, hi) && i < |bs| && Fits(bs[i], need)
    ensures Live(Take(bs, i, need, repair)) == Live(bs) + {(bs[i].Payload(), need)}
    ensures Bytes(Take(bs, i, need, repair)) == Bytes(bs) - if Splits(bs[i], need) then 0 else bs[i].size - need
    ensures Bytes(bs) - SPLIT_SLACK <= Bytes(Take(bs, i, need, repair)) <= Bytes(bs)
  {
    hide Carve, MergeHead;
    var a, after := bs[..i], bs[i + 1..];
    CutAt(bs, i, lo, hi);
    assert bs[i..] == [bs[i]] + after;
    CoalescedCons(bs[i], after);
    AccountCons(bs[i], after);
    CarveAccount(bs[i], need, after, repair);
    AccountConcat(a, Carve(bs[i], need, after, repair));
  }

  /** The repaired code keeps the whole invariant; the code as written keeps it exactly when it does not split a
      block that has a successor, and then it does the same as the repaired code. */
  lemma TakeGoodIff(bs: seq<Block>, i: nat, need: int, repair: bool, lo: int, hi: int)
    requires Good(bs, lo, hi) && i < |bs| && Fits(bs[i], need) && Request(need)
    ensures Good(Take(bs, i, need, repair), lo, hi) <==> repair || !InteriorSplit(bs, i, need)
    ensures !InteriorSplit(bs, i, need) ==> Take(bs, i, need, false) == Take(bs, i, need, true)
  {
    var a, after := bs[..i], bs[i + 1..];
    CutAt(bs, i, lo, hi);
    assert bs[i..] == [bs[i]] + after;
    assert bs == a + bs[i..];
    var c := Carve(bs[i], need, after, repair);
    CarveChained(bs[i], need, after, repair, LimitOf(a, lo), BackOf(a, END), hi);
    ChainedConcat(a, c, lo, END, hi);
    CoalescedConcat(a, bs[i..]);
    CoalescedConcat(a, c);
  }

  // ---------------------------------------------------------------- sys_free

  lemma {:induction false} FindLast(a: seq<Block>, b: seq<Block>, lo: int, back: int, hi: int)
    requires a != [] && Chained(a + b, lo, back, hi)
    ensures Find(a + b, a[|a| - 1].addr) == |a| - 1
    ensures lo <= a[|a| - 1].addr < hi
  {
    var s := a + b;
    if |a| > 1 {
      assert s[1..] == a[1..] + b;
      FindLast(a[1..], b, a[0].Limit(), a[0].addr, hi);
    }
  }

  /** In a good list the stored back link leads to the true predecessor. */
  lemma BackLinkLeads(bs: seq<Block>, i: nat, lo: int, hi: int)
    requires Good(bs, lo, hi) && i < |bs|
    ensures i == 0 ==> bs[i].prev == END
    ensures i > 0 ==> bs[i].prev == bs[i - 1].addr && bs[i].prev != END && Find(bs, bs[i].prev) == i - 1
  {
    CutAt(bs, i, lo, hi);
    if i > 0 {
      assert bs == bs[..i] + bs[i..];
      FindLast(bs[..i], bs[i..], lo, END, hi);
    }
  }

  lemma {:induction false} LiveAbove(bs: seq<Block>, lo: int, back: int, hi: int, x: (int, int))
    requires Chained(bs, lo, back, hi) && x in Live(bs)
    ensures lo + HEADER <= x.0 && 0 <= x.1 && x.0 + x.1 <= hi
    ensures bs != [] ==> x.0 + x.1 <= LimitOf(bs, lo)
  {
    if x !in Owned(bs[0]) {
      LiveAbove(bs[1..], bs[0].Limit(), bs[0].addr, hi, x);
    } else if |bs| > 1 {
      LimitAbove(bs[1..], bs[0].Limit(), bs[0].addr, hi);
    }
  }

  lemma {:induction false} LimitAbove(bs: seq<Block>, lo: int, back: int, hi: int)
    requires Chained(bs, lo, back, hi)
    ensures LimitOf(bs, lo) >= lo
  {
    if bs != [] {
      LimitAbove(bs[1..], bs[0].Limit(), bs[0].addr, hi);
    }
  }

  lemma FreedPayloadAlone(a: seq<Block>, b: Block, after: seq<Block>, lo: int, hi: int)
    requires Chained(a, lo, END, hi) && Placed(b, LimitOf(a, lo), BackOf(a, END), hi)
        && Chained(after, b.Limit(), b.addr, hi)
    ensures (b.Payload(), b.size) !in Live(a) && (b.Payload(), b.size) !in Live(after)
  {
    var x := (b.Payload(), b.size);
    if x in Live(a) { LiveAbove(a, lo, END, hi, x); }
    if x in Live(after) { LiveAbove(after, b.Limit(), b.addr, hi, x); }
  }

  lemma FreedChained(a: seq<Block>, b: Block, after: seq<Block>, lo: int, hi: int)
    requires Chained(a, lo, END, hi) && Chained([b] + after, LimitOf(a, lo), BackOf(a, END), hi)
    ensures Chained(a + ([b.(used := false)] + after), lo, END, hi)
  {
    var f := b.(used := false);
    ChainedCons(b, after, LimitOf(a, lo), BackOf(a, END), hi);
    ChainedCons(f, after, LimitOf(a, lo), BackOf(a, END), hi);
    ChainedConcat(a, [f] + after, lo, END, hi);
  }

  lemma FreedAccount(a: seq<Block>, b: Block, after: seq<Block>, lo: int, hi: int)
    requires b.used && Chained(a, lo, END, hi) && Chained([b] + after, LimitOf(a, lo), BackOf(a, END), hi)
    ensures var r := a + ([b.(used := false)] + after); var x := (b.Payload(), b.size);
      Bytes(r) == Bytes(a) + Bytes([b] + after) && Live(r) == Live(a) + Live([b] + after) - {x}
  {
    hide Chained, Placed, Bytes, Live;
    var f := b.(used := false);
    ChainedCons(b, after, LimitOf(a, lo), BackOf(a, END), hi);
    FreedPayloadAlone(a, b, after, lo, hi);
    AccountCons(b, after);
    AccountCons(f, after);
    AccountConcat(a, [f] + after);
  }

  lemma FreedKeeps(bs: seq<Block>, i: nat, lo: int, hi: int)
    requires Good(bs, lo, hi) && i < |bs| && bs[i].used
    ensures var r := Freed(bs, i);
      && r[..i] == bs[..i] && r[i] == bs[i].(used := false) && r[i + 1..] == bs[i + 1..]
      && Chained(r, lo, END, hi) && Bytes(r) == Bytes(bs)
      && Live(r) == Live(bs) - {(bs[i].Payload(), bs[i].size)}
  {
    hide Chained, Coalesced, Bytes, Live;
    var a, b, after := bs[..i], bs[i], bs[i + 1..];
    CutAt(bs, i, lo, hi);
    assert bs[i..] == [b] + after;
    FreedChained(a, b, after, lo, hi);
    FreedAccount(a, b, after, lo, hi);
    assert Freed(bs, i) == a + ([b.(used := false)] + after);
  }

  /** The freed block and the free one before it: one collecting pass from the earlier one is enough. */
  lemma FreePair(a: seq<Block>, p: Block, f: Block, after: seq<Block>, lo: int, hi: int)
    requires !p.used && !f.used && Chained(a + ([p] + ([f] + after)), lo, END, hi)
    requires Coalesced(a + [p]) && Coalesced(after)
    ensures Coalesced(a + MergeHead([p] + ([f] + after)))
  {
    var s := [p] + ([f] + after);
    var l, back := LimitOf(a, lo), BackOf(a, END);
    ChainedConcat(a, s, lo, END, hi);
    CoalescedConcat(a, [p]);
    var once := Absorb(s);
    AbsorbKeeps(s, l, back, hi);
    assert s[2..] == after;
    assert once[1..] == Repoint(after, p.addr);
    assert Coalesced(once[1..]) by {
      if after != [] { assert Repoint(after, p.addr)[1..] == after[1..]; }
    }
    MergeHeadKeeps(once, l, back, hi);
    CoalescedConcat(a, MergeHead(once));
  }

  lemma FreePairAt(bs: seq<Block>, i: nat, lo: int, hi: int)
    requires Good(bs, lo, hi) && 0 < i < |bs| && bs[i].used && !bs[i - 1].used
    ensures Coalesced(MergeFrom(Freed(bs, i), i - 1))
  {
    var a, p, f, after := bs[..i - 1], bs[i - 1], bs[i].(used := false), bs[i + 1..];
    FreedKeeps(bs, i, lo, hi);
    assert Freed(bs, i)[i - 1..] == [p] + ([f] + after);
    assert Freed(bs, i)[..i - 1] == a;
    assert Freed(bs, i) == a + ([p] + ([f] + after));
    CutAt(bs, i, lo, hi);
    CutAt(bs, i + 1, lo, hi);
    assert bs[..i] == a + [p];
    FreePair(a, p, f, after, lo, hi);
  }

  lemma FreeSingleAt(bs: seq<Block>, i: nat, lo: int, hi: int)
    requires Good(bs, lo, hi) && i < |bs| && bs[i].used && (i == 0 || bs[i - 1].used)
    ensures Coalesced(MergeFrom(Freed(bs, i), i))
  {
    FreedKeeps(bs, i, lo, hi);
    CutAt(bs, i, lo, hi);
    CutAt(bs, i + 1, lo, hi);
    var freed := Freed(bs, i);
    assert i > 0 ==> freed[i - 1] == freed[..i][i - 1] == bs[..i][i - 1];
    MergeFromKeeps(freed, i, lo, hi);
  }

  lemma CollectFromTrue(bs: seq<Block>, i: nat, lo: int, hi: int)
    requires Good(bs, lo, hi) && i < |bs| && bs[i].used
    ensures BackKnown(bs, i)
    ensures CollectFrom(bs, i) == if i > 0 && !bs[i - 1].used then i - 1 else i
  {
    BackLinkLeads(bs, i, lo, hi);
  }

  /** Freeing keeps the whole invariant and every byte, and gives up exactly the freed payload. */
  lemma ReleaseKeepsGood(bs: seq<Block>, i: nat, lo: int, hi: int)
    requires Good(bs, lo, hi) && i < |bs| && bs[i].used
    ensures BackKnown(bs, i) && Good(Release(bs, i), lo, hi)
    ensures Live(Release(bs, i)) == Live(bs) - {(bs[i].Payload(), bs[i].size)}
    ensures Bytes(Release(bs, i)) == Bytes(bs)
  {
    CollectFromTrue(bs, i, lo, hi);
    FreedKeeps(bs, i, lo, hi);
    var p := CollectFrom(bs, i);
    assert Freed(bs, i)[p] == if p == i then bs[i].(used := false) else Freed(bs, i)[..i][p];
    assert !Freed(bs, i)[p].used;
    assert Freed(bs, i)[0].addr == lo;
    MergeFromKeeps(Freed(bs, i), p, lo, hi);
    if p == i { FreeSingleAt(bs, i, lo, hi); } else { FreePairAt(bs, i, lo, hi); }
  }

  // ---------------------------------------------------------------- whole runs

  /** A caller's step: an allocation of n bytes (any C int), or giving back a payload pointer. */
  datatype Op = Malloc(n: int) | Free(p: int)

  /** (size + 15) & ~15 on 32 bits, read as unsigned the way the comparison with the block size reads it. */
  function Rounded(n: int): (need: int)
    ensures Request(need) && need < 0x1_0000_0000
    ensures 0 <= n <= 0x7FFF_FFFF ==> n <= need < n + 16
    ensures -15 <= n < 0 ==> need == 0
    ensures -0x8000_0000 <= n < -15 ==> need >= 0x8000_0000
  {
    var u := (n + 15) % 0x1_0000_0000;
    u - u % 16
  }

  /** A step a correct caller may take: it frees only what it holds. */
  predicate Allowed(bs: seq<Block>, op: Op) {
    op.Free? ==> exists x :: x in Live(bs) && x.0 == op.p
  }

  function Step(bs: seq<Block>, op: Op, repair: bool): seq<Block> {
    match op
    case Malloc(n) =>
      var i := FirstFit(bs, Rounded(n));
      if i < |bs| then Take(bs, i, Rounded(n), repair) else bs
    case Free(p) =>
      var i := Find(bs, p - HEADER);
      if i < |bs| && BackKnown(bs, i) then Release(bs, i) else bs
  }

  function Start(lo: int, size: int): seq<Block> {
    [Block(lo, size - HEADER, false, END)]
  }

  /** Every step of the run is one a correct caller may take in the state it is taken in. */
  predicate Run(bs: seq<Block>, ops: seq<Op>, repair: bool)
    decreases |ops|
  {
    ops == [] || (Allowed(bs, ops[0]) && Run(Step(bs, ops[0], repair), ops[1..], repair))
  }

  function After(bs: seq<Block>, ops: seq<Op>, repair: bool): seq<Block>
    decreases |ops|
  {
    if ops == [] then bs else After(Step(bs, ops[0], repair), ops[1..], repair)
  }

  /** The unsafe step of the code as written. */
  predicate SplitsInside(bs: seq<Block>, op: Op) {
    op.Malloc? && var i := FirstFit(bs, Rounded(op.n)); i < |bs| && InteriorSplit(bs, i, Rounded(op.n))
  }

  predicate NeverSplitsInside(bs: seq<Block>, ops: seq<Op>)
    decreases |ops|
  {
    ops == [] || (!SplitsInside(bs, ops[0]) && NeverSplitsInside(Step(bs, ops[0], false), ops[1..]))
  }

  predicate GoodThroughout(bs: seq<Block>, ops: seq<Op>, lo: int, hi: int)
    decreases |ops|
  {
    Good(bs, lo, hi) && (ops == [] || GoodThroughout(Step(bs, ops[0], false), ops[1..], lo, hi))
  }

  lemma {:induction false} LiveFound(bs: seq<Block>, lo: int, back: int, hi: int, x: (int, int))
    requires Chained(bs, lo, back, hi) && x in Live(bs)
    ensures var i := Find(bs, x.0 - HEADER); i < |bs| && bs[i].used && bs[i].size == x.1 && bs[i].Payload() == x.0
  {
    if x !in Owned(bs[0]) {
      LiveAbove(bs[1..], bs[0].Limit(), bs[0].addr, hi, x);
      LiveFound(bs[1..], bs[0].Limit(), bs[0].addr, hi, x);
    }
  }

  lemma StepKeepsGood(bs: seq<Block>, op: Op, repair: bool, lo: int, hi: int)
    requires Good(bs, lo, hi) && Allowed(bs, op)
    ensures Good(Step(bs, op, repair), lo, hi) <==> repair || !SplitsInside(bs, op)
  {
    match op
    case Malloc(n) =>
      var i := FirstFit(bs, Rounded(n));
      if i < |bs| { TakeGoodIff(bs, i, Rounded(n), repair, lo, hi); }
    case Free(p) =>
      var x :| x in Live(bs) && x.0 == p;
      LiveFound(bs, lo, END, hi, x);
      ReleaseKeepsGood(bs, Find(bs, p - HEADER), lo, hi);
  }

  /** Safety over whole runs of the repaired allocator: every state reached by correct callers is good. */
  lemma {:induction false} RunsStayGood(bs: seq<Block>, ops: seq<Op>, lo: int, hi: int)
    requires Good(bs, lo, hi) && Run(bs, ops, true)
    ensures Good(After(bs, ops, true), lo, hi)
    decreases |ops|
  {
    if ops != [] {
      StepKeepsGood(bs, ops[0], true, lo, hi);
      RunsStayGood(Step(bs, ops[0], true), ops[1..], lo, hi);
    }
  }

  /** The allocator as written stays good through a run exactly when no allocation of the run splits a block that has
      a successor. */
  lemma {:induction false} AsWrittenRunsGoodIff(bs: seq<Block>, ops: seq<Op>, lo: int, hi: int)
    requires Good(bs, lo, hi) && Run(bs, ops, false)
    ensures GoodThroughout(bs, ops, lo, hi) <==> NeverSplitsInside(bs, ops)
    decreases |ops|
  {
    if ops != [] {
      StepKeepsGood(bs, ops[0], false, lo, hi);
      if !SplitsInside(bs, ops[0]) {
        AsWrittenRunsGoodIff(Step(bs, ops[0], false), ops[1..], lo, hi);
      }
    }
  }

  lemma StartIsGood(lo: int, size: int)
    requires 0 < lo && lo % 16 == 0 && HEADER <= size && lo + size <= END
    ensures Good(Start(lo, size), lo, lo + size) && Live(Start(lo, size)) == {} && Bytes(Start(lo, size)) == size
  {
  }

  // ---------------------------------------------------------------- what a good list means to its users

  /** Headers ascend strictly and no block reaches into a later header, so payloads in use are pairwise disjoint and
      hit no header; payloads are 16-aligned. */
  lemma {:induction false} GoodMeansDisjoint(bs: seq<Block>, lo: int, back: int, hi: int, i: nat, j: nat)
    requires Chained(bs, lo, back, hi) && i < j < |bs|
    ensures lo <= bs[i].addr < bs[i].Payload() <= bs[i].Limit() <= bs[j].addr < bs[j].Payload() <= bs[j].Limit() <= hi
    ensures bs[i].Payload() % 16 == 0 && bs[j].Payload() % 16 == 0
    ensures bs[i + 1].prev == bs[i].addr
  {
    if i > 0 {
      GoodMeansDisjoint(bs[1..], bs[0].Limit(), bs[0].addr, hi, i - 1, j - 1);
    } else {
      var b := bs[1..];
      if j == 1 {
        assert b[0] == bs[1];
      } else {
        GoodMeansDisjoint(b, bs[0].Limit(), bs[0].addr, hi, 0, j - 1);
      }
    }
  }

  lemma LiveNonempty(bs: seq<Block>)
    requires Coalesced(bs) && |bs| > 1
    ensures Live(bs) != {}
  {
    if bs[0].used {
      assert (bs[0].Payload(), bs[0].size) in Live(bs);
    } else {
      assert (bs[1..][0].Payload(), bs[1..][0].size) in Live(bs[1..]);
    }
  }

  /** Once everything has been given back, the arena is a single free block again. */
  lemma FreeingEverything(lo: int, size: int, ops: seq<Op>)
    requires 0 < lo && lo % 16 == 0 && HEADER <= size && lo + size <= END
    requires Run(Start(lo, size), ops, true) && Live(After(Start(lo, size), ops, true)) == {}
    ensures exists s :: After(Start(lo, size), ops, true) == [Block(lo, s, false, END)] && 0 <= s <= size - HEADER
  {
    StartIsGood(lo, size);
    RunsStayGood(Start(lo, size), ops, lo, lo + size);
    var bs := After(Start(lo, size), ops, true);
    if |bs| > 1 { LiveNonempty(bs); }
    assert Live(bs) == Owned(bs[0]) + Live(bs[1..]);
    assert Owned(bs[0]) == {};
    assert bs == [Block(lo, bs[0].size, false, END)];
  }

  // ---------------------------------------------------------------- ownership and bytes over runs

  /** An allocation answers with the lowest free block that is large enough, and fails only when there is none; what
      it hands out was not held before, and everything held before is still held. */
  lemma MallocStep(bs: seq<Block>, n: int, repair: bool, lo: int, hi: int)
    requires Good(bs, lo, hi)
    ensures var need := Rounded(n); var i := FirstFit(bs, need); var r := Step(bs, Malloc(n), repair);
      if exists k :: 0 <= k < |bs| && Fits(bs[k], need) then
        && i < |bs|
        && Live(r) == Live(bs) + {(bs[i].Payload(), need)} && (bs[i].Payload(), need) !in Live(bs)
        && (forall k :: 0 <= k < i ==> !Fits(bs[k], need))
        && Bytes(bs) - SPLIT_SLACK <= Bytes(r) <= Bytes(bs)
      else r == bs
  {
    var i := FirstFit(bs, Rounded(n));
    if i < |bs| {
      TakeAccount(bs, i, Rounded(n), repair, lo, hi);
      FreePayloadUnheld(bs, i, Rounded(n), lo, hi);
    }
  }

  /** A free gives back exactly the payload named, and no byte of the arena is lost. */
  lemma FreeStep(bs: seq<Block>, p: int, repair: bool, lo: int, hi: int)
    requires Good(bs, lo, hi) && Allowed(bs, Free(p))
    ensures var r := Step(bs, Free(p), repair); var i := Find(bs, p - HEADER);
      i < |bs| && (p, bs[i].size) in Live(bs) && Live(r) == Live(bs) - {(p, bs[i].size)} && Bytes(r) == Bytes(bs)
  {
    hide Chained, Coalesced, Live, Bytes, Release, Find;
    var x :| x in Live(bs) && x.0 == p;
    LiveFound(bs, lo, END, hi, x);
    ReleaseKeepsGood(bs, Find(bs, p - HEADER), lo, hi);
  }

  lemma FreePayloadUnheld(bs: seq<Block>, i: nat, need: int, lo: int, hi: int)
    requires Good(bs, lo, hi) && i < |bs| && !bs[i].used
    ensures (bs[i].Payload(), need) !in Live(bs)
  {
    var x := (bs[i].Payload(), need);
    CutAt(bs, i, lo, hi);
    if x in Live(bs[..i]) {
      LiveAbove(bs[..i], lo, END, hi, x);
    }
    if x in Live(bs[i..]) {
      LiveAbove(bs[i..][1..], bs[i].Limit(), bs[i].addr, hi, x);
    }
  }

  function Mallocs(ops: seq<Op>): nat {
    if ops == [] then 0 else (if ops[0].Malloc? then 1 else 0) + Mallocs(ops[1..])
  }

  /** No run loses more than SPLIT_SLACK bytes per allocation, and none ever gains a byte. */
  lemma {:induction false} RunBytes(bs: seq<Block>, ops: seq<Op>, lo: int, hi: int)
    requires Good(bs, lo, hi) && Run(bs, ops, true)
    ensures Bytes(bs) - SPLIT_SLACK * Mallocs(ops) <= Bytes(After(bs, ops, true)) <= Bytes(bs)
    decreases |ops|
  {
    if ops != [] {
      StepKeepsGood(bs, ops[0], true, lo, hi);
      match ops[0] {
        case Malloc(n) => MallocStep(bs, n, true, lo, hi);
        case Free(p) => FreeStep(bs, p, true, lo, hi);
      }
      RunBytes(Step(bs, ops[0], true), ops[1..], lo, hi);
    }
  }

  /** The bound is met: a pair of calls that leaves nothing held can cost the arena 64 bytes for good. */
  lemma LostForGood(lo: int, size: int)
    requires 0 < lo && lo % 16 == 0 && 96 <= size && size % 16 == 0 && lo + size <= END && size < 0x7FFF_FFFF
    ensures var ops := [Malloc(size - 96), Free(lo + HEADER)];
      Run(Start(lo, size), ops, true) && After(Start(lo, size), ops, true) == Start(lo, size - 64)
  {
    var bs := Start(lo, size);
    var ops := [Malloc(size - 96), Free(lo + HEADER)];
    assert Rounded(size - 96) == size - 96;
    var one := [Block(lo, size - 96, true, END)];
    assert Step(bs, ops[0], true) == one;
    assert (lo + HEADER, size - 96) in Live(one);
    assert Freed(one, 0) == Start(lo, size - 64);
    assert Step(one, ops[1], true) == Start(lo, size - 64);
    assert ops[1..] == [ops[1]] && ops[1..][1..] == [];
    assert After(one, ops[1..], true) == After(Start(lo, size - 64), ops[1..][1..], true);
  }

  const ARENA := 0x4_0000

  /** Call k leads from state k to state k + 1. */
  predicate Leads(states: seq<seq<Block>>, ops: seq<Op>, k: nat)
    requires |states| == |ops| + 1 && k < |ops|
  {
    Allowed(states[k], ops[k]) && Step(states[k], ops[k], false) == states[k + 1]
  }

  lemma {:induction false} StatesAreRun(states: seq<seq<Block>>, ops: seq<Op>)
    requires |states| == |ops| + 1 && forall k :: 0 <= k < |ops| ==> Leads(states, ops, k)
    ensures Run(states[0], ops, false) && After(states[0], ops, false) == states[|ops|]
    decreases |ops|
  {
    hide Step, Allowed;
    if ops != [] {
      assert Leads(states, ops, 0);
      forall k | 0 <= k < |ops[1..]| ensures Leads(states[1..], ops[1..], k) {
        assert Leads(states, ops, k + 1);
      }
      StatesAreRun(states[1..], ops[1..]);
    }
  }

  lemma FirstFitIs(bs: seq<Block>, need: int, i: nat)
    requires i < |bs| && Fits(bs[i], need) && forall k :: 0 <= k < i ==> !Fits(bs[k], need)
    ensures FirstFit(bs, need) == i
  {
    hide FirstFit;
  }

  lemma FindIs(bs: seq<Block>, i: nat)
    requires i < |bs| && forall k :: 0 <= k < i ==> bs[k].addr != bs[i].addr
    ensures Find(bs, bs[i].addr) == i
  {
    hide Find;
  }

  /** An allocation that splits, with nothing free behind the block. */
  lemma SplitStep(bs: seq<Block>, n: int, i: nat)
    requires i < |bs| && Fits(bs[i], Rounded(n)) && forall k :: 0 <= k < i ==> !Fits(bs[k], Rounded(n))
    requires Splits(bs[i], Rounded(n)) && (i + 1 < |bs| ==> bs[i + 1].used)
    ensures Step(bs, Malloc(n), false) == bs[..i] + [Taken(bs[i], Rounded(n)), Rest(bs[i], Rounded(n))] + bs[i + 1..]
  {
    hide Rounded, FirstFit, Carve;
    FirstFitIs(bs, Rounded(n), i);
    CarveShape(bs[i], Rounded(n), bs[i + 1..], false);
  }

  /** One that does not. */
  lemma WholeStep(bs: seq<Block>, n: int, i: nat)
    requires i < |bs| && Fits(bs[i], Rounded(n)) && forall k :: 0 <= k < i ==> !Fits(bs[k], Rounded(n))
    requires !Splits(bs[i], Rounded(n))
    ensures Step(bs, Malloc(n), false) == bs[..i] + [Taken(bs[i], Rounded(n))] + bs[i + 1..]
  {
    hide Rounded, FirstFit;
    FirstFitIs(bs, Rounded(n), i);
  }

  lemma {:induction false} LiveMember(bs: seq<Block>, i: nat)
    requires i < |bs| && bs[i].used
    ensures (bs[i].Payload(), bs[i].size) in Live(bs)
  {
    if i > 0 { LiveMember(bs[1..], i - 1); }
  }

  /** A free that collects from block c. */
  lemma FreeStepFrom(bs: seq<Block>, i: nat, c: nat)
    requires i < |bs| && bs[i].used && c <= i && forall k :: 0 <= k < i ==> bs[k].addr != bs[i].addr
    requires BackKnown(bs, i) && CollectFrom(bs, i) == c
    ensures Step(bs, Free(bs[i].Payload()), false) == Freed(bs, i)[..c] + MergeHead(Freed(bs, i)[c..])
    ensures Allowed(bs, Free(bs[i].Payload()))
  {
    hide Find, MergeHead;
    FindIs(bs, i);
    LiveMember(bs, i);
  }

  lemma RoundedIs(n: int)
    requires 0 <= n <= 0x7FFF_FFFF && n % 16 == 0
    ensures Rounded(n) == n
  {
  }

  // Three blocks are allocated; the second is given back and split in front of the third, whose back link goes stale.

  function FirstHeld(lo: int): Block { Block(lo, 16, true, END) }

  function SecondHeld(lo: int): Block { Block(lo + 48, 256, true, lo) }

  function ThirdHeld(lo: int): Block { Block(lo + 336, 16, true, lo + 48) }

  function Remainder(lo: int): Block { Block(lo + 384, ARENA - 416, false, lo + 336) }

  /** What the split makes of the second block. */
  function FrontPart(lo: int): Block { Block(lo + 48, 16, true, lo) }

  function BackPart(lo: int): Block { Block(lo + 96, 208, false, lo + 48) }

  function SixCalls(lo: int): seq<Op> {
    [Malloc(16), Malloc(256), Malloc(16), Free(lo + 80), Malloc(16), Free(lo + 368)]
  }

  function SixStates(lo: int): seq<seq<Block>> {
    [Start(lo, ARENA),
     [FirstHeld(lo), Block(lo + 48, ARENA - 80, false, lo)],
     [FirstHeld(lo), SecondHeld(lo), Block(lo + 336, ARENA - 368, false, lo + 48)],
     [FirstHeld(lo), SecondHeld(lo), ThirdHeld(lo), Remainder(lo)],
     [FirstHeld(lo), SecondHeld(lo).(used := false), ThirdHeld(lo), Remainder(lo)],
     [FirstHeld(lo), FrontPart(lo), BackPart(lo), ThirdHeld(lo), Remainder(lo)],
     [FirstHeld(lo), FrontPart(lo), BackPart(lo), Block(lo + 336, ARENA - 368, false, lo + 48)]]
  }

  lemma SixMallocs(lo: int, k: nat)
    requires k < 3 || k == 4
    ensures Leads(SixStates(lo), SixCalls(lo), k)
  {
    hide Step;
    RoundedIs(16);
    RoundedIs(256);
    SplitStep(SixStates(lo)[k], SixCalls(lo)[k].n, if k == 4 then 1 else k);
  }

  lemma UsedBehind(bs: seq<Block>)
    requires |bs| > 1 && bs[1].used
    ensures MergeHead(bs) == bs
  {
  }

  lemma FreeBehind(bs: seq<Block>)
    requires |bs| > 1 && !bs[1].used && (|bs| > 2 ==> bs[2].used)
    ensures MergeHead(bs) == Absorb(bs)
  {
    assert |bs| > 2 ==> Absorb(bs)[1].used;
  }

  lemma SixFreeSecond(lo: int)
    requires 0 < lo && lo + ARENA <= END
    ensures Leads(SixStates(lo), SixCalls(lo), 3)
  {
    hide Step, Allowed, MergeHead;
    var s := SixStates(lo)[3];
    FindIs(s, 0);
    FreeStepFrom(s, 1, 1);
    UsedBehind(Freed(s, 1)[1..]);
  }

  lemma SixFreeThird(lo: int)
    requires 0 < lo && lo + ARENA <= END
    ensures Leads(SixStates(lo), SixCalls(lo), 5)
  {
    hide Step, Allowed, MergeHead;
    var s := SixStates(lo)[5];
    FindIs(s, 1);
    FreeStepFrom(s, 3, 3);
    FreeBehind(Freed(s, 3)[3..]);
  }

  lemma SixLeads(lo: int, k: nat)
    requires 0 < lo && lo + ARENA <= END && k < 6
    ensures Leads(SixStates(lo), SixCalls(lo), k)
  {
    hide Leads;
    if k == 3 { SixFreeSecond(lo); } else if k == 5 { SixFreeThird(lo); } else { SixMallocs(lo, k); }
  }

  /** Six calls after which the code as written has two neighbouring free blocks: the fifth splits the freed second
      block in front of the third, whose back link goes stale; freeing the third then looks at the wrong block. */
  lemma StaleBackLink(lo: int)
    requires 0 < lo && lo + ARENA <= END
    ensures Run(Start(lo, ARENA), SixCalls(lo), false)
    ensures After(Start(lo, ARENA), SixCalls(lo), false) == SixStates(lo)[6]
    ensures !Coalesced(SixStates(lo)[6])
  {
    hide Leads;
    forall k | 0 <= k < 6 ensures Leads(SixStates(lo), SixCalls(lo), k) {
      SixLeads(lo, k);
    }
    StatesAreRun(SixStates(lo), SixCalls(lo));
    var s := SixStates(lo)[6];
    assert s == s[..2] + s[2..] && s[2..] == [s[2]] + [s[3]];
    CoalescedConcat(s[..2], s[2..]);
    CoalescedCons(s[2], [s[3]]);
  }

  // Instead of giving back the third block at once, fill the free rest, then give back the first block and the front
  // half of the second, and allocate both as one.

  function NineCalls(lo: int): seq<Op> {
    SixCalls(lo)[..5] + [Malloc(176), Free(lo + 32), Free(lo + 80), Malloc(64)]
  }

  /** The free part of the split, filled without another split. */
  function Filled(lo: int, prev: int): Block { Block(lo + 96, 176, true, prev) }

  function NineStates(lo: int): seq<seq<Block>> {
    SixStates(lo)[..6] +
    [[FirstHeld(lo), FrontPart(lo), Filled(lo, lo + 48), ThirdHeld(lo), Remainder(lo)],
     [FirstHeld(lo).(used := false), FrontPart(lo), Filled(lo, lo + 48), ThirdHeld(lo), Remainder(lo)],
     [Block(lo, 64, false, END), Filled(lo, lo), ThirdHeld(lo), Remainder(lo)],
     [Block(lo, 64, true, END), Filled(lo, lo), ThirdHeld(lo), Remainder(lo)]]
  }

  lemma NineMallocs(lo: int)
    ensures Leads(NineStates(lo), NineCalls(lo), 5) && Leads(NineStates(lo), NineCalls(lo), 8)
  {
    hide Step;
    RoundedIs(176);
    RoundedIs(64);
    WholeStep(NineStates(lo)[5], 176, 2);
    WholeStep(NineStates(lo)[8], 64, 0);
  }

  lemma NineFreeFirst(lo: int)
    requires 0 < lo && lo + ARENA <= END
    ensures Leads(NineStates(lo), NineCalls(lo), 6)
  {
    hide Step, Allowed, MergeHead;
    var s := NineStates(lo)[6];
    FreeStepFrom(s, 0, 0);
    UsedBehind(Freed(s, 0)[0..]);
  }

  lemma NineFreeFront(lo: int)
    requires 0 < lo && lo + ARENA <= END
    ensures Leads(NineStates(lo), NineCalls(lo), 7)
  {
    hide Step, Allowed, MergeHead;
    var s := NineStates(lo)[7];
    FindIs(s, 0);
    FreeStepFrom(s, 1, 0);
    FreeBehind(Freed(s, 1)[0..]);
  }

  lemma NineBegins(lo: int, k: nat)
    requires 0 < lo && lo + ARENA <= END && k < 5
    ensures Leads(NineStates(lo), NineCalls(lo), k)
  {
    hide Step, Allowed;
    if k == 3 { SixFreeSecond(lo); } else { SixMallocs(lo, k); }
    assert NineStates(lo)[k] == SixStates(lo)[k] && NineStates(lo)[k + 1] == SixStates(lo)[k + 1];
    assert NineCalls(lo)[k] == SixCalls(lo)[k];
  }

  lemma NineLeads(lo: int, k: nat)
    requires 0 < lo && lo + ARENA <= END && k < 9
    ensures Leads(NineStates(lo), NineCalls(lo), k)
  {
    hide Leads;
    if k < 5 {
      NineBegins(lo, k);
    } else if k == 6 {
      NineFreeFirst(lo);
    } else if k == 7 {
      NineFreeFront(lo);
    } else {
      NineMallocs(lo);
    }
  }

  /** Nine calls of a correct caller after which, in the code as written, the back link of a block in use names an
      address that is no block of the list any more: the header that stood there has been swallowed, and its bytes lie
      inside a payload that a caller holds. */
  lemma DanglingBackLink(lo: int)
    requires 0 < lo && lo + ARENA <= END
    ensures Run(Start(lo, ARENA), NineCalls(lo), false)
    ensures var bs := After(Start(lo, ARENA), NineCalls(lo), false); var x := (lo + HEADER, 64);
      && bs == NineStates(lo)[9] && bs[2].used && !BackKnown(bs, 2)
      && x in Live(bs) && x.0 <= bs[2].prev && bs[2].prev + HEADER <= x.0 + x.1
      && Allowed(bs, Free(bs[2].Payload()))
  {
    hide Leads, Allowed;
    forall k | 0 <= k < 9 ensures Leads(NineStates(lo), NineCalls(lo), k) {
      NineLeads(lo, k);
    }
    StatesAreRun(NineStates(lo), NineCalls(lo));
    var bs := NineStates(lo)[9];
    LiveMember(bs, 0);
    FreeAllowed(bs, 2);
  }

  lemma FreeAllowed(bs: seq<Block>, i: nat)
    requires i < |bs| && bs[i].used
    ensures Allowed(bs, Free(bs[i].Payload()))
  {
    LiveMember(bs, i);
  }
}
