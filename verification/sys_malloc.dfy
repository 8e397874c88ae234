/** src/sys/sys_malloc.c: the allocator as code that follows and rewrites headers in memory, proved to do what
    BlockList says.  Memory is a map from addresses to the headers written there; it also keeps what was left behind
    at the addresses of swallowed headers. */
module SysMalloc {
  import opened BlockList

  const MIN_SIZE := 256 * 1024
  const TAG := 0x726F_7453       // 'S', 't', 'o', 'r'

  datatype Header = Header(tag: int, next: int, prev: int, size: int, usedCnt: int)

  type Memory = map<int, Header>

  // ---------------------------------------------------------------- memory that holds a block list

  function FirstAddr(bs: seq<Block>): int {
    if bs == [] then END else bs[0].addr
  }

  function HeaderOf(b: Block, next: int): Header {
    Header(TAG, next, b.prev, b.size, if b.used then 1 else 0)
  }

  /** The headers of the list are in memory, linked in order; the last one points to `next`. */
  predicate Stored(mem: Memory, bs: seq<Block>, next: int) {
    bs == [] ||
    (&& bs[0].addr in mem
     && mem[bs[0].addr] == HeaderOf(bs[0], if |bs| == 1 then next else bs[1].addr)
     && Stored(mem, bs[1..], next))
  }

  /** Headers outside [from, to) are the same in both memories. */
  ghost predicate SameOutside(mem: Memory, mem': Memory, from: int, to: int) {
    forall a :: a in mem && (a < from || to <= a) ==> a in mem' && mem'[a] == mem[a]
  }

  /** The layout half of BlockList.Chained: blocks ascend from lo and stay below hi, whatever their back links say. */
  predicate Ascends(bs: seq<Block>, lo: int, hi: int) {
    bs == [] || (lo <= bs[0].addr && 0 <= bs[0].size && bs[0].Limit() <= hi && Ascends(bs[1..], bs[0].Limit(), hi))
  }

  lemma {:induction false} AscendsLimit(bs: seq<Block>, lo: int, hi: int)
    requires Ascends(bs, lo, hi)
    ensures lo <= LimitOf(bs, lo)
  {
    if bs != [] { AscendsLimit(bs[1..], bs[0].Limit(), hi); }
  }

  lemma AscendsCons(b: Block, bs: seq<Block>, lo: int, hi: int)
    ensures Ascends([b] + bs, lo, hi) <==> lo <= b.addr && 0 <= b.size && b.Limit() <= hi && Ascends(bs, b.Limit(), hi)
  {
    assert ([b] + bs)[1..] == bs;
  }

  lemma AscendsLower(bs: seq<Block>, lo: int, lo': int, hi: int)
    requires Ascends(bs, lo, hi) && lo' <= lo
    ensures Ascends(bs, lo', hi)
  {
  }

  lemma {:induction false} AscendsConcat(a: seq<Block>, b: seq<Block>, lo: int, hi: int)
    ensures Ascends(a + b, lo, hi) <==> Ascends(a, lo, hi) && Ascends(b, LimitOf(a, lo), hi)
  {
    if a == [] {
      assert a + b == b;
    } else {
      assert (a + b)[1..] == a[1..] + b;
      AscendsConcat(a[1..], b, a[0].Limit(), hi);
    }
  }

  /** What is held lies inside the list. */
  lemma {:induction false} LiveInside(bs: seq<Block>, lo: int, hi: int, x: (int, int))
    requires Ascends(bs, lo, hi) && x in Live(bs)
    ensures lo + HEADER <= x.0
  {
    if x !in Owned(bs[0]) { LiveInside(bs[1..], bs[0].Limit(), hi, x); }
  }

  lemma {:induction false} LiveIsFound(bs: seq<Block>, lo: int, hi: int, x: (int, int))
    requires Ascends(bs, lo, hi) && x in Live(bs)
    ensures var i := Find(bs, x.0 - HEADER); i < |bs| && bs[i].used && bs[i].size == x.1 && bs[i].Payload() == x.0
  {
    if x !in Owned(bs[0]) {
      LiveInside(bs[1..], bs[0].Limit(), hi, x);
      LiveIsFound(bs[1..], bs[0].Limit(), hi, x);
    }
  }

  lemma RepointAscends(bs: seq<Block>, back: int, lo: int, lo': int, hi: int)
    requires Ascends(bs, lo, hi) && lo' <= lo
    ensures Ascends(Repoint(bs, back), lo', hi)
  {
    if bs != [] { assert Repoint(bs, back)[1..] == bs[1..]; }
  }

  lemma {:induction false} StoredConcat(mem: Memory, a: seq<Block>, b: seq<Block>, next: int)
    ensures Stored(mem, a + b, next) <==> Stored(mem, a, if b == [] then next else b[0].addr) && Stored(mem, b, next)
  {
    if a == [] {
      assert a + b == b;
    } else {
      assert (a + b)[1..] == a[1..] + b;
      StoredConcat(mem, a[1..], b, next);
      if |a| == 1 { assert a[1..] + b == b; }
    }
  }

  lemma {:induction false} StoredBelow(mem: Memory, mem': Memory, bs: seq<Block>, next: int, lo: int, hi: int,
      from: int)
    requires Stored(mem, bs, next) && Ascends(bs, lo, hi) && LimitOf(bs, lo) <= from
    requires SameOutside(mem, mem', from, END)
    ensures Stored(mem', bs, next)
  {
    if bs != [] {
      AscendsLimit(bs[1..], bs[0].Limit(), hi);
      StoredBelow(mem, mem', bs[1..], next, bs[0].Limit(), hi, from);
    }
  }

  lemma {:induction false} StoredAbove(mem: Memory, mem': Memory, bs: seq<Block>, next: int, lo: int, hi: int,
      from: int, to: int)
    requires Stored(mem, bs, next) && Ascends(bs, lo, hi) && to <= lo
    requires SameOutside(mem, mem', from, to)
    ensures Stored(mem', bs, next)
  {
    if bs != [] {
      StoredAbove(mem, mem', bs[1..], next, bs[0].Limit(), hi, from, to);
    }
  }

  lemma {:induction false} StoredAt(mem: Memory, bs: seq<Block>, lo: int, hi: int, k: nat)
    requires Stored(mem, bs, END) && Ascends(bs, lo, hi) && k < |bs| && hi <= END
    ensures lo <= bs[k].addr < hi && bs[k].addr in mem
    ensures mem[bs[k].addr] == HeaderOf(bs[k], FirstAddr(bs[k + 1..]))
  {
    if k == 0 {
      if |bs| > 1 { assert bs[1..][0] == bs[1]; }
    } else {
      StoredAt(mem, bs[1..], bs[0].Limit(), hi, k - 1);
      assert bs[1..][k..] == bs[k + 1..];
    }
  }

  /** What a caller writes into a payload it holds changes no header of the list, whatever the bytes are: only headers
      that would overlap the payload may look different afterwards. */
  lemma {:induction false} PayloadWriteKeepsList(mem: Memory, mem': Memory, bs: seq<Block>, next: int, lo: int,
      hi: int, x: (int, int))
    requires Ascends(bs, lo, hi) && x in Live(bs) && Stored(mem, bs, next)
    requires forall a :: a in mem && (a + HEADER <= x.0 || x.0 + x.1 <= a) ==> a in mem' && mem'[a] == mem[a]
    ensures Stored(mem', bs, next)
  {
    if x in Owned(bs[0]) {
      StoredAbove(mem, mem', bs[1..], next, bs[0].Limit(), hi, bs[0].addr + 1, bs[0].Limit());
    } else {
      LiveInside(bs[1..], bs[0].Limit(), hi, x);
      PayloadWriteKeepsList(mem, mem', bs[1..], next, bs[0].Limit(), hi, x);
    }
  }

  /** One round of collecting, on memory. */
  function AbsorbIn(mem: Memory, at: int, blk: int): Memory
    requires at in mem && blk in mem && at != blk
  {
    var m1 := mem[at := mem[at].(size := mem[at].size + mem[blk].size + HEADER, next := mem[blk].next)];
    var m2 := m1[blk := mem[blk].(tag := 0)];
    var after := mem[blk].next;
    if after != END && after in m2 then m2[after := m2[after].(prev := at)] else m2
  }

  lemma StoredCons(mem: Memory, b: Block, bs: seq<Block>)
    ensures Stored(mem, [b] + bs, END) <==>
            b.addr in mem && mem[b.addr] == HeaderOf(b, FirstAddr(bs))
            && Stored(mem, bs, END)
  {
    assert ([b] + bs)[1..] == bs;
  }

  /** The first two blocks of a stored list, and what stands behind them. */
  lemma PairStored(mem: Memory, s: seq<Block>, lo: int, hi: int)
    requires |s| > 1 && Stored(mem, s, END) && Ascends(s, lo, hi) && hi <= END
    ensures s[0].addr in mem && mem[s[0].addr] == HeaderOf(s[0], s[1].addr)
    ensures s[1].addr in mem && mem[s[1].addr] == HeaderOf(s[1], FirstAddr(s[2..]))
    ensures Stored(mem, s[2..], END) && Ascends(s[2..], s[1].Limit(), hi) && s[0].addr < s[1].addr
    ensures lo <= s[0].addr && 0 <= s[0].size && 0 <= s[1].size && s[0].Limit() <= s[1].addr && s[1].Limit() <= hi
  {
    var c := s[2..];
    assert s == [s[0]] + s[1..] && s[1..] == [s[1]] + c;
    StoredCons(mem, s[0], s[1..]);
    StoredCons(mem, s[1], c);
    AscendsCons(s[0], s[1..], lo, hi);
    AscendsCons(s[1], c, s[0].Limit(), hi);
  }

  /** A list whose first back link has been changed, and nothing else from there on. */
  lemma RepointStored(mem: Memory, mem': Memory, bs: seq<Block>, back: int, lo: int, hi: int, from: int)
    requires bs != [] && Stored(mem, bs, END) && Ascends(bs, lo, hi) && bs[0].addr in mem'
    requires mem'[bs[0].addr] == mem[bs[0].addr].(prev := back)
    requires from <= lo && SameOutside(mem, mem', from, bs[0].addr + 1)
    ensures Stored(mem', Repoint(bs, back), END)
  {
    var b, rest := bs[0], bs[1..];
    assert bs == [b] + rest;
    StoredCons(mem, b, rest);
    AscendsCons(b, rest, lo, hi);
    StoredAbove(mem, mem', rest, END, b.Limit(), hi, from, b.addr + 1);
    StoredCons(mem', b.(prev := back), rest);
  }

  lemma AbsorbAscends(s: seq<Block>, lo: int, hi: int)
    requires |s| > 1 && Ascends(s, lo, hi)
    ensures Ascends(Absorb(s), lo, hi)
  {
    var c := s[2..];
    assert s[1..][1..] == c;
    RepointAscends(c, s[0].addr, s[1].Limit(), Absorb(s)[0].Limit(), hi);
    AscendsCons(Absorb(s)[0], Repoint(c, s[0].addr), lo, hi);
  }

  lemma AbsorbStored(mem: Memory, s: seq<Block>, lo: int, hi: int)
    requires |s| > 1 && Stored(mem, s, END) && Ascends(s, lo, hi) && hi <= END && !s[0].used && !s[1].used
    ensures s[0].addr in mem && s[1].addr in mem && s[0].addr < s[1].addr
    ensures mem[s[1].addr].next == FirstAddr(s[2..])
    ensures |s| > 2 ==> s[2].addr in mem && s[1].addr < s[2].addr < END
    ensures Stored(AbsorbIn(mem, s[0].addr, s[1].addr), Absorb(s), END) && Ascends(Absorb(s), lo, hi)
    ensures SameOutside(mem, AbsorbIn(mem, s[0].addr, s[1].addr), s[0].addr, END)
  {
    hide Stored, Ascends, Repoint;
    PairStored(mem, s, lo, hi);
    AbsorbAscends(s, lo, hi);
    var c := s[2..];
    var r := AbsorbIn(mem, s[0].addr, s[1].addr);
    StoredCons(r, Absorb(s)[0], Repoint(c, s[0].addr));
    RepointFirst(c, s[0].addr);
    if c == [] {
      NothingStored(r);
    } else {
      assert c[0] == s[2];
      FirstStored(mem, c, s[1].Limit(), hi);
      RepointStored(mem, r, c, s[0].addr, s[1].Limit(), hi, s[0].addr);
    }
  }

  lemma NothingStored(mem: Memory)
    ensures Stored(mem, [], END)
  {
  }

  lemma RepointFirst(bs: seq<Block>, back: int)
    ensures FirstAddr(Repoint(bs, back)) == FirstAddr(bs) && (bs == [] ==> Repoint(bs, back) == [])
  {
  }

  lemma FirstStored(mem: Memory, bs: seq<Block>, lo: int, hi: int)
    requires bs != [] && Stored(mem, bs, END) && Ascends(bs, lo, hi) && hi <= END
    ensures bs[0].addr in mem && lo <= bs[0].addr < END
  {
  }

  lemma WrittenTwice(mem: Memory, a: int, x: Header, y: Header)
    ensures mem[a := x][a := y] == mem[a := y]
  {
  }

  lemma CutStored(mem: Memory, bs: seq<Block>, i: nat, lo: int, hi: int)
    requires Stored(mem, bs, END) && Ascends(bs, lo, hi) && i < |bs|
    ensures Stored(mem, bs[..i], bs[i].addr) && Stored(mem, bs[i..], END) && bs[i..] == [bs[i]] + bs[i + 1..]
    ensures Ascends(bs[..i], lo, hi) && LimitOf(bs[..i], lo) <= bs[i].addr
    ensures Ascends(bs[i..], LimitOf(bs[..i], lo), hi)
  {
    assert bs == bs[..i] + bs[i..];
    AscendsConcat(bs[..i], bs[i..], lo, hi);
    StoredConcat(mem, bs[..i], bs[i..], END);
  }

  /** Rewriting the list from block i on, with everything below that block untouched. */
  lemma ReplaceSuffix(mem: Memory, mem': Memory, bs: seq<Block>, i: nat, suffix: seq<Block>, lo: int, hi: int)
    requires Stored(mem, bs, END) && Ascends(bs, lo, hi) && i < |bs|
    requires SameOutside(mem, mem', bs[i].addr, END)
    requires suffix != [] && suffix[0].addr == bs[i].addr && Stored(mem', suffix, END)
    ensures Stored(mem', bs[..i] + suffix, END)
  {
    CutStored(mem, bs, i, lo, hi);
    StoredBelow(mem, mem', bs[..i], bs[i].addr, lo, hi, bs[i].addr);
    StoredConcat(mem', bs[..i], suffix, END);
  }

  /** Writing the header of the free rest of a split, before the block before it is linked to it. */
  lemma RestStored(mem: Memory, mem': Memory, b: Block, need: int, after: seq<Block>, repaired: bool, lo: int, hi: int)
    requires Stored(mem, [b] + after, END) && Ascends([b] + after, lo, hi) && hi <= END
    requires 0 <= need && Splits(b, need)
    requires var r := Rest(b, need); var m := mem[r.addr := HeaderOf(r, FirstAddr(after))];
      mem' == if repaired && after != [] && after[0].addr in m
              then m[after[0].addr := m[after[0].addr].(prev := r.addr)] else m
    ensures var s := [Rest(b, need)] + RepairedTail(b, need, after, repaired);
      Stored(mem', s, END) && Ascends(s, b.Payload() + need, hi)
    ensures SameOutside(mem, mem', b.addr + 1, END)
  {
    hide Stored, Ascends;
    var rest, tail := Rest(b, need), RepairedTail(b, need, after, repaired);
    AscendsCons(b, after, lo, hi);
    StoredCons(mem, b, after);
    StoredCons(mem', rest, tail);
    AscendsCons(rest, tail, b.Payload() + need, hi);
    RepointAscends(after, rest.addr, b.Limit(), b.Limit(), hi);
    if after == [] {
      NothingStored(mem');
    } else {
      assert after == [after[0]] + after[1..];
      AscendsCons(after[0], after[1..], b.Limit(), hi);
      assert tail == [tail[0]] + after[1..];
      StoredCons(mem, after[0], after[1..]);
      StoredCons(mem', tail[0], after[1..]);
      StoredAbove(mem, mem', after[1..], END, after[0].Limit(), hi, b.addr + 1, after[0].Limit());
    }
  }

  lemma {:induction false} MergeHeadAscends(s: seq<Block>, lo: int, hi: int)
    requires s != [] && Ascends(s, lo, hi) && !s[0].used
    ensures Ascends(MergeHead(s), lo, hi) && MergeHead(s) != [] && MergeHead(s)[0].addr == s[0].addr
    decreases |s|
  {
    if |s| > 1 && !s[1].used {
      AscendsCons(Absorb(s)[0], Repoint(s[2..], s[0].addr), lo, hi);
      assert s[1..][1..] == s[2..];
      RepointAscends(s[2..], s[0].addr, s[1].Limit(), Absorb(s)[0].Limit(), hi);
      MergeHeadAscends(Absorb(s), lo, hi);
    }
  }

  /** The header of the allocated block completes the list, whether or not it was split. */
  lemma TakenStored(mem: Memory, mem': Memory, b: Block, need: int, after: seq<Block>, repaired: bool, lo: int, hi: int)
    requires Ascends([b] + after, lo, hi) && hi <= END && 0 <= need <= b.size && b.addr in mem
    requires Splits(b, need) ==>
               Stored(mem, MergeHead([Rest(b, need)] + RepairedTail(b, need, after, repaired)), END)
    requires !Splits(b, need) ==> Stored(mem, after, END)
    requires var next := if Splits(b, need) then Rest(b, need).addr else FirstAddr(after);
      mem' == mem[b.addr := HeaderOf(Taken(b, need), next)]
    ensures Stored(mem', Carve(b, need, after, repaired), END)
  {
    AscendsCons(b, after, lo, hi);
    if Splits(b, need) {
      var s := [Rest(b, need)] + RepairedTail(b, need, after, repaired);
      AscendsCons(Rest(b, need), RepairedTail(b, need, after, repaired), b.Payload() + need, hi);
      RepointAscends(after, Rest(b, need).addr, b.Limit(), b.Limit(), hi);
      MergeHeadAscends(s, b.Payload() + need, hi);
      StoredAbove(mem, mem', MergeHead(s), END, b.Payload() + need, hi, b.addr, b.addr + 1);
      StoredCons(mem', Taken(b, need), MergeHead(s));
    } else {
      StoredAbove(mem, mem', after, END, b.Limit(), hi, b.addr, b.addr + 1);
      StoredCons(mem', Taken(b, need), after);
    }
  }

  lemma ClaimPlace(mem: Memory, bs: seq<Block>, k: nat, lo: int, hi: int) returns (from: int)
    requires Stored(mem, bs, END) && Ascends(bs, lo, hi) && hi <= END && k < |bs|
    ensures var b, after := bs[k], bs[k + 1..];
      && b.addr in mem && mem[b.addr] == HeaderOf(b, FirstAddr(after)) && Stored(mem, [b] + after, END)
      && Ascends([b] + after, from, hi) && (after != [] ==> after[0].addr in mem && b.Limit() <= after[0].addr < END)
      && b.Limit() <= hi <= END
  {
    CutStored(mem, bs, k, lo, hi);
    from := LimitOf(bs[..k], lo);
    StoredCons(mem, bs[k], bs[k + 1..]);
    AscendsCons(bs[k], bs[k + 1..], from, hi);
  }

  lemma ClaimDone(mem: Memory, collected: Memory, mem': Memory, bs: seq<Block>, k: nat, need: int, repaired: bool,
      from: int, lo: int, hi: int)
    requires Stored(mem, bs, END) && Ascends(bs, lo, hi) && hi <= END && k < |bs|
    requires Ascends([bs[k]] + bs[k + 1..], from, hi)
    requires 0 <= need <= bs[k].size && bs[k].addr in collected && SameOutside(mem, collected, bs[k].addr + 1, END)
    requires Splits(bs[k], need) ==>
               Stored(collected, MergeHead([Rest(bs[k], need)] + RepairedTail(bs[k], need, bs[k + 1..], repaired)), END)
    requires !Splits(bs[k], need) ==> collected == mem
    requires var next := if Splits(bs[k], need) then Rest(bs[k], need).addr else FirstAddr(bs[k + 1..]);
      mem' == collected[bs[k].addr := HeaderOf(Taken(bs[k], need), next)]
    ensures Stored(mem', Take(bs, k, need, repaired), END)
  {
    CutStored(mem, bs, k, lo, hi);
    StoredCons(mem, bs[k], bs[k + 1..]);
    TakenStored(collected, mem', bs[k], need, bs[k + 1..], repaired, from, hi);
    ReplaceSuffix(mem, mem', bs, k, Carve(bs[k], need, bs[k + 1..], repaired), lo, hi);
  }

  lemma CarveAscends(b: Block, need: int, after: seq<Block>, repaired: bool, lo: int, hi: int)
    requires Ascends([b] + after, lo, hi) && 0 <= need <= b.size
    ensures Ascends(Carve(b, need, after, repaired), lo, hi)
  {
    hide MergeHead, Ascends, Repoint;
    AscendsCons(b, after, lo, hi);
    if Splits(b, need) {
      var tail := RepairedTail(b, need, after, repaired);
      var s := [Rest(b, need)] + tail;
      RepointAscends(after, Rest(b, need).addr, b.Limit(), b.Limit(), hi);
      AscendsCons(Rest(b, need), tail, b.Payload() + need, hi);
      MergeHeadAscends(s, b.Payload() + need, hi);
      AscendsCons(Taken(b, need), MergeHead(s), lo, hi);
    } else {
      AscendsLower(after, b.Limit(), Taken(b, need).Limit(), hi);
      AscendsCons(Taken(b, need), after, lo, hi);
    }
  }

  lemma TakeAscends(bs: seq<Block>, i: nat, need: int, repaired: bool, lo: int, hi: int)
    requires Ascends(bs, lo, hi) && i < |bs| && 0 <= need <= bs[i].size
    ensures Ascends(Take(bs, i, need, repaired), lo, hi)
  {
    hide Carve, Ascends;
    assert bs == bs[..i] + ([bs[i]] + bs[i + 1..]);
    AscendsConcat(bs[..i], [bs[i]] + bs[i + 1..], lo, hi);
    CarveAscends(bs[i], need, bs[i + 1..], repaired, LimitOf(bs[..i], lo), hi);
    AscendsConcat(bs[..i], Carve(bs[i], need, bs[i + 1..], repaired), lo, hi);
  }

  lemma TakeKeepsStart(bs: seq<Block>, i: nat, need: int, repair: bool)
    requires i < |bs|
    ensures Take(bs, i, need, repair) != [] && Take(bs, i, need, repair)[0].addr == bs[0].addr
  {
  }

  // ---------------------------------------------------------------- the allocator

  class Allocator {
    const repaired: bool           // whether a split also repoints the old successor; the code as written: false
    var mem: Memory
    var start: int
    ghost var chain: seq<Block>
    ghost var hi: int

    ghost predicate Holds()
      reads this
    {
      chain != [] && start == chain[0].addr && Stored(mem, chain, END)
    }

    /** The list is in memory and its blocks lie apart: all that the pointer code needs in order to find its way.  Back
        links may be stale and free blocks may be neighbours. */
    ghost predicate Valid()
      reads this
    {
      Holds() && Ascends(chain, start, hi) && 0 < start && hi <= END
    }

    constructor (repaired: bool)
      ensures this.repaired == repaired && mem == map[] && start == 0
    {
      this.repaired := repaired;
      mem := map[];
      start := 0;
      chain := [];
      hi := 0;
    }

    /** sys_init_memory */
    method InitMemory(startp: int, size: int)
      requires 0 < startp && startp % 16 == 0 && startp + size <= END
      modifies this
      ensures size < MIN_SIZE ==> mem == old(mem) && start == old(start) && chain == old(chain) && hi == old(hi)
      ensures MIN_SIZE <= size ==>
                Valid() && chain == Start(startp, size) && hi == startp + size && Good(chain, start, hi)
    {
      if size < MIN_SIZE {
        return;
      }
      start := startp;
      mem := mem[startp := Header(TAG, END, END, size - HEADER, 0)];
      chain := Start(startp, size);
      hi := startp + size;
      StartIsGood(startp, size);
    }

    /** One round of sys_mem_garbage_collect: the free block blk becomes part of the one before it. */
    method Swallow(startBlk: int, blk: int, ghost s: seq<Block>, ghost lo: int) returns (after: int)
      requires |s| > 1 && s[0].addr == startBlk && s[1].addr == blk && !s[0].used && !s[1].used && hi <= END
      requires Stored(mem, s, END) && Ascends(s, lo, hi)
      modifies this`mem
      ensures Stored(mem, Absorb(s), END) && Ascends(Absorb(s), lo, hi) && startBlk in mem
      ensures after == FirstAddr(s[2..])
      ensures SameOutside(old(mem), mem, startBlk, END)
    {
      hide Stored, Ascends, Absorb, SameOutside;
      AbsorbStored(mem, s, lo, hi);
      ghost var bigger := mem[startBlk].(size := mem[startBlk].size + mem[blk].size + HEADER);
      WrittenTwice(mem, startBlk, bigger, bigger.(next := mem[blk].next));
      mem := mem[startBlk := mem[startBlk].(size := mem[startBlk].size + mem[blk].size + HEADER)];
      mem := mem[startBlk := mem[startBlk].(next := mem[blk].next)];
      mem := mem[blk := mem[blk].(tag := 0)];
      after := mem[blk].next;
      if after != END {
        mem := mem[after := mem[after].(prev := startBlk)];
      }
      assert mem == AbsorbIn(old(mem), startBlk, blk);
    }

    /** sys_mem_garbage_collect */
    method GarbageCollect(startBlk: int, ghost s: seq<Block>, ghost lo: int)
      requires s != [] && s[0].addr == startBlk && !s[0].used && hi <= END
      requires Stored(mem, s, END) && Ascends(s, lo, hi)
      modifies this`mem
      ensures Stored(mem, MergeHead(s), END)
      ensures SameOutside(old(mem), mem, startBlk, END)
    {
      hide Stored, Ascends;
      ghost var cur := s;
      StoredAt(mem, s, lo, hi, 0);
      if mem[startBlk].usedCnt != 0 {
        return;
      }
      var blk := mem[startBlk].next;
      while blk != END
        invariant cur != [] && cur[0].addr == startBlk && !cur[0].used && startBlk in mem
        invariant Stored(mem, cur, END) && Ascends(cur, lo, hi)
        invariant MergeHead(cur) == MergeHead(s)
        invariant blk == FirstAddr(cur[1..])
        invariant SameOutside(old(mem), mem, startBlk, END)
        decreases |cur|
      {
        StoredAt(mem, cur, lo, hi, 1);
        if mem[blk].tag != TAG {
          return;
        }
        if mem[blk].usedCnt == 0 {
          blk := Swallow(startBlk, blk, cur, lo);
          RepointFirst(cur[2..], startBlk);
          assert Absorb(cur)[1..] == Repoint(cur[2..], startBlk);
          cur := Absorb(cur);
        } else {
          break;
        }
      }
      if |cur| > 1 { StoredAt(mem, cur, lo, hi, 1); }
    }

    /** The split of sys_malloc: the free rest gets a header and is collected with what follows it. */
    method SplitOff(blk: int, need: int, ghost b: Block, ghost after: seq<Block>, ghost lo: int) returns (newP: int)
      requires b.addr == blk && 0 <= need && Splits(b, need) && blk in mem && mem[blk] == HeaderOf(b, FirstAddr(after))
      requires Stored(mem, [b] + after, END) && Ascends([b] + after, lo, hi) && b.Limit() <= hi <= END
      requires after != [] ==> after[0].addr in mem && b.Limit() <= after[0].addr < END
      modifies this`mem
      ensures newP == Rest(b, need).addr && SameOutside(old(mem), mem, blk + 1, END)
      ensures blk in mem && mem[blk] == old(mem)[blk]
      ensures Stored(mem, MergeHead([Rest(b, need)] + RepairedTail(b, need, after, repaired)), END)
    {
      hide MergeHead, Stored, Ascends, Repoint;
      newP := blk + need + HEADER;
      mem := mem[newP := Header(TAG, mem[blk].next, blk, mem[blk].size - need - HEADER, 0)];
      if repaired && mem[blk].next != END {
        mem := mem[mem[blk].next := mem[mem[blk].next].(prev := newP)];
      }
      RestStored(old(mem), mem, b, need, after, repaired, lo, hi);
      GarbageCollect(newP, [Rest(b, need)] + RepairedTail(b, need, after, repaired), b.Payload() + need);
    }

    /** The body of sys_malloc once a block has been selected. */
    method Claim(blk: int, need: int, ghost k: nat)
      requires Valid() && k < |chain| && chain[k].addr == blk && Fits(chain[k], need) && Request(need)
      modifies this
      ensures chain == Take(old(chain), k, need, repaired) && start == old(start) && hi == old(hi)
      ensures Valid()
    {
      hide MergeHead, Coalesced, Chained, Stored, Ascends, Take, Carve, Repoint;
      ghost var b, after := chain[k], chain[k + 1..];
      ghost var lo := ClaimPlace(mem, chain, k, start, hi);
      ghost var collected := mem;
      if mem[blk].size - need > SPLIT_SLACK {
        var newP := SplitOff(blk, need, b, after, lo);
        collected := mem;
        mem := mem[blk := mem[blk].(next := newP)];
      }
      ghost var linked := mem[blk];
      WrittenTwice(mem, blk, linked.(usedCnt := 1), linked.(usedCnt := 1, size := need));
      WrittenTwice(collected, blk, linked, linked.(usedCnt := 1, size := need));
      mem := mem[blk := mem[blk].(usedCnt := mem[blk].usedCnt + 1)];
      mem := mem[blk := mem[blk].(size := need)];
      ClaimDone(old(mem), collected, mem, chain, k, need, repaired, lo, start, hi);
      TakeAscends(chain, k, need, repaired, start, hi);
      TakeKeepsStart(chain, k, need, repaired);
      chain := Take(chain, k, need, repaired);
    }

    /** sys_malloc: 0 stands for NULL. */
    method Malloc(n: int) returns (p: int)
      requires Valid()
      modifies this
      ensures Valid() && start == old(start) && hi == old(hi)
      ensures chain == Step(old(chain), Op.Malloc(n), repaired)
      ensures Good(old(chain), start, hi) ==>
                (Good(chain, start, hi) <==> repaired || !SplitsInside(old(chain), Op.Malloc(n)))
      ensures var i := FirstFit(old(chain), Rounded(n)); p == if i < |old(chain)| then old(chain)[i].Payload() else 0
    {
      hide Take, Splits, MergeHead, Good, SplitsInside;
      var need := Rounded(n);
      ghost var i := FirstFit(chain, need);
      if Good(chain, start, hi) { StepKeepsGood(chain, Op.Malloc(n), repaired, start, hi); }
      var blk := start;
      ghost var k := 0;
      while blk != END
        invariant 0 <= k <= |chain| && k <= i
        invariant blk == FirstAddr(chain[k..])
        invariant mem == old(mem) && chain == old(chain) && start == old(start) && hi == old(hi)
        decreases |chain| - k
      {
        StoredAt(mem, chain, start, hi, k);
        if mem[blk].tag != TAG {
          return 0;
        }
        if mem[blk].usedCnt == 0 && mem[blk].size >= need {
          Claim(blk, need, k);
          return blk + HEADER;
        }
        blk := mem[blk].next;
        k := k + 1;
      }
      assert k == |chain| by {
        if k < |chain| { StoredAt(mem, chain, start, hi, k); }
      }
      return 0;
    }

    /** sys_free, of a payload that is held, or of NULL.  The back link of its block must lead into the list: in a good
        list it does (GoodIsFollowed). */
    method Free(p: int)
      requires Valid() && (p == 0 || (Allowed(chain, Op.Free(p)) && Followed(chain, Op.Free(p))))
      modifies this
      ensures Valid() && start == old(start) && hi == old(hi)
      ensures chain == if p == 0 then old(chain) else Step(old(chain), Op.Free(p), repaired)
      ensures Good(old(chain), start, hi) ==> Good(chain, start, hi)
    {
      hide Good, Release, Stored, Ascends, Step, Find, CollectFrom, Freed, MergeHead, SameOutside, Allowed, Followed;
      if p == 0 {
        return;
      }
      var blk := p - HEADER;
      ghost var i := Find(chain, blk);
      HeldBlock(mem, chain, p, repaired, start, hi);
      if mem[blk].tag != TAG {
        return;
      }
      mem := mem[blk := mem[blk].(usedCnt := 0)];
      var prev := mem[blk].prev;
      ghost var m0, from := mem, CollectFrom(chain, i);
      ghost var lo := FreePlace(old(mem), mem, chain, i, start, hi);
      if prev != END && mem[prev].usedCnt == 0 {
        GarbageCollect(prev, Freed(chain, i)[from..], lo);
      } else {
        GarbageCollect(blk, Freed(chain, i)[from..], lo);
      }
      FreeDone(m0, mem, chain, i, lo, start, hi);
      chain := Release(chain, i);
    }

    /** A series of calls: what they leave behind is what BlockList says of the run, good or not, as long as every
        back link that a sys_free follows leads into the list. */
    method Calls(ops: seq<Op>)
      requires Valid() && FollowedRun(chain, ops, repaired)
      modifies this
      ensures Valid() && start == old(start) && hi == old(hi) && chain == After(old(chain), ops, repaired)
    {
      hide Stored, Ascends, Step, Allowed, Followed, SplitsInside, Good;
      var i := 0;
      assert ops[0..] == ops;
      while i < |ops|
        invariant i <= |ops| && Valid() && start == old(start) && hi == old(hi)
        invariant FollowedRun(chain, ops[i..], repaired)
        invariant After(chain, ops[i..], repaired) == After(old(chain), ops, repaired)
      {
        assert ops[i..][0] == ops[i] && ops[i..][1..] == ops[i + 1..];
        match ops[i] {
          case Malloc(n) =>
            var p := Malloc(n);
          case Free(p) =>
            HeldNotNull(chain, p, start, hi);
            Free(p);
        }
        i := i + 1;
      }
      assert ops[i..] == [];
    }
  }

  lemma HeldNotNull(bs: seq<Block>, p: int, lo: int, hi: int)
    requires Ascends(bs, lo, hi) && 0 < lo && Allowed(bs, Op.Free(p))
    ensures p != 0
  {
    hide Live, Ascends;
    var x :| x in Live(bs) && x.0 == p;
    LiveInside(bs, lo, hi, x);
  }

  /** The back link that a sys_free follows leads into the list. */
  predicate Followed(bs: seq<Block>, op: Op) {
    op.Free? ==> var i := Find(bs, op.p - HEADER); i < |bs| ==> BackKnown(bs, i)
  }

  /** A run of correct callers in which every sys_free can follow the back link it finds. */
  predicate FollowedRun(bs: seq<Block>, ops: seq<Op>, repaired: bool)
    decreases |ops|
  {
    ops == [] ||
    (Allowed(bs, ops[0]) && Followed(bs, ops[0]) && FollowedRun(Step(bs, ops[0], repaired), ops[1..], repaired))
  }

  lemma GoodIsFollowed(bs: seq<Block>, op: Op, lo: int, hi: int)
    requires Good(bs, lo, hi)
    ensures Followed(bs, op)
  {
    if op.Free? {
      var i := Find(bs, op.p - HEADER);
      if i < |bs| { BackLinkLeads(bs, i, lo, hi); }
    }
  }

  /** Every run of the repaired allocator is a run of the pointer code. */
  lemma {:induction false} RepairedRunsAreFollowed(bs: seq<Block>, ops: seq<Op>, lo: int, hi: int)
    requires Good(bs, lo, hi) && Run(bs, ops, true)
    ensures FollowedRun(bs, ops, true)
    decreases |ops|
  {
    hide Good, Step, Allowed, Followed;
    if ops != [] {
      GoodIsFollowed(bs, ops[0], lo, hi);
      StepKeepsGood(bs, ops[0], true, lo, hi);
      RepairedRunsAreFollowed(Step(bs, ops[0], true), ops[1..], lo, hi);
    }
  }

  lemma HeldBlock(mem: Memory, bs: seq<Block>, p: int, repaired: bool, lo: int, hi: int)
    requires Ascends(bs, lo, hi) && hi <= END && Stored(mem, bs, END)
    requires Allowed(bs, Op.Free(p)) && Followed(bs, Op.Free(p))
    ensures var i := Find(bs, p - HEADER);
      && i < |bs| && bs[i].used && BackKnown(bs, i) && bs[i].addr == p - HEADER
      && p - HEADER in mem && mem[p - HEADER].tag == TAG
      && Release(bs, i) == Step(bs, Op.Free(p), repaired)
      && (Good(bs, lo, hi) ==> Good(Release(bs, i), lo, hi))
  {
    hide Live, Stored, Ascends, Release, Find, CollectFrom, Good;
    var x :| x in Live(bs) && x.0 == p;
    var i := Find(bs, p - HEADER);
    LiveIsFound(bs, lo, hi, x);
    if Good(bs, lo, hi) { StepKeepsGood(bs, Op.Free(p), true, lo, hi); }
    StoredAt(mem, bs, lo, hi, i);
  }

  /** What sys_free finds in memory once it has cleared the use count: the block its back link names, and collecting
      starts there exactly when that block is free. */
  lemma FreePlace(mem: Memory, mem': Memory, bs: seq<Block>, i: nat, lo: int, hi: int) returns (from: int)
    requires Ascends(bs, lo, hi) && hi <= END && i < |bs| && bs[i].used && BackKnown(bs, i)
    requires Stored(mem, bs, END) && bs[i].addr in mem
    requires mem' == mem[bs[i].addr := mem[bs[i].addr].(usedCnt := 0)]
    ensures mem'[bs[i].addr].prev == bs[i].prev
    ensures bs[i].prev != END ==> bs[i].prev in mem'
    ensures var k := CollectFrom(bs, i); var s := Freed(bs, i)[k..];
      && Stored(mem', Freed(bs, i), END) && Ascends(Freed(bs, i), lo, hi)
      && s != [] && !s[0].used && Stored(mem', s, END) && Ascends(s, from, hi)
      && s[0].addr == if bs[i].prev != END && mem'[bs[i].prev].usedCnt == 0 then bs[i].prev else bs[i].addr
  {
    hide Find, Stored, Ascends;
    FreedStored(mem, mem', bs, i, lo, hi);
    var freed, k := Freed(bs, i), CollectFrom(bs, i);
    StoredAt(mem, bs, lo, hi, i);
    if bs[i].prev != END { StoredAt(mem', freed, lo, hi, Find(bs, bs[i].prev)); }
    CutStored(mem', freed, k, lo, hi);
    from := LimitOf(freed[..k], lo);
  }

  lemma FreeDone(mem: Memory, mem': Memory, bs: seq<Block>, i: nat, from: int, lo: int, hi: int)
    requires i < |bs| && BackKnown(bs, i) && Stored(mem, Freed(bs, i), END) && Ascends(Freed(bs, i), lo, hi)
    requires var s := Freed(bs, i)[CollectFrom(bs, i)..];
      && !s[0].used && Ascends(s, from, hi) && Stored(mem', MergeHead(s), END) && SameOutside(mem, mem', s[0].addr, END)
    ensures Stored(mem', Release(bs, i), END) && Ascends(Release(bs, i), lo, hi)
    ensures Release(bs, i) != [] && Release(bs, i)[0].addr == bs[0].addr
  {
    hide Stored, Ascends, MergeHead;
    var freed, k := Freed(bs, i), CollectFrom(bs, i);
    var a, s := freed[..k], freed[k..];
    MergeHeadAscends(s, from, hi);
    ReplaceSuffix(mem, mem', freed, k, MergeHead(s), lo, hi);
    assert freed == a + s;
    AscendsConcat(a, s, lo, hi);
    MergeHeadAscends(s, LimitOf(a, lo), hi);
    AscendsConcat(a, MergeHead(s), lo, hi);
  }

  lemma FreedStored(mem: Memory, mem': Memory, bs: seq<Block>, i: nat, lo: int, hi: int)
    requires Ascends(bs, lo, hi) && hi <= END && i < |bs| && bs[i].used
    requires Stored(mem, bs, END) && bs[i].addr in mem
    requires mem' == mem[bs[i].addr := mem[bs[i].addr].(usedCnt := 0)]
    ensures Stored(mem', Freed(bs, i), END) && Ascends(Freed(bs, i), lo, hi)
    ensures forall k :: 0 <= k < |bs| && k != i ==> Freed(bs, i)[k] == bs[k]
    ensures !Freed(bs, i)[i].used
  {
    hide MergeHead, Stored, Ascends;
    var f, after := bs[i].(used := false), bs[i + 1..];
    var from := LimitOf(bs[..i], lo);
    CutStored(mem, bs, i, lo, hi);
    StoredCons(mem, bs[i], after);
    AscendsCons(bs[i], after, from, hi);
    AscendsCons(f, after, from, hi);
    StoredAbove(mem, mem', after, END, bs[i].Limit(), hi, bs[i].addr, bs[i].addr + 1);
    StoredCons(mem', f, after);
    ReplaceSuffix(mem, mem', bs, i, [f] + after, lo, hi);
    AscendsConcat(bs[..i], [f] + after, lo, hi);
    assert Freed(bs, i) == bs[..i] + ([f] + after);
  }

  // ---------------------------------------------------------------- the dangling back link

  lemma {:induction false} StoredElsewhere(mem: Memory, bs: seq<Block>, next: int, a: int, h: Header)
    requires Stored(mem, bs, next) && forall k :: 0 <= k < |bs| ==> bs[k].addr != a
    ensures Stored(mem[a := h], bs, next)
  {
    if bs != [] {
      assert forall k :: 0 <= k < |bs[1..]| ==> bs[1..][k].addr != a;
      StoredElsewhere(mem, bs[1..], next, a, h);
    }
  }

  /** After the calls of BlockList.DanglingBackLink the bytes that a caller writes into a payload it holds are what
      sys_free takes for the header in front of the third block: any header at all is possible there, and the list is
      intact with each of them. */
  lemma PayloadReadAsHeader(mem: Memory, lo: int, h: Header)
    requires Stored(mem, NineStates(lo)[9], END)
    ensures var bs := NineStates(lo)[9]; var written := mem[bs[2].prev := h];
      && Stored(written, bs, END) && (lo + HEADER, 64) in Live(bs)
      && lo + HEADER <= bs[2].prev && bs[2].prev + HEADER <= lo + HEADER + 64
      && bs[2].addr in written
      && var back := written[bs[2].addr].prev; back in written && written[back] == h
  {
    var bs := NineStates(lo)[9];
    LiveMember(bs, 0);
    StoredElsewhere(mem, bs, END, bs[2].prev, h);
    ThirdStored(mem[bs[2].prev := h], bs);
  }

  lemma ThirdStored(mem: Memory, bs: seq<Block>)
    requires Stored(mem, bs, END) && |bs| > 2
    ensures bs[2].addr in mem && mem[bs[2].addr].prev == bs[2].prev
  {
    assert bs[1..][1..] == bs[2..];
    assert Stored(mem, bs[2..], END);
  }

  lemma FollowedAt(bs: seq<Block>, i: nat, j: nat)
    requires i < |bs| && forall k :: 0 <= k < i ==> bs[k].addr != bs[i].addr
    requires bs[i].prev == END || (j < |bs| && bs[j].addr == bs[i].prev)
    ensures Followed(bs, Op.Free(bs[i].Payload()))
  {
    hide Find;
    FindIs(bs, i);
  }

  lemma {:induction false} StatesFollowed(states: seq<seq<Block>>, ops: seq<Op>)
    requires |states| == |ops| + 1
    requires forall k :: 0 <= k < |ops| ==> Leads(states, ops, k) && Followed(states[k], ops[k])
    ensures FollowedRun(states[0], ops, false)
    decreases |ops|
  {
    hide Step, Allowed, Followed;
    if ops != [] {
      assert Leads(states, ops, 0);
      forall k | 0 <= k < |ops[1..]| ensures Leads(states[1..], ops[1..], k) && Followed(states[1..][k], ops[1..][k]) {
        assert Leads(states, ops, k + 1);
      }
      StatesFollowed(states[1..], ops[1..]);
    }
  }

  /** In the runs of BlockList.StaleBackLink and BlockList.DanglingBackLink every back link that is followed leads into
      the list: the pointer code as written takes the same steps. */
  lemma SixFollowed(lo: int)
    requires 0 < lo && lo + ARENA <= END
    ensures FollowedRun(Start(lo, ARENA), SixCalls(lo), false)
  {
    hide Leads, Followed;
    forall k | 0 <= k < 6
      ensures Leads(SixStates(lo), SixCalls(lo), k) && Followed(SixStates(lo)[k], SixCalls(lo)[k])
    {
      SixLeads(lo, k);
      if k == 3 {
        FollowedAt(SixStates(lo)[3], 1, 0);
      } else if k == 5 {
        FollowedAt(SixStates(lo)[5], 3, 1);
      } else {
        MallocFollowed(SixStates(lo)[k], SixCalls(lo)[k]);
      }
    }
    StatesFollowed(SixStates(lo), SixCalls(lo));
  }

  lemma NineFollowed(lo: int)
    requires 0 < lo && lo + ARENA <= END
    ensures FollowedRun(Start(lo, ARENA), NineCalls(lo), false)
  {
    hide Leads, Followed;
    forall k | 0 <= k < 9
      ensures Leads(NineStates(lo), NineCalls(lo), k) && Followed(NineStates(lo)[k], NineCalls(lo)[k])
    {
      NineLeads(lo, k);
      if k == 3 {
        FollowedAt(NineStates(lo)[3], 1, 0);
      } else if k == 6 {
        FollowedAt(NineStates(lo)[6], 0, 0);
      } else if k == 7 {
        FollowedAt(NineStates(lo)[7], 1, 0);
      } else {
        MallocFollowed(NineStates(lo)[k], NineCalls(lo)[k]);
      }
    }
    StatesFollowed(NineStates(lo), NineCalls(lo));
  }

  lemma MallocFollowed(bs: seq<Block>, op: Op)
    requires op.Malloc?
    ensures Followed(bs, op)
  {
  }

  /** The nine calls, made on the code as written, and then a write of a caller into a payload it holds: the list is
      intact, the third block may be freed, and what sys_free will take for the header in front of it is what the caller
      has written. */
  method PayloadReached(lo: int, h: Header) returns (a: Allocator)
    requires 0 < lo && lo % 16 == 0 && lo + ARENA <= END
    ensures a.Valid() && !a.repaired && a.chain == NineStates(lo)[9]
    ensures (lo + HEADER, 64) in Live(a.chain) && Allowed(a.chain, Op.Free(a.chain[2].Payload()))
    ensures a.chain[2].addr in a.mem
    ensures var back := a.mem[a.chain[2].addr].prev;
      back in a.mem && a.mem[back] == h && lo + HEADER <= back && back + HEADER <= lo + HEADER + 64
  {
    hide FollowedRun, Followed, Run, Step, Allowed, Live, Stored;
    a := new Allocator(false);
    a.InitMemory(lo, ARENA);
    NineFollowed(lo);
    DanglingBackLink(lo);
    a.Calls(NineCalls(lo));
    PayloadReadAsHeader(a.mem, lo, h);
    a.mem := a.mem[lo + 48 := h];
    ThirdStored(a.mem, a.chain);
  }
}
