/** src/net/net_buf.c: a fixed pool of network buffers, each in the free queue, in the receive queue, or held by the
    code that works on it.  The queues are linked through the buffers' own headers; a pointer is the buffer's index. */
module NetBuffers {
  import opened ByteData

  const NUM := 100                     // NET_BUF_NUM
  const DATA := 2048                   // NETBUF_SIZE - NETBUF_HDR_SIZE
  const NULL := -1

  /** NETBUF_QUEUE_T */
  datatype Queue = Queue(first: int, tail: int, total: int)

  /** Each buffer of the pool, once. */
  ghost predicate OnceEach(m: multiset<int>) {
    forall b: int :: m[b] == if 0 <= b < NUM then 1 else 0
  }

  ghost function Indices(): (s: seq<int>)
    ensures |s| == NUM && forall i :: 0 <= i < NUM ==> s[i] == i
  {
    seq(NUM, i => i)
  }

  ghost function Everyone(): multiset<int> {
    multiset(set b | b in Indices())
  }

  lemma EveryoneOnce()
    ensures OnceEach(Everyone())
    ensures var none: seq<int> := []; OnceEach(multiset(none) + multiset(none) + Everyone())
  {
    hide Indices;
    var s := set b | b in Indices();
    forall b: int ensures Everyone()[b] == if 0 <= b < NUM then 1 else 0 {
      if 0 <= b < NUM {
        assert Indices()[b] in Indices();
        assert b in s;
      } else {
        assert b !in s;
      }
    }
    var none: seq<int> := [];
    assert multiset(none) + multiset(none) + Everyone() == Everyone();
  }

  /** What follows entry i of a list. */
  ghost function Successor(list: seq<int>, i: nat): int {
    if i + 1 < |list| then list[i + 1] else NULL
  }

  /** The headers link these buffers in this order. */
  ghost predicate Linked(next: seq<int>, list: seq<int>) {
    |next| == NUM && forall i :: 0 <= i < |list| ==> 0 <= list[i] < NUM && next[list[i]] == Successor(list, i)
  }

  ghost predicate IsQueue(q: Queue, next: seq<int>, list: seq<int>) {
    && Linked(next, list) && q.total == |list|
    && q.first == (if list == [] then NULL else list[0])
    && q.tail == (if list == [] then NULL else list[|list| - 1])
  }

  ghost predicate Distinct(list: seq<int>) {
    forall i, j :: 0 <= i < j < |list| ==> list[i] != list[j]
  }

  /** A list of buffers none of which is anywhere else has no buffer twice. */
  lemma {:induction false} DistinctPart(list: seq<int>, rest: multiset<int>)
    requires OnceEach(multiset(list) + rest)
    ensures Distinct(list) && (forall b :: b in list ==> 0 <= b < NUM && b !in rest)
  {
    forall b | b in list ensures 0 <= b < NUM && b !in rest {
      assert b in multiset(list);
      assert (multiset(list) + rest)[b] == multiset(list)[b] + rest[b];
    }
    forall i, j | 0 <= i < j < |list| ensures list[i] != list[j] {
      assert (multiset(list) + rest)[list[i]] == multiset(list)[list[i]] + rest[list[i]];
      if list[i] == list[j] {
        Twice(list, i, j);
        assert false;
      }
    }
  }

  lemma Twice(list: seq<int>, i: nat, j: nat)
    requires i < j < |list| && list[i] == list[j]
    ensures multiset(list)[list[i]] >= 2
  {
    var a, b := list[..j], list[j..];
    assert list == a + b;
    assert a[i] in a && b[0] in b;
    assert multiset(list) == multiset(a) + multiset(b);
  }

  /** net_insert_queue_tail, on the links. */
  function LinkTail(next: seq<int>, q: Queue, b: int): seq<int>
    requires |next| == NUM && 0 <= b < NUM && (q.tail == NULL || 0 <= q.tail < NUM)
  {
    (if q.tail != NULL then next[q.tail := b] else next)[b := NULL]
  }

  lemma TailInserted(q: Queue, next: seq<int>, list: seq<int>, b: int)
    requires IsQueue(q, next, list) && Distinct(list) && 0 <= b < NUM && b !in list
    ensures q.tail == NULL || 0 <= q.tail < NUM
    ensures IsQueue(Queue(if q.tail == NULL then b else q.first, b, q.total + 1), LinkTail(next, q, b), list + [b])
  {
    var n, l := LinkTail(next, q, b), list + [b];
    forall i | 0 <= i < |l|
      ensures 0 <= l[i] < NUM && n[l[i]] == Successor(l, i)
    {
      if i < |list| {
        assert list[i] in list;
      }
    }
  }

  lemma OthersLinked(q: Queue, next: seq<int>, list: seq<int>, b: int, others: seq<int>)
    requires IsQueue(q, next, list) && 0 <= b < NUM && Linked(next, others) && b !in others
    requires forall x :: x in others ==> x !in list
    ensures q.tail == NULL || 0 <= q.tail < NUM
    ensures Linked(LinkTail(next, q, b), others)
  {
    forall i | 0 <= i < |others| ensures LinkTail(next, q, b)[others[i]] == next[others[i]] {
      assert others[i] in others;
      if list != [] { assert q.tail in list; }
    }
  }

  lemma FirstRemoved(q: Queue, next: seq<int>, list: seq<int>)
    requires IsQueue(q, next, list) && list != []
    ensures 0 <= q.first < NUM
    ensures var f := next[q.first];
      IsQueue(Queue(f, if f == NULL then NULL else q.tail, q.total - 1), next, list[1..])
  {
    var tail := list[1..];
    assert next[list[0]] == Successor(list, 0);
    forall i | 0 <= i < |tail| ensures 0 <= tail[i] < NUM && next[tail[i]] == Successor(tail, i) {
      assert tail[i] == list[i + 1];
      assert Successor(list, i + 1) == Successor(tail, i);
    }
    if |list| > 1 { assert 0 <= list[1] < NUM; }
  }

  class Pool {
    const next: array<int>
    const len: array<int>
    const data: array<Bytes>
    var freeQ: Queue
    var rcvQ: Queue
    ghost var free: seq<int>
    ghost var received: seq<int>
    ghost var held: multiset<int>

    /** Every buffer is in exactly one place, and each queue's total is its length. */
    ghost predicate Valid()
      reads this, next, len, data
    {
      && Shaped()
      && IsQueue(freeQ, next[..], free) && IsQueue(rcvQ, next[..], received)
      && OnceEach(multiset(free) + multiset(received) + held)
    }

    ghost predicate Shaped()
      reads len, data
    {
      && next.Length == len.Length == data.Length == NUM && next != len
      && forall b :: 0 <= b < NUM ==> |data[b]| == DATA && 0 <= len[b] <= DATA
    }

    /** net_insert_queue_tail */
    method InsertTail(q: Queue, ghost list: seq<int>, ghost others: seq<int>, b: int) returns (r: Queue)
      requires next.Length == NUM && 0 <= b < NUM && IsQueue(q, next[..], list) && Distinct(list) && b !in list
      requires Linked(next[..], others) && b !in others && forall x :: x in others ==> x !in list
      modifies next
      ensures IsQueue(r, next[..], list + [b]) && Linked(next[..], others)
    {
      TailInserted(q, next[..], list, b);
      OthersLinked(q, next[..], list, b, others);
      ghost var n := next[..];
      var first := q.first;
      if q.tail != NULL {
        next[q.tail] := b;
      } else {
        first := b;
      }
      next[b] := NULL;
      assert next[..] == LinkTail(n, q, b);
      r := Queue(first, b, q.total + 1);
    }

    /** net_remove_queue_first */
    method RemoveFirst(q: Queue, ghost list: seq<int>) returns (b: int, r: Queue)
      requires next.Length == NUM && IsQueue(q, next[..], list)
      ensures list == [] ==> b == NULL && r == q
      ensures list != [] ==> b == list[0] && IsQueue(r, next[..], list[1..])
    {
      if q.first == NULL {
        NotNull(q, next[..], list);
        return NULL, q;
      }
      FirstRemoved(q, next[..], list);
      b := q.first;
      var first := next[b];
      r := Queue(first, if first == NULL then NULL else q.tail, q.total - 1);
    }

    /** net_init_buf */
    constructor ()
      ensures Valid() && held == multiset{} && received == [] && |free| == NUM
      ensures fresh(next) && fresh(len) && fresh(data)
    {
      next := new int[NUM](_ => NULL);
      len := new int[NUM](_ => 0);
      data := new Bytes[NUM](_ => seq(DATA, _ => 0));
      freeQ, rcvQ := Queue(NULL, NULL, 0), Queue(NULL, NULL, 0);
      free, received, held := [], [], Everyone();
      new;
      EveryoneOnce();
      hide IsQueue, Linked, Distinct;
      EmptyQueue(next[..]);
      Fill();
    }

    /** The loop of net_init_buf. */
    method Fill()
      requires Valid() && free == [] && received == [] && OnceEach(held)
      modifies this, next
      ensures Valid() && held == multiset{} && received == [] && |free| == NUM
    {
      hide IsQueue, Linked, Distinct;
      var i := 0;
      while i < NUM
        invariant 0 <= i <= NUM && Valid() && received == [] && |free| == i
        invariant forall b :: b in held <==> i <= b < NUM
      {
        HeldOnce(free, received, held, i);
        FreeBuf(i);
        i := i + 1;
      }
      forall b ensures b !in held {
      }
    }

    /** net_alloc_buf */
    method AllocBuf() returns (b: int)
      requires Valid()
      modifies this
      ensures Valid() && received == old(received)
      ensures old(free) == [] ==> b == NULL && free == [] && held == old(held)
      ensures old(free) != [] ==>
              b == old(free)[0] && free == old(free)[1..] && held == old(held) + multiset{b}
              && 0 <= b < NUM
    {
      hide IsQueue, Linked, Distinct;
      QueueIs(freeQ, next[..], free);
      b, freeQ := RemoveFirst(freeQ, free);
      if b != NULL {
        HeadMoves(free, multiset(received), held);
        held := held + multiset{b};
        free := free[1..];
      }
    }

    /** net_free_buf; the tags of the headers, which never change, are not looked at here. */
    method FreeBuf(b: int)
      requires Valid() && b in held
      modifies this, next
      ensures Valid() && received == old(received) && free == old(free) + [b] && held == old(held) - multiset{b}
    {
      hide IsQueue, Linked, Distinct;
      ghost var f, r, h, n := free, received, held, next[..];
      QueueIs(freeQ, n, f);
      QueueIs(rcvQ, n, r);
      HeldApart(f, r, h, b);
      var q := InsertTail(freeQ, f, r, b);
      OtherQueue(rcvQ, n, next[..], r);
      TailMoves(f, multiset(r), h, b);
      freeQ := q;
      free, held := f + [b], h - multiset{b};
    }

    /** net_put_rcvq */
    method PutRcvq(b: int)
      requires Valid() && b in held
      modifies this, next
      ensures Valid() && free == old(free) && received == old(received) + [b] && held == old(held) - multiset{b}
    {
      hide IsQueue, Linked, Distinct;
      QueueIs(freeQ, next[..], free);
      QueueIs(rcvQ, next[..], received);
      HeldApart(free, received, held, b);
      rcvQ := InsertTail(rcvQ, received, free, b);
      OtherQueue(freeQ, old(next[..]), next[..], free);
      TailMoves(received, multiset(free), held, b);
      held := held - multiset{b};
      received := received + [b];
    }

    /** net_get_rcvq */
    method GetRcvq() returns (b: int)
      requires Valid()
      modifies this
      ensures Valid() && free == old(free)
      ensures old(received) == [] ==> b == NULL && received == [] && held == old(held)
      ensures old(received) != [] ==>
                b == old(received)[0] && received == old(received)[1..] && held == old(held) + multiset{b}
                    && 0 <= b < NUM
    {
      hide IsQueue, Linked, Distinct;
      QueueIs(rcvQ, next[..], received);
      b, rcvQ := RemoveFirst(rcvQ, received);
      if b != NULL {
        HeadMoves(received, multiset(free), held);
        held := held + multiset{b};
        received := received[1..];
      }
    }
  }

  // ---------------------------------------------------------------- what moves keep

  lemma NotNull(q: Queue, next: seq<int>, list: seq<int>)
    requires IsQueue(q, next, list) && q.first == NULL
    ensures list == []
  {
  }

  lemma QueueIs(q: Queue, next: seq<int>, list: seq<int>)
    requires IsQueue(q, next, list)
    ensures Linked(next, list) && q.total == |list| && (list != [] ==> 0 <= list[0] < NUM)
  {
  }

  lemma OtherQueue(q: Queue, before: seq<int>, after: seq<int>, list: seq<int>)
    requires IsQueue(q, before, list) && Linked(after, list)
    ensures IsQueue(q, after, list)
  {
  }

  /** A held buffer is in neither queue, the queues have nothing in common, and no buffer is in one of them twice. */
  lemma Apart(free: seq<int>, received: seq<int>, held: multiset<int>)
    requires OnceEach(multiset(free) + multiset(received) + held)
    ensures Distinct(free) && Distinct(received)
    ensures forall b :: b in free ==> b !in received && b !in held
    ensures forall b :: b in received ==> b !in free && b !in held
    ensures forall b :: b in held ==> 0 <= b < NUM && b !in free && b !in received
  {
    assert multiset(free) + (multiset(received) + held) == multiset(free) + multiset(received) + held;
    assert multiset(received) + (multiset(free) + held) == multiset(free) + multiset(received) + held;
    DistinctPart(free, multiset(received) + held);
    DistinctPart(received, multiset(free) + held);
    InMultiset(free);
    InMultiset(received);
    forall b | b in held ensures 0 <= b < NUM {
      assert b in multiset(free) + multiset(received) + held;
    }
  }

  lemma HeldApart(free: seq<int>, received: seq<int>, held: multiset<int>, b: int)
    requires OnceEach(multiset(free) + multiset(received) + held) && b in held
    ensures Distinct(free) && Distinct(received) && 0 <= b < NUM && b !in free && b !in received
    ensures forall x :: x in free ==> x !in received
    ensures forall x :: x in received ==> x !in free
  {
    hide Distinct;
    Apart(free, received, held);
  }

  lemma HeldOnce(free: seq<int>, received: seq<int>, held: multiset<int>, b: int)
    requires OnceEach(multiset(free) + multiset(received) + held) && b in held
    ensures b !in held - multiset{b}
  {
    assert b in multiset(free) + multiset(received) + held;
    CountedOnce(free, received, held, b);
  }

  lemma EmptyQueue(next: seq<int>)
    requires |next| == NUM
    ensures IsQueue(Queue(NULL, NULL, 0), next, [])
  {
  }

  lemma InMultiset(list: seq<int>)
    ensures forall b :: b in list <==> b in multiset(list)
  {
  }

  lemma HeadMoves(list: seq<int>, others: multiset<int>, held: multiset<int>)
    requires list != []
    ensures multiset(list[1..]) + others + (held + multiset{list[0]}) == multiset(list) + others + held
    ensures others + multiset(list[1..]) + (held + multiset{list[0]}) == others + multiset(list) + held
  {
    assert list == [list[0]] + list[1..];
    assert multiset(list) == multiset{list[0]} + multiset(list[1..]);
  }

  lemma TailMoves(list: seq<int>, others: multiset<int>, held: multiset<int>, b: int)
    requires b in held
    ensures multiset(list + [b]) + others + (held - multiset{b}) == multiset(list) + others + held
    ensures others + multiset(list + [b]) + (held - multiset{b}) == others + multiset(list) + held
  {
    assert multiset(list + [b]) == multiset(list) + multiset{b};
    assert held == (held - multiset{b}) + multiset{b};
  }

  /** Each of the buffers is in one place: it is counted once over both queues and what is held. */
  lemma CountedOnce(free: seq<int>, received: seq<int>, held: multiset<int>, b: int)
    requires OnceEach(multiset(free) + multiset(received) + held) && 0 <= b < NUM
    ensures multiset(free)[b] + multiset(received)[b] + held[b] == 1
  {
    assert (multiset(free) + multiset(received) + held)[b] == multiset(free)[b] + multiset(received)[b] + held[b];
  }

  /** So the numbers add up, too. */
  lemma TotalsAddUp(free: seq<int>, received: seq<int>, held: multiset<int>)
    requires OnceEach(multiset(free) + multiset(received) + held)
    ensures |free| + |received| + |held| == NUM
  {
    var m := multiset(free) + multiset(received) + held;
    Size(m, NUM);
    assert |m| == |free| + |received| + |held|;
  }

  lemma {:induction false} Size(m: multiset<int>, n: nat)
    requires forall b: int :: m[b] == if 0 <= b < n then 1 else 0
    ensures |m| == n
  {
    if n == 0 {
      var none: multiset<int> := multiset{};
      assert forall b :: m[b] == none[b];
      assert m == none;
    } else {
      var less := m - multiset{n - 1};
      assert m == less + multiset{n - 1};
      Size(less, n - 1);
    }
  }
}
