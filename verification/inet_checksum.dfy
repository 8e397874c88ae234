/** src/net/chksum.h: the Internet checksum, computed over words in the machine's own byte order, against its
    definition in network byte order (section 1 of RFC 1071). */
module InetChecksum {
  import opened ByteData

  const ONES := 0xFFFF

  /** As much as a 16-bit length can name.  Over so many bytes and a pseudo header the sum stays below 2^32: past 2^31
      the int that holds it is negative, and its halves are still those of the sum. */
  const LONGEST := 65535

  /** A word from its two bytes, low byte first. */
  function Word(lo: byte, hi: byte): (w: nat)
    ensures w <= ONES
  {
    lo as int + 0x100 * hi as int
  }

  /** An IP address as it stands in the header. */
  type Address = a: Bytes | |a| == 4 witness [0, 0, 0, 0]

  function Be16(x: nat): (b: Bytes)
    requires x <= ONES
    ensures |b| == 2
  {
    [x / 0x100, x % 0x100]
  }

  function Be16At(b: Bytes, at: nat): (x: nat)
    requires at + 2 <= |b|
    ensures x <= ONES
  {
    Word(b[at + 1], b[at])
  }

  lemma BeReadBack(x: nat)
    requires x <= ONES
    ensures Word(Be16(x)[1], Be16(x)[0]) == x
  {
  }

  /** The sum of the little-endian words; an odd last byte is the low half of a word. */
  function LeSum(b: Bytes): (n: nat)
    ensures 2 * n <= (|b| + 1) * ONES
  {
    if |b| == 0 then 0
    else if |b| == 1 then b[0]
    else Word(b[0], b[1]) + LeSum(b[2..])
  }

  /** The same over big-endian words. */
  function BeSum(b: Bytes): nat {
    if |b| == 0 then 0
    else if |b| == 1 then Word(0, b[0])
    else Word(b[1], b[0]) + BeSum(b[2..])
  }

  /** The two halves of a 32-bit sum, added once more. */
  function Fold(sum: nat): (f: nat)
    requires sum < 0x1_0000_0000
    ensures f <= ONES
  {
    var s := sum % 0x1_0000 + sum / 0x1_0000;
    if s > ONES then s - ONES else s
  }

  function Swap(x: nat): (y: nat)
    requires x <= ONES
    ensures y <= ONES
  {
    x % 0x100 * 0x100 + x / 0x100
  }

  /** What ip_csum returns. */
  function Csum(b: Bytes, init: nat): (c: nat)
    requires |b| <= LONGEST && init <= 6 * ONES
    ensures c <= ONES
  {
    Swap(ONES - Fold(init + LeSum(b)))
  }

  /** ip_csum */
  method IpCsum(w: Bytes, init: nat) returns (c: nat)
    requires |w| <= LONGEST && init <= 6 * ONES
    ensures c == Csum(w, init)
  {
    hide Fold, Swap;
    var sum, len, at := init, |w| as int, 0;
    assert w[0..] == w;
    len := len - 2;
    while len >= 0
      invariant 0 <= at <= |w| && len == |w| - at - 2
      invariant sum + LeSum(w[at..]) == init + LeSum(w)
    {
      WordsStep(w, at);
      sum := sum + Word(w[at], w[at + 1]);
      at := at + 2;
      len := len - 2;
    }
    WordsEnd(w, at);
    if len == -1 {
      sum := sum + w[at];
    }
    c := Swap(ONES - Fold(sum));
  }

  lemma WordsStep(w: Bytes, at: nat)
    requires at + 2 <= |w|
    ensures LeSum(w[at..]) == Word(w[at], w[at + 1]) + LeSum(w[at + 2..])
  {
    assert w[at..][2..] == w[at + 2..];
  }

  lemma WordsEnd(w: Bytes, at: nat)
    requires |w| - 1 <= at <= |w|
    ensures LeSum(w[at..]) == if at == |w| then 0 else w[at]
  {
  }

  // ---------------------------------------------------------------- one's complement

  /** Folding keeps the value modulo 65535, and gives 0 for the empty sum alone. */
  lemma FoldIs(sum: nat)
    requires sum < 0x1_0000_0000
    ensures Fold(sum) % ONES == sum % ONES && (Fold(sum) == 0 <==> sum == 0)
  {
    var hi, lo := sum / 0x1_0000, sum % 0x1_0000;
    assert sum == hi * ONES + (hi + lo);
    Mod(hi, hi + lo);
    if hi + lo > ONES { Mod(1, hi + lo - ONES); }
  }

  lemma Mod(k: nat, x: nat)
    ensures (k * ONES + x) % ONES == x % ONES
  {
    if k > 0 {
      assert k * ONES + x == (k - 1) * ONES + x + ONES;
      Mod(k - 1, x);
      ModStep((k - 1) * ONES + x);
    }
  }

  lemma ModStep(x: nat)
    ensures (x + ONES) % ONES == x % ONES
  {
  }

  /** A number up to 65535 is known from its rest modulo 65535 and from whether it is 0. */
  lemma Determined(x: nat, y: nat)
    requires x <= ONES && y <= ONES && x % ONES == y % ONES && (x == 0 <==> y == 0)
    ensures x == y
  {
  }

  /** The checksum over some bytes is 0 exactly when their sum is a multiple of 65535 other than 0. */
  lemma ZeroIff(b: Bytes, init: nat)
    requires |b| <= LONGEST && init <= 6 * ONES
    ensures Csum(b, init) == 0 <==> init + LeSum(b) > 0 && (init + LeSum(b)) % ONES == 0
  {
    hide LeSum, Fold;
    var sum := init + LeSum(b);
    FoldIs(sum);
    FoldZero(Fold(sum), sum);
    SwapZero(ONES - Fold(sum));
  }

  lemma FoldZero(f: nat, sum: nat)
    requires f <= ONES && f % ONES == sum % ONES && (f == 0 <==> sum == 0)
    ensures f == ONES <==> sum > 0 && sum % ONES == 0
  {
  }

  lemma SwapZero(x: nat)
    requires x <= ONES
    ensures Swap(x) == 0 <==> x == 0
  {
  }

  // ---------------------------------------------------------------- storing the checksum

  /** htons(x) stored as the word at an offset. */
  function Stored(b: Bytes, at: nat, x: nat): (c: Bytes)
    requires at + 2 <= |b| && x <= ONES
    ensures |c| == |b|
  {
    b[at := Swap(x) % 0x100][at + 1 := Swap(x) / 0x100]
  }

  lemma {:induction false} SumOfUpdate(b: Bytes, at: nat, lo: byte, hi: byte)
    requires at + 2 <= |b| && at % 2 == 0
    ensures LeSum(b[at := lo][at + 1 := hi]) == LeSum(b) - Word(b[at], b[at + 1]) + Word(lo, hi)
  {
    var c := b[at := lo][at + 1 := hi];
    if at == 0 {
      assert c[2..] == b[2..];
    } else {
      assert c[2..] == b[2..][at - 2 := lo][at - 1 := hi];
      SumOfUpdate(b[2..], at - 2, lo, hi);
      assert c[0] == b[0] && c[1] == b[1];
    }
  }

  lemma SwapTwice(x: nat)
    requires x <= ONES
    ensures Swap(Swap(x)) == x
  {
    SwapParts(x % 0x100, x / 0x100);
  }

  lemma SwapParts(lo: nat, hi: nat)
    requires lo < 0x100 && hi < 0x100
    ensures (lo * 0x100 + hi) % 0x100 == hi && (lo * 0x100 + hi) / 0x100 == lo
  {
  }

  /** Storing htons(ip_csum) in a zeroed field at an even offset makes ip_csum 0, whatever the bytes, odd in number or
      even, and whatever was summed up before. */
  lemma StoredIsZero(b: Bytes, at: nat, init: nat)
    requires |b| <= LONGEST && init <= 6 * ONES && at + 2 <= |b| && at % 2 == 0 && b[at] == 0 && b[at + 1] == 0
    ensures Csum(Stored(b, at, Csum(b, init)), init) == 0
  {
    hide LeSum, Fold, Swap;
    var sum := init + LeSum(b);
    var f := Fold(sum);
    SwapTwice(ONES - f);
    Halves(ONES - f);
    var c := Stored(b, at, Csum(b, init));
    SumOfUpdate(b, at, (ONES - f) % 0x100, (ONES - f) / 0x100);
    assert init + LeSum(c) == sum + ONES - f;
    FoldIs(sum);
    Cancels(sum, f);
    ZeroIff(c, init);
  }

  lemma Halves(x: nat)
    ensures x % 0x100 + 0x100 * (x / 0x100) == x
  {
  }

  lemma Cancels(sum: nat, f: nat)
    requires f <= ONES && f % ONES == sum % ONES && (f == 0 <==> sum == 0)
    ensures sum + ONES - f > 0 && (sum + ONES - f) % ONES == 0
  {
    var q, r := sum / ONES, sum % ONES;
    if f == ONES {
      assert r == 0;
    } else {
      assert f == r;
      assert sum + ONES - f == (q + 1) * ONES;
      Mod(q + 1, 0);
    }
  }

  /** Changing one word of bytes that check out makes the check fail, unless 0 and 65535 are swapped. */
  lemma ChangedWordIsFound(b: Bytes, at: nat, lo: byte, hi: byte, init: nat)
    requires |b| <= LONGEST && init <= 6 * ONES && at + 2 <= |b| && at % 2 == 0 && Csum(b, init) == 0
    ensures var before, after := Word(b[at], b[at + 1]), Word(lo, hi);
      Csum(b[at := lo][at + 1 := hi], init) == 0 <==>
        before == after || (before == ONES && after == 0 && init + LeSum(b) > ONES) || (before == 0 && after == ONES)
  {
    hide LeSum, Word, Csum;
    var c := b[at := lo][at + 1 := hi];
    SumOfUpdate(b, at, lo, hi);
    ZeroIff(b, init);
    ZeroIff(c, init);
    Difference(init + LeSum(b), init + LeSum(c), Word(b[at], b[at + 1]), Word(lo, hi));
  }

  lemma Difference(s: nat, t: nat, x: nat, y: nat)
    requires x <= ONES && y <= ONES && s % ONES == 0 && s - x == t - y && s > 0
    ensures t % ONES == 0 <==> x == y || (x == ONES && y == 0) || (x == 0 && y == ONES)
  {
    var q := s / ONES;
    assert s == q * ONES;
    assert t == q * ONES + (y - x);
    var d := y - x;
    if d > 0 {
      Mod(q, d);
    } else if d < 0 {
      Mod(q - 1, ONES + d);
    }
  }

  // ---------------------------------------------------------------- the definition of RFC 1071

  /** One's complement addition of 16-bit numbers. */
  function OnesAdd(x: nat, y: nat): (z: nat)
    requires x <= ONES && y <= ONES
    ensures z <= ONES
  {
    if x + y > ONES then x + y - ONES else x + y
  }

  /** The one's complement sum of the words in network byte order, an odd last byte padded with zero.  It is zero for
      zeros only. */
  function OnesSum(b: Bytes): (n: nat)
    ensures n <= ONES && (n == 0 ==> forall k :: 0 <= k < |b| ==> b[k] == 0)
  {
    if |b| == 0 then 0
    else if |b| == 1 then Word(0, b[0])
    else OnesAdd(Word(b[1], b[0]), OnesSum(b[2..]))
  }

  /** How often the one's complement sum carries over the top. */
  function Carries(b: Bytes): nat {
    if |b| <= 1 then 0
    else Carries(b[2..]) + if Word(b[1], b[0]) + OnesSum(b[2..]) > ONES then 1 else 0
  }

  lemma {:induction false} OnesSumIs(b: Bytes)
    ensures BeSum(b) == OnesSum(b) + Carries(b) * ONES && (OnesSum(b) == 0 <==> BeSum(b) == 0)
  {
    if |b| > 1 {
      OnesSumIs(b[2..]);
    }
  }

  lemma {:induction false} ByteOrders(b: Bytes)
    ensures BeSum(b) % ONES == (0x100 * LeSum(b)) % ONES && (BeSum(b) == 0 <==> LeSum(b) == 0)
  {
    if |b| > 1 {
      ByteOrders(b[2..]);
      WordOrders(b[0], b[1], BeSum(b[2..]), LeSum(b[2..]));
    }
  }

  lemma WordOrders(x: byte, y: byte, be: nat, le: nat)
    requires be % ONES == (0x100 * le) % ONES
    ensures (Word(y, x) + be) % ONES == (0x100 * (Word(x, y) + le)) % ONES
  {
    SameRest(0x100 * x + y, be, 0x100 * le);
    Mod(y, 0x100 * x + y + 0x100 * le);
    assert 0x100 * (x + 0x100 * y + le) == y * ONES + (0x100 * x + y + 0x100 * le);
  }

  lemma SameRest(w: nat, x: nat, y: nat)
    requires x % ONES == y % ONES
    ensures (w + x) % ONES == (w + y) % ONES
  {
    Mod(x / ONES, w + x % ONES);
    Mod(y / ONES, w + y % ONES);
  }

  lemma SwapIs(x: nat)
    requires x <= ONES
    ensures Swap(x) % ONES == (0x100 * x) % ONES && (Swap(x) == 0 <==> x == 0)
  {
    Mod(x / 0x100, Swap(x));
    assert 0x100 * x == x / 0x100 * ONES + Swap(x);
  }

  /** What ip_csum returns is the checksum of RFC 1071: the complement of the one's complement sum in network byte
      order. */
  lemma IsTheStandardOne(b: Bytes)
    requires |b| <= LONGEST
    ensures Csum(b, 0) == ONES - OnesSum(b)
  {
    hide LeSum, OnesSum, Fold, Swap;
    FoldIs(LeSum(b));
    FoldedIsStandard(b, Fold(LeSum(b)));
  }

  lemma FoldedIsStandard(b: Bytes, f: nat)
    requires f <= ONES && f % ONES == LeSum(b) % ONES && (f == 0 <==> LeSum(b) == 0)
    ensures Swap(ONES - f) == ONES - OnesSum(b)
  {
    hide LeSum, BeSum, OnesSum, Carries, Swap;
    var s := LeSum(b);
    OnesSumIs(b);
    Mod(Carries(b), OnesSum(b));
    ByteOrders(b);
    SwapIs(f);
    TimesSame(f, s);
    Determined(Swap(f), OnesSum(b));
    SwapOfComplement(f);
  }

  lemma {:induction false} LeSumConcat(a: Bytes, b: Bytes)
    requires |a| % 2 == 0
    ensures LeSum(a + b) == LeSum(a) + LeSum(b)
  {
    if a == [] {
      assert a + b == b;
    } else {
      assert (a + b)[2..] == a[2..] + b;
      LeSumConcat(a[2..], b);
    }
  }

  /** The same with a sum over some words in front taken first. */
  lemma StandardWithFront(front: Bytes, b: Bytes)
    requires |front| % 2 == 0 && LeSum(front) <= 6 * ONES && |b| <= LONGEST
    ensures Csum(b, LeSum(front)) == ONES - OnesSum(front + b)
  {
    hide LeSum, OnesSum, Fold, Swap;
    LeSumConcat(front, b);
    FoldIs(LeSum(front + b));
    FoldedIsStandard(front + b, Fold(LeSum(front + b)));
  }

  /** htons(x) in memory is x in network byte order. */
  lemma StoredInOrder(b: Bytes, at: nat, x: nat)
    requires at + 2 <= |b| && x <= ONES
    ensures Stored(b, at, x) == b[at := x / 0x100][at + 1 := x % 0x100]
  {
    SwapParts(x % 0x100, x / 0x100);
  }

  lemma TimesSame(x: nat, y: nat)
    requires x % ONES == y % ONES
    ensures (0x100 * x) % ONES == (0x100 * y) % ONES
  {
    Mod(0x100 * (x / ONES), 0x100 * (x % ONES));
    Mod(0x100 * (y / ONES), 0x100 * (y % ONES));
    assert 0x100 * x == 0x100 * (x / ONES) * ONES + 0x100 * (x % ONES);
    assert 0x100 * y == 0x100 * (y / ONES) * ONES + 0x100 * (y % ONES);
  }

  lemma SwapOfComplement(x: nat)
    requires x <= ONES
    ensures Swap(ONES - x) == ONES - Swap(x)
  {
  }
}
