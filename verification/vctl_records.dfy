/** src/sys/sys_vctl.c, seen as lists: a store is a header and a row of typed records, each of which carries its own
    size and type, and saving one rewrites the whole row. */
module VctlRecords {
  import opened ByteData

  const HEADER := 8                 // sizeof(VCTL_HDR_T)
  const MAX_ENTRIES := 128

  const STORE_MAGIC: Bytes := [70, 76, 70, 77]      // "FLFM"

  type Record = Bytes

  /** A record is as long as it says. */
  predicate RecordOk(r: Record) {
    12 <= |r| < WORD_LIMIT && Le32At(r, 4) == |r|
  }

  function TypeOf(r: Record): (t: nat)
    requires RecordOk(r)
    ensures t < WORD_LIMIT
  {
    Le32At(r, 8)
  }

  predicate AllOk(rs: seq<Record>) {
    forall i :: 0 <= i < |rs| ==> RecordOk(rs[i])
  }

  function Flat(rs: seq<Record>): Bytes {
    if rs == [] then [] else rs[0] + Flat(rs[1..])
  }

  lemma {:induction false} FlatConcat(a: seq<Record>, b: seq<Record>)
    ensures Flat(a + b) == Flat(a) + Flat(b)
  {
    if a == [] {
      assert a + b == b;
    } else {
      assert (a + b)[0] == a[0] && (a + b)[1..] == a[1..] + b;
      FlatConcat(a[1..], b);
    }
  }

  lemma FlatOne(r: Record)
    ensures Flat([r]) == r
  {
    assert [r][1..] == [];
  }

  lemma FlatSplit(rs: seq<Record>, i: nat)
    requires i < |rs|
    ensures Flat(rs) == Flat(rs[..i]) + rs[i] + Flat(rs[i + 1..])
    ensures Flat(rs[..i + 1]) == Flat(rs[..i]) + rs[i]
  {
    FlatOne(rs[i]);
    FlatConcat(rs[..i], [rs[i]]);
    assert rs[..i + 1] == rs[..i] + [rs[i]];
    FlatConcat(rs[..i + 1], rs[i + 1..]);
    assert rs == rs[..i + 1] + rs[i + 1..];
  }

  predicate HasMagic(b: Bytes)
    requires |b| >= HEADER
  {
    b[..4] == STORE_MAGIC
  }

  /** The records that the bytes of a store hold; bytes without the magic number hold none. */
  ghost predicate Stored(b: Bytes, rs: seq<Record>) {
    && |b| >= HEADER && AllOk(rs)
    && if HasMagic(b) then
         Le32At(b, 4) == |rs| && HEADER + |Flat(rs)| <= |b| && b[HEADER..HEADER + |Flat(rs)|] == Flat(rs)
       else rs == []
  }

  lemma Middle(a: Bytes, m: Bytes, c: Bytes)
    ensures (a + m + c)[|a|..|a| + |m|] == m
  {
  }

  /** Where record i lies. */
  lemma RecordInPlace(b: Bytes, rs: seq<Record>, i: nat)
    requires Stored(b, rs) && i < |rs|
    ensures var at := HEADER + |Flat(rs[..i])|;
      && 12 <= |rs[i]| && at + |rs[i]| == HEADER + |Flat(rs[..i + 1])| <= |b| && b[at..at + |rs[i]|] == rs[i]
      && Le32At(b, at + 4) == |rs[i]| && Le32At(b, at + 8) == TypeOf(rs[i])
  {
    hide Flat;
    FlatSplit(rs, i);
    var before, at := |Flat(rs[..i])|, HEADER + |Flat(rs[..i])|;
    Middle(Flat(rs[..i]), rs[i], Flat(rs[i + 1..]));
    SliceOfSlice(b, HEADER, |Flat(rs)|, before, |rs[i]|);
    Le32Inside(b, at, rs[i], 4);
    Le32Inside(b, at, rs[i], 8);
  }

  /** Bytes hold at most one row of records. */
  lemma StoredIsUnique(b: Bytes, rs: seq<Record>, qs: seq<Record>)
    requires Stored(b, rs) && Stored(b, qs)
    ensures rs == qs
  {
    SamePrefix(b, rs, qs, |rs|);
    assert rs == rs[..|rs|] && qs == qs[..|qs|];
  }

  lemma {:induction false} SamePrefix(b: Bytes, rs: seq<Record>, qs: seq<Record>, n: nat)
    requires Stored(b, rs) && Stored(b, qs) && n <= |rs| == |qs|
    ensures rs[..n] == qs[..n]
  {
    hide Flat, RecordOk, TypeOf;
    if n > 0 {
      SamePrefix(b, rs, qs, n - 1);
      RecordInPlace(b, rs, n - 1);
      RecordInPlace(b, qs, n - 1);
      assert rs[n - 1] == qs[n - 1];
    }
  }

  // ---------------------------------------------------------------- looking up

  /** The first record of a type. */
  function FirstOf(rs: seq<Record>, t: nat): Option<Record>
    requires AllOk(rs)
  {
    if rs == [] then None else if TypeOf(rs[0]) == t then Some(rs[0]) else FirstOf(rs[1..], t)
  }

  /** What sys_get_vctl_entry finds with room for `size` bytes: nothing at all in a store of more than 128 records. */
  function Lookup(rs: seq<Record>, t: nat, size: int): Option<Record>
    requires AllOk(rs)
  {
    if |rs| > MAX_ENTRIES then None
    else
      var r := FirstOf(rs, t);
      if r.Some? && |r.value| <= size then r else None
  }

  // ---------------------------------------------------------------- saving

  /** The records of all other types, in their order. */
  function Others(rs: seq<Record>, t: nat): (qs: seq<Record>)
    requires AllOk(rs)
    ensures AllOk(qs)
  {
    if rs == [] then [] else (if TypeOf(rs[0]) == t then [] else [rs[0]]) + Others(rs[1..], t)
  }

  function OfType(rs: seq<Record>, t: nat): seq<Record>
    requires AllOk(rs)
  {
    if rs == [] then [] else (if TypeOf(rs[0]) == t then [rs[0]] else []) + OfType(rs[1..], t)
  }

  /** Where the first record of a type stands, or the end. */
  function Place(rs: seq<Record>, t: nat): (k: nat)
    requires AllOk(rs)
    ensures k <= |rs|
  {
    if rs == [] || TypeOf(rs[0]) == t then 0 else 1 + Place(rs[1..], t)
  }

  /** What saving is for: the new record in the place of the first of its type, or at the end; no other of its type; all
      the rest untouched. */
  function Replace(rs: seq<Record>, t: nat, saved: Record): (qs: seq<Record>)
    requires AllOk(rs) && RecordOk(saved)
    ensures AllOk(qs)
  {
    rs[..Place(rs, t)] + [saved] + Others(rs[Place(rs, t)..], t)
  }

  /** The loop of sys_save_vctl_entry: the records copied so far, and whether the new one is among them. */
  datatype Copy = Copy(out: seq<Record>, added: bool)

  /** The room check in front of each copy. */
  predicate Fits(out: seq<Record>, r: Record, limit: nat) {
    HEADER + |Flat(out)| + |r| < limit
  }

  function AddNew(c: Copy, saved: Record, limit: nat): Copy {
    if !c.added && Fits(c.out, saved, limit) then Copy(c.out + [saved], true) else c
  }

  function CopyStep(c: Copy, r: Record, t: nat, saved: Record, limit: nat): Copy
    requires RecordOk(r)
  {
    if TypeOf(r) == t then AddNew(c, saved, limit)
    else if Fits(c.out, r, limit) then c.(out := c.out + [r])
    else c
  }

  function CopyAll(c: Copy, rs: seq<Record>, t: nat, saved: Record, limit: nat): Copy
    requires AllOk(rs)
    decreases |rs|
  {
    if rs == [] then c else CopyAll(CopyStep(c, rs[0], t, saved, limit), rs[1..], t, saved, limit)
  }

  /** The row that sys_save_vctl_entry writes. */
  function SaveRow(rs: seq<Record>, t: nat, saved: Record, limit: nat): (qs: seq<Record>)
    requires AllOk(rs) && RecordOk(saved)
    ensures AllOk(qs)
  {
    CopyAllOk(Copy([], false), rs, t, saved, limit);
    AddNew(CopyAll(Copy([], false), rs, t, saved, limit), saved, limit).out
  }

  /** What is still to come behind the records copied so far. */
  function Rest(rs: seq<Record>, t: nat, saved: Record, added: bool): seq<Record>
    requires AllOk(rs) && RecordOk(saved)
  {
    if added then Others(rs, t) else Replace(rs, t, saved)
  }

  lemma RestStep(rs: seq<Record>, t: nat, saved: Record, added: bool)
    requires AllOk(rs) && RecordOk(saved) && rs != []
    ensures var rest := Rest(rs, t, saved, added);
      if TypeOf(rs[0]) != t then rest == [rs[0]] + Rest(rs[1..], t, saved, added)
      else if added then rest == Rest(rs[1..], t, saved, true)
      else rest == [saved] + Rest(rs[1..], t, saved, true)
  {
    hide RecordOk, TypeOf;
    if TypeOf(rs[0]) != t && !added {
      var k := Place(rs[1..], t);
      assert Place(rs, t) == k + 1;
      assert rs[..k + 1] == [rs[0]] + rs[1..][..k] && rs[k + 1..] == rs[1..][k..];
      assert Replace(rs, t, saved) == [rs[0]] + Replace(rs[1..], t, saved);
    } else if !added {
      assert rs[..0] == [] && rs[0..] == rs;
      assert Replace(rs, t, saved) == [saved] + Others(rs, t);
    }
  }

  lemma {:induction false} CopyAllFits(c: Copy, rs: seq<Record>, t: nat, saved: Record, limit: nat)
    requires AllOk(rs) && RecordOk(saved) && HEADER + |Flat(c.out + Rest(rs, t, saved, c.added))| < limit
    ensures AddNew(CopyAll(c, rs, t, saved, limit), saved, limit) == Copy(c.out + Rest(rs, t, saved, c.added), true)
    decreases |rs|
  {
    hide Replace, RecordOk, TypeOf, Flat, Others;
    var rest := Rest(rs, t, saved, c.added);
    FlatConcat(c.out, rest);
    if rs == [] {
      RestOfNothing(t, saved, c.added);
      if !c.added { FlatOne(saved); }
    } else {
      RestStep(rs, t, saved, c.added);
      var d := CopyStep(c, rs[0], t, saved, limit);
      var tail := Rest(rs[1..], t, saved, c.added || TypeOf(rs[0]) == t);
      if TypeOf(rs[0]) != t || !c.added {
        var r := if TypeOf(rs[0]) != t then rs[0] else saved;
        FlatConcat([r], tail);
        FlatOne(r);
        assert d.out == c.out + [r];
        assert c.out + ([r] + tail) == c.out + [r] + tail;
      }
      CopyAllFits(d, rs[1..], t, saved, limit);
    }
  }

  lemma RestOfNothing(t: nat, saved: Record, added: bool)
    requires RecordOk(saved)
    ensures Rest([], t, saved, added) == if added then [] else [saved]
  {
  }

  lemma {:induction false} CopyStaysBelow(c: Copy, rs: seq<Record>, t: nat, saved: Record, limit: nat)
    requires AllOk(rs) && HEADER + |Flat(c.out)| < limit
    ensures HEADER + |Flat(AddNew(CopyAll(c, rs, t, saved, limit), saved, limit).out)| < limit
    decreases |rs|
  {
    if rs == [] {
      FlatConcat(c.out, [saved]);
      FlatOne(saved);
    } else {
      var r := if TypeOf(rs[0]) != t then rs[0] else saved;
      FlatConcat(c.out, [r]);
      FlatOne(r);
      CopyStaysBelow(CopyStep(c, rs[0], t, saved, limit), rs[1..], t, saved, limit);
    }
  }

  /** Saving writes what it should exactly when that leaves at least one byte of the store unused; otherwise records are
      missing from the row. */
  lemma SaveIsReplaceIff(rs: seq<Record>, t: nat, saved: Record, limit: nat)
    requires AllOk(rs) && RecordOk(saved) && HEADER < limit
    ensures SaveRow(rs, t, saved, limit) == Replace(rs, t, saved) <==> HEADER + |Flat(Replace(rs, t, saved))| < limit
    ensures HEADER + |Flat(SaveRow(rs, t, saved, limit))| < limit
  {
    hide Replace;
    CopyStaysBelow(Copy([], false), rs, t, saved, limit);
    if HEADER + |Flat(Replace(rs, t, saved))| < limit {
      assert [] + Replace(rs, t, saved) == Replace(rs, t, saved);
      CopyAllFits(Copy([], false), rs, t, saved, limit);
    }
  }

  lemma {:induction false} CopyAllOk(c: Copy, rs: seq<Record>, t: nat, saved: Record, limit: nat)
    requires AllOk(c.out) && AllOk(rs) && RecordOk(saved)
    ensures AllOk(AddNew(CopyAll(c, rs, t, saved, limit), saved, limit).out)
    ensures |AddNew(CopyAll(c, rs, t, saved, limit), saved, limit).out| <= |c.out| + |rs| + 1
    decreases |rs|
  {
    hide RecordOk;
    if rs != [] {
      CopyAllOk(CopyStep(c, rs[0], t, saved, limit), rs[1..], t, saved, limit);
    }
  }

  // ---------------------------------------------------------------- what a save leaves

  lemma {:induction false} BeforePlace(rs: seq<Record>, t: nat)
    requires AllOk(rs)
    ensures var k := Place(rs, t);
      && Others(rs[..k], t) == rs[..k] && OfType(rs[..k], t) == []
      && FirstOf(rs, t) == (if k < |rs| then Some(rs[k]) else None)
  {
    if rs != [] && TypeOf(rs[0]) != t {
      BeforePlace(rs[1..], t);
      var k := Place(rs[1..], t);
      assert rs[..k + 1][1..] == rs[1..][..k];
      assert rs[..k + 1] == [rs[0]] + rs[1..][..k];
    }
  }

  lemma {:induction false} OthersConcat(a: seq<Record>, b: seq<Record>, t: nat)
    requires AllOk(a) && AllOk(b)
    ensures Others(a + b, t) == Others(a, t) + Others(b, t)
  {
    hide RecordOk, TypeOf;
    if a == [] {
      assert a + b == b;
    } else {
      assert (a + b)[0] == a[0] && (a + b)[1..] == a[1..] + b;
      OthersConcat(a[1..], b, t);
      if TypeOf(a[0]) != t {
        HeadFirst(a[0], Others(a[1..], t), Others(b, t));
      }
    }
  }

  lemma {:induction false} OfTypeConcat(a: seq<Record>, b: seq<Record>, t: nat)
    requires AllOk(a) && AllOk(b)
    ensures OfType(a + b, t) == OfType(a, t) + OfType(b, t)
  {
    hide RecordOk, TypeOf;
    if a == [] {
      assert a + b == b;
    } else {
      assert (a + b)[0] == a[0] && (a + b)[1..] == a[1..] + b;
      OfTypeConcat(a[1..], b, t);
      if TypeOf(a[0]) == t {
        HeadFirst(a[0], OfType(a[1..], t), OfType(b, t));
      }
    }
  }

  lemma HeadFirst(r: Record, x: seq<Record>, y: seq<Record>)
    ensures [r] + (x + y) == [r] + x + y
  {
  }

  lemma {:induction false} OthersTwice(rs: seq<Record>, t: nat)
    requires AllOk(rs)
    ensures Others(Others(rs, t), t) == Others(rs, t) && OfType(Others(rs, t), t) == []
  {
    if rs != [] {
      OthersTwice(rs[1..], t);
      var head := if TypeOf(rs[0]) == t then [] else [rs[0]];
      OthersConcat(head, Others(rs[1..], t), t);
      OfTypeConcat(head, Others(rs[1..], t), t);
    }
  }

  /** The new record is the only one of its type, and the other types' records are the ones there were, in their
      order. */
  lemma ReplaceAccount(rs: seq<Record>, t: nat, saved: Record)
    requires AllOk(rs) && RecordOk(saved) && TypeOf(saved) == t
    ensures OfType(Replace(rs, t, saved), t) == [saved]
    ensures Others(Replace(rs, t, saved), t) == Others(rs, t)
    ensures |Replace(rs, t, saved)| == |Others(rs, t)| + 1
  {
    hide RecordOk, TypeOf, Others, OfType, FirstOf;
    var k := Place(rs, t);
    var a, b := rs[..k], Others(rs[k..], t);
    BeforePlace(rs, t);
    OthersTwice(rs[k..], t);
    One(saved, t);
    Assembled(a, saved, b, t);
    OthersConcat(a, rs[k..], t);
    assert rs == a + rs[k..];
  }

  lemma Assembled(a: seq<Record>, r: Record, b: seq<Record>, t: nat)
    requires AllOk(a) && AllOk(b) && RecordOk(r) && TypeOf(r) == t
    ensures AllOk(a + [r] + b)
    ensures Others(a + [r] + b, t) == Others(a, t) + Others(b, t)
    ensures OfType(a + [r] + b, t) == OfType(a, t) + [r] + OfType(b, t)
  {
    hide RecordOk, TypeOf, Others, OfType;
    One(r, t);
    OthersConcat(a, [r], t);
    OthersConcat(a + [r], b, t);
    OfTypeConcat(a, [r], t);
    OfTypeConcat(a + [r], b, t);
  }

  lemma One(r: Record, t: nat)
    requires RecordOk(r) && TypeOf(r) == t
    ensures Others([r], t) == [] && OfType([r], t) == [r]
  {
  }

  lemma {:induction false} FirstIsHead(rs: seq<Record>, t: nat)
    requires AllOk(rs)
    ensures FirstOf(rs, t) == (if OfType(rs, t) == [] then None else Some(OfType(rs, t)[0]))
  {
    if rs != [] {
      FirstIsHead(rs[1..], t);
    }
  }

  lemma {:induction false} FirstAmongOthers(rs: seq<Record>, t: nat, u: nat)
    requires AllOk(rs) && t != u
    ensures FirstOf(Others(rs, t), u) == FirstOf(rs, u)
  {
    if rs != [] {
      FirstAmongOthers(rs[1..], t, u);
      if TypeOf(rs[0]) != t {
        var qs := Others(rs, t);
        assert qs[0] == rs[0] && qs[1..] == Others(rs[1..], t);
      } else {
        assert Others(rs, t) == Others(rs[1..], t);
      }
    }
  }

  /** After a save every type reads as before, except the one saved, which reads as the new record. */
  lemma ReadsAfterReplace(rs: seq<Record>, t: nat, saved: Record, u: nat)
    requires AllOk(rs) && RecordOk(saved) && TypeOf(saved) == t
    ensures FirstOf(Replace(rs, t, saved), u) == if u == t then Some(saved) else FirstOf(rs, u)
  {
    hide Replace, RecordOk;
    ReplaceAccount(rs, t, saved);
    FirstIsHead(Replace(rs, t, saved), t);
    if u != t {
      FirstAmongOthers(Replace(rs, t, saved), t, u);
      FirstAmongOthers(rs, t, u);
    }
  }

  /** What sys_get_vctl_entry returns after a save that had room: the saved record, byte for byte, or what it returned
      before - unless the row has grown beyond 128 records, when nothing is found any more. */
  lemma GetAfterSave(rs: seq<Record>, t: nat, saved: Record, limit: nat, u: nat, size: nat)
    requires AllOk(rs) && RecordOk(saved) && TypeOf(saved) == t && HEADER + |Flat(Replace(rs, t, saved))| < limit
    requires u != t ==> |rs| <= MAX_ENTRIES
    ensures Lookup(SaveRow(rs, t, saved, limit), u, size) ==
            if |Others(rs, t)| >= MAX_ENTRIES then None
            else if u != t then Lookup(rs, u, size)
            else if |saved| <= size then Some(saved) else None
  {
    hide Replace, RecordOk;
    SaveIsReplaceIff(rs, t, saved, limit);
    ReplaceAccount(rs, t, saved);
    ReadsAfterReplace(rs, t, saved, u);
  }

  // ---------------------------------------------------------------- histories

  /** The record saved last among those of a type. */
  function LastSaved(news: seq<Record>, u: nat, before: Option<Record>): Option<Record>
    requires AllOk(news)
    decreases |news|
  {
    if news == [] then before
    else LastSaved(news[1..], u, if TypeOf(news[0]) == u then Some(news[0]) else before)
  }

  function SaveEach(rs: seq<Record>, news: seq<Record>, limit: nat): (qs: seq<Record>)
    requires AllOk(rs) && AllOk(news)
    ensures AllOk(qs)
    decreases |news|
  {
    if news == [] then rs
    else SaveEach(SaveRow(rs, TypeOf(news[0]), news[0], limit), news[1..], limit)
  }

  /** Every save of the series finds room. */
  predicate EachFits(rs: seq<Record>, news: seq<Record>, limit: nat)
    requires AllOk(rs) && AllOk(news)
    decreases |news|
  {
    news == [] ||
    var next := Replace(rs, TypeOf(news[0]), news[0]);
    HEADER + |Flat(next)| < limit && EachFits(next, news[1..], limit)
  }

  /** Over any series of saves that find room, the store is a map from types to what was saved last. */
  lemma {:induction false} HistoryReads(rs: seq<Record>, news: seq<Record>, limit: nat, u: nat)
    requires AllOk(rs) && AllOk(news) && EachFits(rs, news, limit)
    ensures FirstOf(SaveEach(rs, news, limit), u) == LastSaved(news, u, FirstOf(rs, u))
    decreases |news|
  {
    hide Replace, RecordOk, FirstOf, TypeOf;
    if news != [] {
      var t := TypeOf(news[0]);
      SaveIsReplaceIff(rs, t, news[0], limit);
      ReadsAfterReplace(rs, t, news[0], u);
      HistoryReads(Replace(rs, t, news[0]), news[1..], limit, u);
    }
  }

  /** A save without room is not reported: with 44 bytes for the store, the second of two records of 20 bytes is left
      out, and saving goes on to return 0. */
  lemma LeftOutSilently(r: Record, q: Record)
    requires RecordOk(r) && RecordOk(q) && |r| == |q| == 20 && TypeOf(r) != TypeOf(q)
    ensures SaveRow([r], TypeOf(q), q, 44) == [r]
    ensures FirstOf([r], TypeOf(q)) == None
  {
    FlatOne(r);
    assert [r][1..] == [] && [] + [r] == [r];
    var c := Copy([], false);
    assert CopyStep(c, r, TypeOf(q), q, 44) == Copy([r], false);
    assert CopyAll(c, [r], TypeOf(q), q, 44) == CopyAll(Copy([r], false), [], TypeOf(q), q, 44) == Copy([r], false);
  }
}
