/** src/sys/sys_vctl.c: the cached copy of the store, the loops that walk it, and the rewrite of the flash (NOR
    path). */
module VctlStore {
  import opened ByteData
  import opened VctlRecords

  /** What becomes of one erase-and-program of the flash; after a failure it holds anything. */
  datatype Flashing = Good | EraseFails(left: Bytes) | ProgramFails(left: Bytes)

  /** memcpy to offset `at` of a buffer. */
  method CopyIn(buf: array<byte>, at: nat, src: Bytes)
    requires at + |src| <= buf.Length
    modifies buf
    ensures buf[..at] == old(buf[..at]) && buf[at..at + |src|] == src
    ensures buf[at + |src|..] == old(buf[at + |src|..])
  {
    forall i | 0 <= i < |src| {
      buf[at + i] := src[i];
    }
  }

  /** GET_DWORD */
  function WordAt(a: array<byte>, at: nat): (n: nat)
    requires at + 4 <= a.Length
    reads a
    ensures n == Le32At(a[..], at)
  {
    Le32At(a[..], at)
  }

  /** The front of a buffer is a store image with these records. */
  ghost predicate Image(b: Bytes, total: nat, rs: seq<Record>) {
    && HEADER <= total <= |b| && b[..4] == STORE_MAGIC && AllOk(rs)
    && total == HEADER + |Flat(rs)| && b[HEADER..total] == Flat(rs)
  }

  lemma ImageGrows(b: Bytes, c: Bytes, total: nat, rs: seq<Record>, r: Record)
    requires Image(b, total, rs) && |c| == |b| && total + |r| <= |b| && RecordOk(r)
    requires c[..total] == b[..total] && c[total..total + |r|] == r
    ensures Image(c, total + |r|, rs + [r])
  {
    hide RecordOk, Flat;
    FlatConcat(rs, [r]);
    FlatOne(r);
    assert c[..4] == c[..total][..4] == b[..total][..4] == b[..4];
    assert c[HEADER..total] == c[..total][HEADER..] == b[..total][HEADER..] == b[HEADER..total];
    assert c[HEADER..total + |r|] == c[HEADER..total] + c[total..total + |r|];
  }

  lemma {:induction false} CountBelow(rs: seq<Record>)
    requires AllOk(rs)
    ensures |rs| <= |Flat(rs)|
  {
    if rs != [] {
      CountBelow(rs[1..]);
    }
  }

  lemma ImageIsStored(b: Bytes, total: nat, rs: seq<Record>, c: Bytes)
    requires Image(b, total, rs) && |c| >= total && |rs| < WORD_LIMIT
    requires c[..4] == b[..4] && c[4..HEADER] == Le32(|rs|) && c[HEADER..total] == b[HEADER..total]
    ensures Stored(c, rs) && HasMagic(c)
  {
    hide Flat, RecordOk;
    Le32Inside(c, 4, Le32(|rs|), 0);
  }

  class Store {
    const size: nat                // vctl_size
    const cache: array<byte>       // vctl_datap
    const flash: array<byte>       // the flash from vctl_addr on
    ghost var records: seq<Record>

    ghost predicate Valid()
      reads this, cache
    {
      && cache.Length == flash.Length == size && cache != flash && HEADER < size < 0x8000_0000
      && Stored(cache[..], records)
    }

    /** sys_vctl_init up to the copy of the flash, on a flash that holds a store or no store. */
    constructor (flash: array<byte>, records: seq<Record>)
      requires HEADER < flash.Length < 0x8000_0000 && Stored(flash[..], records)
      ensures Valid() && this.flash == flash && this.records == records && fresh(cache) && size == flash.Length
      ensures cache[..] == flash[..]
    {
      size, this.flash, this.records := flash.Length, flash, records;
      cache := new byte[flash.Length](i requires 0 <= i < flash.Length reads flash => flash[i]);
      new;
      assert cache[..] == flash[..];
    }

    /** sys_get_vctl_entry.  On a well-formed store the loop's own check against the end of the store is never met. */
    method Get(t: nat, room: nat) returns (ok: bool, result: Record)
      requires Valid() && t < WORD_LIMIT
      ensures ok <==> Lookup(records, t, room).Some?
      ensures ok ==> result == Lookup(records, t, room).value
    {
      hide RecordOk, TypeOf, Flat;
      result := [];
      if cache[..4] != STORE_MAGIC || WordAt(cache, 4) == 0 {
        return false, [];
      }
      if WordAt(cache, 4) > MAX_ENTRIES {
        return false, [];
      }
      var entryNum := WordAt(cache, 4);
      var entry, i := HEADER, 0;
      NothingBefore(records);
      while i < entryNum
        invariant i <= entryNum == |records| && entry == HEADER + |Flat(records[..i])|
        invariant FirstOf(records[i..], t) == FirstOf(records, t)
      {
        RecordInPlace(cache[..], records, i);
        FirstStep(records, i, t);
        var entrySize := WordAt(cache, entry + 4);
        var entryType := WordAt(cache, entry + 8);
        if entryType == t {
          if entrySize <= room {
            return true, cache[entry..entry + entrySize];
          } else {
            return false, [];
          }
        }
        entry := entry + entrySize;
        i := i + 1;
      }
      assert records[i..] == [];
      return false, [];
    }

    /** The copying loop of sys_save_vctl_entry, into a buffer of the store's size. */
    method CopyRecords(buf: array<byte>, t: nat, saved: Record) returns (total: nat, newTotal: nat)
      requires Valid() && buf.Length == size && buf != cache && RecordOk(saved) && t < WORD_LIMIT
      modifies buf
      ensures var rs := SaveRow(records, t, saved, size); Image(buf[..], total, rs) && newTotal == |rs| && total < size
    {
      hide RecordOk, TypeOf, Flat, CopyAll, CopyStep, Fits, Image, Stored;
      OrgTotal(cache[..], records);
      assert cache[..][..4] == cache[..4];
      var orgTotal := if cache[..4] != STORE_MAGIC then 0 else WordAt(cache, 4);
      CopyIn(buf, 0, STORE_MAGIC);
      EmptyImage(buf[..]);
      total, newTotal := HEADER, 0;
      var added, entry, i := false, HEADER, 0;
      ghost var c := Copy([], false);
      NothingBefore(records);
      while i < orgTotal
        invariant i <= orgTotal == |records| && entry == HEADER + |Flat(records[..i])|
        invariant cache[..] == old(cache[..])
        invariant Image(buf[..], total, c.out) && newTotal == |c.out| && added == c.added && total < size
        invariant CopyAll(c, records[i..], t, saved, size) == CopyAll(Copy([], false), records, t, saved, size)
      {
        RecordInPlace(cache[..], records, i);
        CopyNext(c, records, i, t, saved, size);
        var entrySize := WordAt(cache, entry + 4);
        var entryType := WordAt(cache, entry + 8);
        var ok;
        if entryType != t {
          ok, total, newTotal := AddPiece(buf, total, newTotal, cache[entry..entry + entrySize], c.out);
          if ok { c := Copy(c.out + [records[i]], c.added); }
        } else if !added {
          ok, total, newTotal := AddPiece(buf, total, newTotal, saved, c.out);
          if ok { c, added := Copy(c.out + [saved], true), true; }
        }
        entry := entry + entrySize;
        i := i + 1;
      }
      CopyNothing(c, records[i..], t, saved, size);
      if !added {
        added, total, newTotal := AddPiece(buf, total, newTotal, saved, c.out);
      }
    }

    /** sys_save_vctl_entry.  `memory` says whether the buffer could be allocated, `flashing` what becomes of the flash.
        Only the flash decides what is returned: a record that found no room is not reported. */
    method Save(t: nat, saved: Record, memory: bool, flashing: Flashing) returns (r: int)
      requires Valid() && RecordOk(saved) && TypeOf(saved) == t && t < WORD_LIMIT
      requires flashing != Good ==> |flashing.left| == size
      modifies `records, cache, flash
      ensures Valid() && r == (if memory && flashing == Good then 0 else -1)
      ensures r == 0 ==>
              records == SaveRow(old(records), t, saved, size) && flash[..] == cache[..]
              && HasMagic(cache[..])
      ensures r != 0 ==> records == old(records) && cache[..] == old(cache[..])
      ensures !memory ==> flash[..] == old(flash[..])
    {
      hide RecordOk, TypeOf, Flat, SaveRow, Image;
      if !memory {
        return -1;
      }
      var buf := new byte[size];
      var total, newTotal := CopyRecords(buf, t, saved);
      ghost var row := SaveRow(records, t, saved, size);
      SizesOf(buf[..], total, row);
      ghost var body := buf[..];
      CopyIn(buf, 4, Le32(newTotal));
      var image := buf[..total];
      var ok := Rewrite(flash, image, flashing);
      if !ok {
        return -1;
      }
      forall i | 0 <= i < size {
        cache[i] := flash[i];
      }
      assert cache[..] == flash[..];
      assert flash[..][0..total] == image == buf[..][..total];
      SameFront(body, buf[..], flash[..], total, Le32(newTotal));
      ImageIsStored(body, total, row, flash[..]);
      records := row;
      return 0;
    }
  }

  /** flash_erase of the whole store, then flash_program of its new contents. */
  method Rewrite(flash: array<byte>, contents: Bytes, flashing: Flashing) returns (ok: bool)
    requires |contents| <= flash.Length && (flashing != Good ==> |flashing.left| == flash.Length)
    modifies flash
    ensures ok <==> flashing == Good
    ensures ok ==> flash[0..|contents|] == contents && forall i :: |contents| <= i < flash.Length ==> flash[i] == 0xFF
    ensures !ok ==> flash[..] == flashing.left
  {
    if flashing.EraseFails? {
      CopyIn(flash, 0, flashing.left);
      return false;
    }
    forall i | 0 <= i < flash.Length {
      flash[i] := 0xFF;
    }
    if flashing.ProgramFails? {
      CopyIn(flash, 0, flashing.left);
      return false;
    }
    ghost var erased := flash[..];
    CopyIn(flash, 0, contents);
    forall i | |contents| <= i < flash.Length ensures flash[i] == 0xFF {
      assert flash[i] == flash[|contents|..][i - |contents|] == erased[|contents|..][i - |contents|];
    }
    return true;
  }

  // ---------------------------------------------------------------- steps of the loops

  /** The room check and the copy, with its bookkeeping. */
  method AddPiece(buf: array<byte>, total: nat, newTotal: nat, piece: Bytes, ghost out: seq<Record>)
    returns (ok: bool, total': nat, newTotal': nat)
    requires Image(buf[..], total, out) && newTotal == |out| && total < buf.Length && RecordOk(piece)
    modifies buf
    ensures ok <==> Fits(out, piece, buf.Length)
    ensures total' < buf.Length && newTotal' == if ok then |out| + 1 else |out|
    ensures Image(buf[..], total', if ok then out + [piece] else out)
  {
    hide RecordOk, Flat;
    ok, total', newTotal' := false, total, newTotal;
    if total + |piece| < buf.Length {
      ghost var b := buf[..];
      CopyIn(buf, total, piece);
      ImageGrows(b, buf[..], total, out, piece);
      ok, total', newTotal' := true, total + |piece|, newTotal + 1;
    }
  }

  lemma EmptyImage(b: Bytes)
    requires |b| >= HEADER && b[0..|STORE_MAGIC|] == STORE_MAGIC
    ensures Image(b, HEADER, [])
  {
  }

  lemma NothingBefore(rs: seq<Record>)
    ensures |Flat(rs[..0])| == 0 && rs[0..] == rs
  {
  }

  lemma OrgTotal(b: Bytes, rs: seq<Record>)
    requires Stored(b, rs)
    ensures |b| >= HEADER && AllOk(rs) && |rs| == if b[..4] != STORE_MAGIC then 0 else Le32At(b, 4)
  {
  }

  lemma FirstStep(rs: seq<Record>, i: nat, t: nat)
    requires AllOk(rs) && i < |rs|
    ensures FirstOf(rs[i..], t) == if TypeOf(rs[i]) == t then Some(rs[i]) else FirstOf(rs[i + 1..], t)
  {
    assert rs[i..][0] == rs[i] && rs[i..][1..] == rs[i + 1..];
  }

  lemma CopyNext(c: Copy, rs: seq<Record>, i: nat, t: nat, saved: Record, limit: nat)
    requires AllOk(rs) && i < |rs|
    ensures var d :=
        if TypeOf(rs[i]) == t then
          (if !c.added && Fits(c.out, saved, limit) then Copy(c.out + [saved], true) else c)
        else if Fits(c.out, rs[i], limit) then Copy(c.out + [rs[i]], c.added)
        else c;
      CopyAll(c, rs[i..], t, saved, limit) == CopyAll(d, rs[i + 1..], t, saved, limit)
  {
    hide RecordOk, TypeOf, Fits;
    assert rs[i..][0] == rs[i] && rs[i..][1..] == rs[i + 1..];
  }

  lemma CopyNothing(c: Copy, rs: seq<Record>, t: nat, saved: Record, limit: nat)
    requires |rs| == 0
    ensures CopyAll(c, rs, t, saved, limit) == c
  {
  }

  lemma SizesOf(b: Bytes, total: nat, rs: seq<Record>)
    requires Image(b, total, rs)
    ensures HEADER <= total <= |b| && |rs| <= |b|
  {
    CountBelow(rs);
  }

  /** After the count has been filled in and the front of the buffer programmed. */
  lemma SameFront(body: Bytes, buf: Bytes, flash: Bytes, total: nat, count: Bytes)
    requires |body| == |buf| == |flash| >= total >= HEADER && |count| == 4
    requires buf[..4] == body[..4] && buf[4..4 + 4] == count && buf[4 + 4..] == body[4 + 4..]
    requires flash[0..total] == buf[..total]
    ensures flash[..4] == body[..4] && flash[4..HEADER] == count && flash[HEADER..total] == body[HEADER..total]
  {
    assert flash[..4] == flash[0..total][..4] == buf[..4];
    assert flash[4..HEADER] == flash[0..total][4..HEADER] == buf[4..HEADER];
    assert flash[HEADER..total] == flash[0..total][HEADER..] == buf[..total][HEADER..];
    assert buf[..total][HEADER..] == buf[HEADER..][..total - HEADER];
    assert body[HEADER..total] == body[HEADER..][..total - HEADER];
  }
}
