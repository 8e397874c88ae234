/** The Ethernet addresses of src/sys/sys_vctl.c: two of them at fixed places of a text record, written into the record
    that is there or into a new one, and read back with a repair of records whose text was cut by a zero. */
module VctlMac {
  import opened ByteData
  import opened VctlRecords
  import opened VctlStore
  import opened VctlText
  import opened VctlIp

  const VCT_VLAN := 8
  const AT1 := 27                // sizeof(VCTL_ENTRY_T) + 7
  const AT2 := 63                // sizeof(VCTL_ENTRY_T) + 43
  const NEW_SIZE := 92

  const MAC1_WORD: Bytes := [77, 65, 67, 49, 58, 48, 120]                                              // "MAC1:0x"
  /** ":ID1:1:MAP1:0x10:" */
  const PORT1_TEXT: Bytes := [58, 73, 68, 49, 58, 49, 58, 77, 65, 80, 49, 58, 48, 120, 49, 48, 58]
  const MAC2_WORD: Bytes := [77, 65, 67, 50, 58, 48, 120]                                              // "MAC2:0x"
  /** ":ID2:2:MAP2:0x0f" */
  const PORT2_TEXT: Bytes := [58, 73, 68, 50, 58, 50, 58, 77, 65, 80, 50, 58, 48, 120, 48, 102]
  const COLON: Bytes := [58]

  type Mac = m: seq<byte> | |m| == 6 witness [0, 0, 0, 0, 0, 0]

  // ---------------------------------------------------------------- twelve digits

  /** %02X for each byte. */
  function HexAll(m: seq<byte>): (s: Bytes)
    ensures |s| == 2 * |m|
  {
    if m == [] then [] else Hex2(m[0]) + HexAll(m[1..])
  }

  /** The digits from `at` on, two for a byte. */
  function ReadHex(b: Bytes, at: nat, n: nat): (m: seq<byte>)
    requires at + 2 * n <= |b|
    ensures |m| == n
    decreases n
  {
    if n == 0 then [] else [HexPair(b[at], b[at + 1])] + ReadHex(b, at + 2, n - 1)
  }

  lemma {:induction false} HexAllReadBack(m: seq<byte>, b: Bytes, at: nat)
    requires at + 2 * |m| <= |b| && b[at..at + 2 * |m|] == HexAll(m)
    ensures ReadHex(b, at, |m|) == m
  {
    hide HexPair, Hex2;
    if m != [] {
      var piece := b[at..at + 2 * |m|];
      assert piece[0] == Hex2(m[0])[0] && piece[1] == Hex2(m[0])[1];
      HexReadBack(m[0]);
      SliceOfSlice(b, at, 2 * |m|, 2, 2 * |m| - 2);
      assert piece[2..2 + (2 * |m| - 2)] == HexAll(m[1..]);
      HexAllReadBack(m[1..], b, at + 2);
    }
  }

  lemma {:induction false} ReadHexAt(b: Bytes, at: nat, n: nat, i: nat)
    requires at + 2 * n <= |b| && i < n
    ensures ReadHex(b, at, n)[i] == HexPair(b[at + 2 * i], b[at + 2 * i + 1])
    decreases n
  {
    hide HexPair;
    if i > 0 {
      ReadHexAt(b, at + 2, n - 1, i - 1);
    }
  }

  // ---------------------------------------------------------------- writing

  /** "MAC1:0x............:ID1:1:MAP1:0x10:MAC2:0x............:ID2:2:MAP2:0x0f" */
  function MacText(m1: Mac, m2: Mac): (s: Bytes)
    ensures |s| == NEW_SIZE - ENTRY - 1
  {
    MAC1_WORD + HexAll(m1) + PORT1_TEXT + (MAC2_WORD + HexAll(m2) + PORT2_TEXT)
  }

  /** The record made when there is none. */
  function NewMac(m1: Mac, m2: Mac): (r: Record)
    ensures |r| == NEW_SIZE
  {
    ENTRY_MAGIC + Le32(NEW_SIZE) + Le32(VCT_VLAN) + VERSIONS + MacText(m1, m2) + [0]
  }

  /** entry_buf with both addresses, and the colons behind them, written over what was there. */
  function Patched(b: Bytes, m1: Mac, m2: Mac): (c: Bytes)
    requires |b| == ENTRY_BUF
    ensures |c| == ENTRY_BUF
  {
    b[..AT1] + (HexAll(m1) + COLON) + b[AT1 + 13..AT2] + (HexAll(m2) + COLON) + b[AT2 + 13..]
  }

  /** The front of entry_buf that is saved: a record that is there keeps its size. */
  function MacBytes(rs: seq<Record>, m1: Mac, m2: Mac): (r: Bytes)
    requires AllOk(rs)
    ensures |r| == (var q := Lookup(rs, VCT_VLAN, ENTRY_BUF); if q.Some? then |q.value| else NEW_SIZE) <= ENTRY_BUF
  {
    var q := Lookup(rs, VCT_VLAN, ENTRY_BUF);
    if q.Some? then Patched(Base(rs, VCT_VLAN), m1, m2)[..|q.value|] else NewMac(m1, m2)
  }

  lemma PatchedParts(b: Bytes, m1: Mac, m2: Mac)
    requires |b| == ENTRY_BUF
    ensures var c := Patched(b, m1, m2);
      && c[..AT1] == b[..AT1] && c[AT1..AT1 + 12] == HexAll(m1) && c[AT2..AT2 + 12] == HexAll(m2)
      && c[AT1 + 12] == 58 && c[AT2 + 12] == 58
  {
    hide HexAll;
  }

  lemma NewParts(m1: Mac, m2: Mac)
    ensures var r := NewMac(m1, m2);
      && r[4..4 + 4] == Le32(NEW_SIZE) && r[8..8 + 4] == Le32(VCT_VLAN)
      && r[AT1..AT1 + 12] == HexAll(m1) && r[AT2..AT2 + 12] == HexAll(m2) && r[AT1 + 12] == 58 && r[AT2 + 12] == 58
  {
    hide HexAll, Le32;
  }

  lemma MacBytesOk(rs: seq<Record>, m1: Mac, m2: Mac)
    requires AllOk(rs)
    ensures RecordOk(MacBytes(rs, m1, m2)) && TypeOf(MacBytes(rs, m1, m2)) == VCT_VLAN
  {
    hide FirstOf, Patched, NewMac, Base;
    var q, r := Lookup(rs, VCT_VLAN, ENTRY_BUF), MacBytes(rs, m1, m2);
    if q.Some? {
      var b := Base(rs, VCT_VLAN);
      FirstHasType(rs, VCT_VLAN);
      BaseFront(rs, VCT_VLAN);
      PatchedParts(b, m1, m2);
      FrontWords(Patched(b, m1, m2), b, q.value);
    } else {
      NewParts(m1, m2);
      Le32Inside(r, 4, Le32(NEW_SIZE), 0);
      Le32Inside(r, 8, Le32(VCT_VLAN), 0);
    }
  }

  lemma BaseFront(rs: seq<Record>, t: nat)
    requires AllOk(rs) && t < WORD_LIMIT && Lookup(rs, t, ENTRY_BUF).Some?
    ensures var q := Lookup(rs, t, ENTRY_BUF).value; |q| <= ENTRY_BUF && Base(rs, t)[..|q|] == q
  {
    hide FirstOf;
  }

  lemma FrontWords(c: Bytes, b: Bytes, q: Record)
    requires |b| == |c| == ENTRY_BUF && c[..AT1] == b[..AT1] && RecordOk(q) && |q| <= ENTRY_BUF && b[..|q|] == q
    ensures RecordOk(c[..|q|]) && TypeOf(c[..|q|]) == TypeOf(q)
  {
    assert forall k :: 0 <= k < 12 ==> c[..|q|][k] == c[..AT1][k] == b[..AT1][k] == b[..|q|][k] == q[k];
  }

  /** The record that sys_set_vctl_mac saves. */
  function MacRecord(rs: seq<Record>, m1: Mac, m2: Mac): (r: Record)
    requires AllOk(rs)
    ensures RecordOk(r) && TypeOf(r) == VCT_VLAN && |r| <= ENTRY_BUF
  {
    MacBytesOk(rs, m1, m2);
    MacBytes(rs, m1, m2)
  }

  // ---------------------------------------------------------------- reading

  /** entry_buf after a record has been read into it: behind the record it holds what the stack held. */
  function ReadBuffer(r: Record, stack: Bytes): (b: Bytes)
    requires |r| <= |stack| == ENTRY_BUF
    ensures |b| == ENTRY_BUF
  {
    r + stack[|r|..]
  }

  /** What sys_get_vctl_mac stores for the two addresses. */
  function GotMacs(r: Record, stack: Bytes): (m: (Mac, Mac))
    requires |r| <= |stack| == ENTRY_BUF
  {
    (ReadHex(ReadBuffer(r, stack), AT1, 6), ReadHex(ReadBuffer(r, stack), AT2, 6))
  }

  /** A zero behind either address makes sys_get_vctl_mac write both back. */
  predicate NeedsRepair(r: Record, stack: Bytes)
    requires |r| <= |stack| == ENTRY_BUF
  {
    ReadBuffer(r, stack)[AT1 + 12] == 0 || ReadBuffer(r, stack)[AT2 + 12] == 0
  }

  /** Both addresses lie in the record that is saved, as far as it reaches. */
  lemma MacsInRecord(rs: seq<Record>, m1: Mac, m2: Mac)
    requires AllOk(rs)
    ensures var r := MacRecord(rs, m1, m2);
      && (|r| >= AT2 + 12 ==> r[AT1..AT1 + 12] == HexAll(m1) && r[AT2..AT2 + 12] == HexAll(m2))
      && (|r| >= AT2 + 13 ==> r[AT1 + 12] == 58 && r[AT2 + 12] == 58)
  {
    hide FirstOf, Patched, NewMac, Base, HexAll;
    var q, r := Lookup(rs, VCT_VLAN, ENTRY_BUF), MacRecord(rs, m1, m2);
    if q.Some? {
      PatchedParts(Base(rs, VCT_VLAN), m1, m2);
      if |r| >= AT2 + 12 {
        var c := Patched(Base(rs, VCT_VLAN), m1, m2);
        assert c[0..0 + |r|] == r;
        SliceOfSlice(c, 0, |r|, AT1, 12);
        SliceOfSlice(c, 0, |r|, AT2, 12);
      }
    } else {
      NewParts(m1, m2);
    }
  }

  lemma GotInside(r: Record, stack: Bytes, m1: Mac, m2: Mac)
    requires AT2 + 12 <= |r| <= |stack| == ENTRY_BUF
    requires r[AT1..AT1 + 12] == HexAll(m1) && r[AT2..AT2 + 12] == HexAll(m2)
    ensures GotMacs(r, stack) == (m1, m2)
  {
    hide HexAll, ReadHex;
    var b := ReadBuffer(r, stack);
    assert b[0..0 + |r|] == r;
    SliceOfSlice(b, 0, |r|, AT1, 12);
    SliceOfSlice(b, 0, |r|, AT2, 12);
    HexAllReadBack(m1, b, AT1);
    HexAllReadBack(m2, b, AT2);
  }

  lemma LowDigit(hi: byte, d: nat)
    requires d < 2
    ensures HexPair(hi, 48 + d) % 2 == d
  {
    hide Char2Hex;
    assert Char2Hex(48 + d) == d by { NibbleReadBack(d); }
    StaysOdd(8 * Char2Hex(hi), d);
  }

  lemma StaysOdd(half: nat, d: nat)
    requires d < 2
    ensures (2 * half + d) % WORD_LIMIT % 256 % 2 == d
  {
    var x := 2 * half + d;
    var r := x % WORD_LIMIT;
    assert x == x / WORD_LIMIT * WORD_LIMIT + r && r == r / 256 * 256 + r % 256;
    Parity(r % 256, half - x / WORD_LIMIT * (WORD_LIMIT / 2) - r / 256 * 128, d);
  }

  lemma Parity(x: nat, half: int, d: nat)
    requires d < 2 && x == 2 * half + d
    ensures x % 2 == d
  {
  }

  /** A record too short to hold the last digit leaves it to the stack. */
  lemma StackShows(r: Record, d: nat, m2: Mac)
    requires |r| < AT2 + 12 && d < 2
    ensures var stack := seq(ENTRY_BUF, _ => 48 + d); GotMacs(r, stack).1 == m2 ==> m2[5] % 2 == d
  {
    hide HexPair, ReadHex;
    var stack: Bytes := seq(ENTRY_BUF, _ => 48 + d);
    var b := ReadBuffer(r, stack);
    assert b[AT2 + 11] == stack[AT2 + 11] == 48 + d;
    ReadHexAt(b, AT2, 6, 5);
    LowDigit(b[AT2 + 10], d);
  }

  /** What is set is read back, whatever the stack holds, exactly when the record that is saved reaches to the last
      digit; a record made new always does, one that was there keeps its size. */
  lemma MacReadBackIff(rs: seq<Record>, m1: Mac, m2: Mac)
    requires AllOk(rs)
    ensures var r := MacRecord(rs, m1, m2);
      (forall stack: Bytes :: |stack| == ENTRY_BUF ==> GotMacs(r, stack) == (m1, m2)) <==> |r| >= AT2 + 12
  {
    hide MacRecord, HexAll, GotMacs;
    var r := MacRecord(rs, m1, m2);
    MacsInRecord(rs, m1, m2);
    if |r| >= AT2 + 12 {
      forall stack: Bytes | |stack| == ENTRY_BUF ensures GotMacs(r, stack) == (m1, m2) {
        GotInside(r, stack, m1, m2);
      }
    } else {
      StackShows(r, 0, m2);
      StackShows(r, 1, m2);
      var stack0: Bytes, stack1: Bytes := seq(ENTRY_BUF, _ => 48 + 0), seq(ENTRY_BUF, _ => 48 + 1);
      assert GotMacs(r, stack0) != (m1, m2) || GotMacs(r, stack1) != (m1, m2);
    }
  }

  /** Through the store: after a save that finds room, the addresses come back, and need no repair once a colon follows
      the second. */
  lemma MacRoundTrip(rs: seq<Record>, m1: Mac, m2: Mac, limit: nat, stack: Bytes)
    requires AllOk(rs) && |stack| == ENTRY_BUF
    requires |MacRecord(rs, m1, m2)| >= AT2 + 12
    requires HEADER + |Flat(Replace(rs, VCT_VLAN, MacRecord(rs, m1, m2)))| < limit
        && |Others(rs, VCT_VLAN)| < MAX_ENTRIES
    ensures var r := MacRecord(rs, m1, m2);
      && Lookup(SaveRow(rs, VCT_VLAN, r, limit), VCT_VLAN, ENTRY_BUF) == Some(r) && GotMacs(r, stack) == (m1, m2)
      && (|r| >= AT2 + 13 ==> !NeedsRepair(r, stack))
  {
    hide RecordOk, SaveRow, Replace, Others, FirstOf, HexAll, GotMacs, MacRecord;
    GetAfterSave(rs, VCT_VLAN, MacRecord(rs, m1, m2), limit, VCT_VLAN, ENTRY_BUF);
    MacReadBackIff(rs, m1, m2);
    MacsInRecord(rs, m1, m2);
  }

  // ---------------------------------------------------------------- the code

  /** "%02X%02X%02X%02X%02X%02X" */
  function MacPieces(m: seq<byte>): seq<Piece> {
    if m == [] then [] else [Hex(m[0], 2)] + MacPieces(m[1..])
  }

  lemma {:induction false} ShowMac(m: seq<byte>)
    ensures Show(MacPieces(m)) == HexAll(m)
  {
    hide Padded;
    if m != [] {
      PaddedHex(m[0]);
      ShowHead(Hex(m[0], 2), MacPieces(m[1..]));
      ShowMac(m[1..]);
    }
  }

  /** The address with text on both sides of it. */
  function AroundMac(before: Bytes, m: Mac, behind: Bytes): seq<Piece> {
    [Plain(before)] + (MacPieces(m) + [Plain(behind)])
  }

  lemma ShowAround(before: Bytes, m: Mac, behind: Bytes)
    ensures Show(AroundMac(before, m, behind)) == before + HexAll(m) + behind
    ensures |AroundMac(before, m, behind)| > 0 && AroundMac(before, m, behind)[0] == Plain(before)
  {
    hide Show, HexAll, MacPieces;
    ShowMac(m);
    ShowHead(Plain(behind), []);
    ShowConcat(MacPieces(m), [Plain(behind)]);
    ShowHead(Plain(before), MacPieces(m) + [Plain(behind)]);
    assert before + (HexAll(m) + behind) == before + HexAll(m) + behind;
  }

  /** sprintf of an address and a colon into mac_buf, and memcpy of the 13 bytes. */
  method PatchMac(buf: array<byte>, at: nat, m: Mac)
    requires at + 13 <= buf.Length
    modifies buf
    ensures buf[..at] == old(buf[..at]) && buf[at..at + 13] == HexAll(m) + COLON
        && buf[at + 13..] == old(buf[at + 13..])
  {
    hide Show, HexAll, MacPieces;
    var macBuf := new byte[20];
    ShowMac(m);
    ShowConcat(MacPieces(m), [Plain(COLON)]);
    ShowHead(Plain(COLON), []);
    MacPiecesStart(m, [Plain(COLON)]);
    var n := Sprintf(macBuf, 0, MacPieces(m) + [Plain(COLON)]);
    var text := macBuf[..13];
    assert text == macBuf[0..0 + n];
    CopyIn(buf, at, text);
  }

  lemma MacPiecesStart(m: Mac, ps: seq<Piece>)
    ensures MacPieces(m) + ps != [] && |ShowOne((MacPieces(m) + ps)[0])| > 0
  {
    hide Digits;
    assert MacPieces(m)[0] == Hex(m[0], 2);
  }

  /** sys_set_vctl_mac */
  method SetMac(store: Store, m1: Mac, m2: Mac, memory: bool, flashing: Flashing)
    requires store.Valid() && (flashing != Good ==> |flashing.left| == store.size)
    modifies store`records, store.cache, store.flash
    ensures store.Valid()
    ensures memory && flashing == Good ==>
              store.records == SaveRow(old(store.records), VCT_VLAN, MacRecord(old(store.records), m1, m2), store.size)
    ensures !(memory && flashing == Good) ==> store.records == old(store.records)
  {
    hide RecordOk, SaveRow, Patched, NewMac, FirstOf, HexAll, MacText;
    var found, buf := StartEntry(store, VCT_VLAN);
    ghost var base, q := buf[..], Lookup(store.records, VCT_VLAN, ENTRY_BUF);
    var size;
    if found {
      PatchMac(buf, AT1, m1);
      ghost var half := buf[..];
      PatchMac(buf, AT2, m2);
      BothPatched(base, half, buf[..], m1, m2);
      SizeInBase(store.records, base, q.value, buf[..], m1, m2);
      size := WordAt(buf, 4);
    } else {
      FillNew(buf, m1, m2);
      size := NEW_SIZE;
    }
    assert buf[..size] == MacRecord(store.records, m1, m2);
    var r := store.Save(VCT_VLAN, buf[..size], memory, flashing);
  }

  lemma BothPatched(base: Bytes, half: Bytes, b: Bytes, m1: Mac, m2: Mac)
    requires |base| == |half| == |b| == ENTRY_BUF
    requires half[..AT1] == base[..AT1] && half[AT1..AT1 + 13] == HexAll(m1) + COLON
        && half[AT1 + 13..] == base[AT1 + 13..]
    requires b[..AT2] == half[..AT2] && b[AT2..AT2 + 13] == HexAll(m2) + COLON && b[AT2 + 13..] == half[AT2 + 13..]
    ensures b == Patched(base, m1, m2)
  {
    hide HexAll;
    assert b[..AT1] == b[..AT2][..AT1] == half[..AT2][..AT1] == half[..AT1];
    assert b[AT1..AT1 + 13] == b[..AT2][AT1..AT1 + 13] == half[..AT2][AT1..AT1 + 13] == half[AT1..AT1 + 13];
    assert b[AT1 + 13..AT2] == b[..AT2][AT1 + 13..] == half[..AT2][AT1 + 13..] == half[AT1 + 13..][..AT2 - AT1 - 13]
        == base[AT1 + 13..][..AT2 - AT1 - 13] == base[AT1 + 13..AT2];
    assert b[AT2 + 13..] == half[AT2 + 13..] == half[AT1 + 13..][AT2 - AT1..]
                         == base[AT1 + 13..][AT2 - AT1..] == base[AT2 + 13..];
    assert b == b[..AT1] + b[AT1..AT1 + 13] + b[AT1 + 13..AT2] + b[AT2..AT2 + 13] + b[AT2 + 13..];
  }

  /** The size is still where it was. */
  lemma SizeInBase(rs: seq<Record>, base: Bytes, q: Record, b: Bytes, m1: Mac, m2: Mac)
    requires AllOk(rs) && base == Base(rs, VCT_VLAN) && Lookup(rs, VCT_VLAN, ENTRY_BUF) == Some(q)
    requires b == Patched(base, m1, m2)
    ensures Le32At(b, 4) == |q| <= |b| && b[..|q|] == MacRecord(rs, m1, m2)
  {
    hide FirstOf, Base, Patched, HexAll;
    MacBytesOk(rs, m1, m2);
    BaseFront(rs, VCT_VLAN);
    var r := b[..|q|];
    assert Le32At(r, 4) == |r|;
    assert b[0..0 + |r|] == r;
    Le32Inside(b, 0, r, 4);
  }

  /** The rest of sys_set_vctl_mac when there is no record: the header that StartEntry wrote, then the text in two
      parts, and the size that has been added up. */
  method FillNew(buf: array<byte>, m1: Mac, m2: Mac)
    requires buf.Length == ENTRY_BUF
    requires buf[..] == ENTRY_MAGIC + Le32(ENTRY) + Le32(VCT_VLAN) + VERSIONS + Zeros(ENTRY_BUF - ENTRY)
    modifies buf
    ensures buf[..NEW_SIZE] == NewMac(m1, m2)
  {
    hide HexAll, Show, AroundMac, Le32;
    ghost var b := buf[..];
    ShowAround(MAC1_WORD, m1, PORT1_TEXT);
    ShowAround(MAC2_WORD, m2, PORT2_TEXT);
    var len := Sprintf(buf, ENTRY, AroundMac(MAC1_WORD, m1, PORT1_TEXT));
    ghost var half := buf[..];
    var cp, size := ENTRY + len, ENTRY + len;
    len := Sprintf(buf, cp, AroundMac(MAC2_WORD, m2, PORT2_TEXT));
    size := size + len + 1;
    ghost var full := buf[..];
    CopyIn(buf, 4, Le32(size));
    NewAssembled(b, half, full, buf[..], m1, m2);
  }

  lemma NewAssembled(b: Bytes, half: Bytes, full: Bytes, c: Bytes, m1: Mac, m2: Mac)
    requires |half| == |full| == |c| == ENTRY_BUF
    requires b == ENTRY_MAGIC + Le32(ENTRY) + Le32(VCT_VLAN) + VERSIONS + Zeros(ENTRY_BUF - ENTRY)
    requires half[..ENTRY] == b[..ENTRY] && half[ENTRY..ENTRY + 36] == MAC1_WORD + HexAll(m1) + PORT1_TEXT
    requires full[..ENTRY + 36] == half[..ENTRY + 36]
        && full[ENTRY + 36..ENTRY + 36 + 35] == MAC2_WORD + HexAll(m2) + PORT2_TEXT
    requires full[NEW_SIZE - 1] == 0
    requires c[..4] == full[..4] && c[4..4 + 4] == Le32(NEW_SIZE) && c[4 + 4..] == full[4 + 4..]
    ensures c[..NEW_SIZE] == NewMac(m1, m2)
  {
    hide HexAll, Le32;
    assert full[..ENTRY] == full[..ENTRY + 36][..ENTRY] == half[..ENTRY + 36][..ENTRY] == half[..ENTRY] == b[..ENTRY];
    assert full[ENTRY..ENTRY + 36] == full[..ENTRY + 36][ENTRY..] == half[ENTRY..ENTRY + 36];
    assert c[..4] == full[..ENTRY][..4] == ENTRY_MAGIC;
    assert c[8..ENTRY] == full[..ENTRY][8..] == Le32(VCT_VLAN) + VERSIONS;
    assert c[ENTRY..NEW_SIZE - 1] == full[ENTRY..ENTRY + 36] + full[ENTRY + 36..ENTRY + 36 + 35] == MacText(m1, m2);
    assert c[..NEW_SIZE] == c[..4] + c[4..8] + c[8..ENTRY] + c[ENTRY..NEW_SIZE - 1] + [c[NEW_SIZE - 1]];
  }

  /** sys_get_vctl_mac: `stack` is what the buffer happened to hold. */
  method GetMac(store: Store, before1: Mac, before2: Mac, memory: bool, flashing: Flashing)
    returns (m1: Mac, m2: Mac, ghost stack: Bytes)
    requires store.Valid() && (flashing != Good ==> |flashing.left| == store.size)
    modifies store`records, store.cache, store.flash
    ensures store.Valid() && |stack| == ENTRY_BUF
    ensures var r := Lookup(old(store.records), VCT_VLAN, ENTRY_BUF);
      && (m1, m2) == (if r.Some? then GotMacs(r.value, stack) else (before1, before2))
      && store.records ==
         if r.Some? && NeedsRepair(r.value, stack) && memory && flashing == Good
         then SaveRow(old(store.records), VCT_VLAN, MacRecord(old(store.records), m1, m2), store.size)
         else old(store.records)
  {
    hide RecordOk, SaveRow, FirstOf, MacRecord, HexPair;
    var buf := new byte[ENTRY_BUF];
    stack := buf[..];
    m1, m2 := before1, before2;
    var found, r := store.Get(VCT_VLAN, ENTRY_BUF);
    if !found {
      return;
    }
    CopyIn(buf, 0, r);
    assert buf[..] == ReadBuffer(r, stack);
    m1 := ReadMac(buf, AT1);
    var bug := buf[AT1 + 12] == 0;
    m2 := ReadMac(buf, AT2);
    if buf[AT2 + 12] == 0 { bug := true; }
    assert bug <==> NeedsRepair(r, stack);
    if bug {
      SetMac(store, m1, m2, memory, flashing);
    }
  }

  /** The loop over six pairs of digits. */
  method ReadMac(buf: array<byte>, at: nat) returns (m: Mac)
    requires at + 12 <= buf.Length
    ensures m == ReadHex(buf[..], at, 6)
  {
    hide HexPair, ReadHex;
    var bytes: seq<byte> := [];
    var i: nat := 0;
    while i < 6
      invariant i <= 6 && |bytes| == i
      invariant bytes + ReadHex(buf[..], at + 2 * i, 6 - i) == ReadHex(buf[..], at, 6)
    {
      ReadHexStep(buf[..], at + 2 * i, 6 - i);
      bytes := bytes + [HexPair(buf[at + 2 * i], buf[at + 2 * i + 1])];
      i := i + 1;
    }
    m := bytes;
  }

  lemma ReadHexStep(b: Bytes, at: nat, n: nat)
    requires at + 2 * n <= |b| && n > 0
    ensures ReadHex(b, at, n) == [HexPair(b[at], b[at + 1])] + ReadHex(b, at + 2, n - 1)
  {
  }
}
