/** The IP settings of src/sys/sys_vctl.c: three addresses printed into a record of the store and parsed back out of
    it. */
module VctlIp {
  import opened ByteData
  import opened VctlRecords
  import opened VctlStore
  import opened VctlText

  const VCT_IP := 0x80
  const ENTRY := 20              // sizeof(VCTL_ENTRY_T)
  const ENTRY_BUF := 128         // char entry_buf[128]

  const ENTRY_MAGIC: Bytes := [70, 76, 69, 78]                            // "FLEN"
  const VERSIONS: Bytes := [48, 48, 48, 48, 48, 48, 48, 48]               // "0000" "0000"
  const IP_WORD: Bytes := [73, 80, 58]                                    // "IP:"
  const NETMASK_WORD: Bytes := [78, 101, 116, 109, 97, 115, 107, 58]      // "Netmask:"
  const GATEWAY_WORD: Bytes := [71, 97, 116, 101, 119, 97, 121, 58]       // "Gateway:"
  const SPACE: Bytes := [32]
  const DOT: Bytes := [46]

  datatype Addresses = Addresses(ip: nat, netmask: nat, gateway: nat)

  predicate AddressesOk(a: Addresses) {
    a.ip < WORD_LIMIT && a.netmask < WORD_LIMIT && a.gateway < WORD_LIMIT
  }

  // ---------------------------------------------------------------- the text

  /** An address, a space and what follows. */
  function Field(a: nat, rest: Bytes): Bytes
    requires a < WORD_LIMIT
  {
    DottedFrom(a, 0) + (SPACE + rest)
  }

  /** "IP:a.b.c.d Netmask:a.b.c.d Gateway:a.b.c.d" */
  function IpText(a: Addresses): Bytes
    requires AddressesOk(a)
  {
    IP_WORD + Field(a.ip, NETMASK_WORD + Field(a.netmask, GATEWAY_WORD + DottedFrom(a.gateway, 0)))
  }

  /** What sys_get_vctl_ip makes of a text; an address that is not found keeps its value. */
  function ParseIp(text: Bytes, before: Addresses): Addresses {
    var i := FirstMatch(text, IP_WORD);
    if i.None? then before
    else
      var t := text[i.value + 3..];
      var a := before.(ip := Str2Ip(t));
      var j := FirstMatch(t, NETMASK_WORD);
      if j.None? then a
      else
        var u := t[j.value + 8..];
        var b := a.(netmask := Str2Ip(u));
        var k := FirstMatch(u, GATEWAY_WORD);
        if k.None? then b else b.(gateway := Str2Ip(u[k.value + 8..]))
  }

  predicate AddressChar(c: byte) { c == 46 || IsDecimal(c) }

  lemma {:induction false} DottedChars(a: nat, i: nat)
    requires a < WORD_LIMIT && i <= 3
    ensures forall k :: 0 <= k < |DottedFrom(a, i)| ==> AddressChar(DottedFrom(a, i)[k])
    ensures 0 !in DottedFrom(a, i) && |DottedFrom(a, i)| <= 15 - 4 * i
    decreases 3 - i
  {
    hide Digits, Ip;
    DecimalDigits(Ip(a, i));
    ThreeDigits(Ip(a, i));
    if i < 3 {
      DottedChars(a, i + 1);
    }
  }

  lemma ThreeDigits(n: nat)
    requires n < 256
    ensures |Digits(n, 10)| <= 3
  {
    if n >= 10 {
      assert Digits(n, 10) == Digits(n / 10, 10) + [DigitChar(n % 10)];
      if n >= 100 {
        assert Digits(n / 10, 10) == Digits(n / 100, 10) + [DigitChar(n / 10 % 10)];
      }
    }
  }

  /** The address at the start of a field is read, and the word behind it is found. */
  lemma FieldReadBack(a: nat, word: Bytes, rest: Bytes)
    requires a < WORD_LIMIT && word != [] && Upper(word[0]) > 64
    ensures var f := Field(a, word + rest); var at := |DottedFrom(a, 0)| + 1;
      && Str2Ip(f) == a && FirstMatch(f, word) == Some(at) && at + |word| <= |f| && f[at + |word|..] == rest
  {
    hide DottedFrom, Str2Ip;
    var d := DottedFrom(a, 0);
    var p := d + SPACE;
    DottedChars(a, 0);
    assert p + (word + rest) == d + (SPACE + (word + rest));
    FoundBehind(p, word + rest, word);
    AddressReadBack(a, SPACE + (word + rest));
  }

  /** The text printed for three addresses is parsed back to the same three. */
  lemma TextReadBack(a: Addresses, before: Addresses)
    requires AddressesOk(a)
    ensures ParseIp(IpText(a), before) == a
  {
    hide Field, DottedFrom, Str2Ip, FirstMatch;
    var g := DottedFrom(a.gateway, 0);
    var u := Field(a.netmask, GATEWAY_WORD + g);
    var t := Field(a.ip, NETMASK_WORD + u);
    FirstWord(t);
    FieldReadBack(a.ip, NETMASK_WORD, u);
    FieldReadBack(a.netmask, GATEWAY_WORD, g);
    assert g == g + [];
    AddressReadBack(a.gateway, []);
  }

  lemma FirstWord(t: Bytes)
    ensures FirstMatch(IP_WORD + t, IP_WORD) == Some(0) && (IP_WORD + t)[3..] == t
  {
    assert [] + (IP_WORD + t) == IP_WORD + t;
    FoundBehind([], IP_WORD + t, IP_WORD);
  }

  lemma TextFits(a: Addresses)
    requires AddressesOk(a)
    ensures |IpText(a)| <= 66 && 0 !in IpText(a)
  {
    hide DottedFrom;
    DottedChars(a.gateway, 0);
    var rest := GATEWAY_WORD + DottedFrom(a.gateway, 0);
    FieldFits(a.netmask, rest);
    FieldFits(a.ip, NETMASK_WORD + Field(a.netmask, rest));
  }

  lemma FieldFits(a: nat, rest: Bytes)
    requires a < WORD_LIMIT && 0 !in rest
    ensures |Field(a, rest)| <= 16 + |rest| && 0 !in Field(a, rest)
  {
    hide DottedFrom;
    DottedChars(a, 0);
  }

  // ---------------------------------------------------------------- the record

  function Zeros(n: nat): (b: Bytes)
    ensures |b| == n && forall k :: 0 <= k < n ==> b[k] == 0
  {
    seq(n, _ => 0)
  }

  /** What entry_buf holds before the text is written: the record found, or a new header. */
  function Base(rs: seq<Record>, t: nat): (b: Bytes)
    requires AllOk(rs) && t < WORD_LIMIT
    ensures |b| == ENTRY_BUF
  {
    var r := Lookup(rs, t, ENTRY_BUF);
    if r.Some? then r.value + Zeros(ENTRY_BUF - |r.value|)
    else ENTRY_MAGIC + Le32(ENTRY) + Le32(t) + VERSIONS + Zeros(ENTRY_BUF - ENTRY)
  }

  /** (len + sizeof(VCTL_ENTRY_T) + 1 + 3) & ~3 */
  function Aligned(len: nat): nat { (len + ENTRY + 1 + 3) / 4 * 4 }

  /** entry_buf with a text and the size filled in. */
  function Filled(base: Bytes, text: Bytes): (b: Bytes)
    requires |base| == ENTRY_BUF && |text| <= 66
    ensures |b| == ENTRY_BUF
  {
    base[..4] + Le32(Aligned(|text|)) + base[8..ENTRY] + text + [0] + base[ENTRY + |text| + 1..]
  }

  lemma {:induction false} FirstHasType(rs: seq<Record>, t: nat)
    requires AllOk(rs)
    ensures var r := FirstOf(rs, t); r.Some? ==> RecordOk(r.value) && TypeOf(r.value) == t
  {
    if rs != [] {
      FirstHasType(rs[1..], t);
    }
  }

  lemma BaseType(rs: seq<Record>, t: nat)
    requires AllOk(rs) && t < WORD_LIMIT
    ensures Le32At(Base(rs, t), 8) == t
  {
    hide FirstOf;
    var b := Base(rs, t);
    FirstHasType(rs, t);
    var r := Lookup(rs, t, ENTRY_BUF);
    if r.Some? {
      assert b[0..0 + |r.value|] == r.value;
      Le32Inside(b, 0, r.value, 8);
    } else {
      assert b[8..8 + |Le32(t)|] == Le32(t);
      Le32Inside(b, 8, Le32(t), 0);
    }
  }

  /** Either way a record of the right type and size comes about, with the text in it, and it fits the buffer. */
  lemma FilledIsRecord(base: Bytes, t: nat, text: Bytes)
    requires |base| == ENTRY_BUF && Le32At(base, 8) == t && |text| <= 66 && 0 !in text
    ensures Aligned(|text|) <= 88
    ensures var r := Filled(base, text)[..Aligned(|text|)];
      RecordOk(r) && TypeOf(r) == t && |r| >= ENTRY + |text| + 1 && CString(r[ENTRY..]) == text && 0 in r[ENTRY..]
  {
    var b, n := Filled(base, text), Aligned(|text|);
    var r := b[..n];
    FilledParts(base, text);
    SliceOfSlice(b, 0, n, 4, 4);
    SliceOfSlice(b, 0, n, 8, 4);
    SliceOfSlice(b, 0, n, ENTRY, |text|);
    assert b[0..0 + n] == r;
    assert r[4..4 + |Le32(n)|] == Le32(n);
    Le32Inside(r, 4, Le32(n), 0);
    SameWord(r, base, 8);
    assert r[ENTRY + |text|] == b[ENTRY + |text|] == 0;
    assert r[ENTRY..] == text + [0] + r[ENTRY + |text| + 1..];
    CStringOf(text, r[ENTRY + |text| + 1..]);
    assert r[ENTRY..][|text|] == 0;
  }

  lemma FilledParts(base: Bytes, text: Bytes)
    requires |base| == ENTRY_BUF && |text| <= 66
    ensures var b := Filled(base, text);
      && b[4..4 + 4] == Le32(Aligned(|text|)) && b[8..8 + 4] == base[8..8 + 4]
      && b[ENTRY..ENTRY + |text|] == text && b[ENTRY + |text|] == 0
  {
    hide Aligned;
    var b := Filled(base, text);
    var front := base[..4] + Le32(Aligned(|text|));
    assert b[8..ENTRY] == base[8..ENTRY] by {
      assert b == front + base[8..ENTRY] + (text + [0] + base[ENTRY + |text| + 1..]);
    }
    SliceOfSlice(b, 8, ENTRY - 8, 0, 4);
    SliceOfSlice(base, 8, ENTRY - 8, 0, 4);
  }

  /** The front of entry_buf, as long as the record. */
  function FilledRecord(base: Bytes, t: nat, text: Bytes): (r: Record)
    requires |base| == ENTRY_BUF && Le32At(base, 8) == t && |text| <= 66 && 0 !in text
    ensures RecordOk(r) && TypeOf(r) == t && |r| <= 88
  {
    FilledIsRecord(base, t, text);
    Filled(base, text)[..Aligned(|text|)]
  }

  /** The record that sys_set_vctl_ip saves. */
  function IpRecord(rs: seq<Record>, a: Addresses): (r: Record)
    requires AllOk(rs) && AddressesOk(a)
    ensures RecordOk(r) && TypeOf(r) == VCT_IP && |r| <= 88
  {
    TextFits(a);
    BaseType(rs, VCT_IP);
    FilledRecord(Base(rs, VCT_IP), VCT_IP, IpText(a))
  }

  lemma IpRecordText(rs: seq<Record>, a: Addresses)
    requires AllOk(rs) && AddressesOk(a)
    ensures var r := IpRecord(rs, a); TextOk(r) && CString(r[ENTRY..]) == IpText(a)
  {
    hide IpText, Base, Filled, RecordOk, CString;
    TextFits(a);
    BaseType(rs, VCT_IP);
    FilledIsRecord(Base(rs, VCT_IP), VCT_IP, IpText(a));
  }

  /** A C string: what comes before the first zero. */
  function CString(b: Bytes): (s: Bytes)
    ensures |s| <= |b| && 0 !in s
  {
    if b == [] || b[0] == 0 then [] else [b[0]] + CString(b[1..])
  }

  lemma {:induction false} CStringOf(text: Bytes, rest: Bytes)
    requires 0 !in text
    ensures CString(text + [0] + rest) == text
  {
    var b := text + [0] + rest;
    if text != [] {
      assert b[1..] == text[1..] + [0] + rest;
      CStringOf(text[1..], rest);
    }
  }

  // ---------------------------------------------------------------- through the store

  /** A record whose text has an end. */
  predicate TextOk(r: Record) {
    ENTRY < |r| && 0 in r[ENTRY..]
  }

  /** What sys_get_vctl_ip leaves in its three arguments. */
  function GotIp(rs: seq<Record>, before: Addresses): Addresses
    requires AllOk(rs)
  {
    var r := Lookup(rs, VCT_IP, ENTRY_BUF);
    if r.None? || |r.value| < ENTRY then before else ParseIp(CString(r.value[ENTRY..]), before)
  }

  lemma FoundIsParsed(rs: seq<Record>, r: Record, a: Addresses, before: Addresses)
    requires AllOk(rs) && AddressesOk(a) && Lookup(rs, VCT_IP, ENTRY_BUF) == Some(r)
    requires TextOk(r) && CString(r[ENTRY..]) == IpText(a)
    ensures GotIp(rs, before) == a
  {
    hide IpText, ParseIp, Lookup, CString, RecordOk;
    TextReadBack(a, before);
  }

  /** Setting three addresses and getting them again gives the same three, whether there was a record before or not, if
      only the store has room for the row and no more than 128 records. */
  lemma IpRoundTrip(rs: seq<Record>, a: Addresses, before: Addresses, limit: nat)
    requires AllOk(rs) && AddressesOk(a)
    requires HEADER + |Flat(Replace(rs, VCT_IP, IpRecord(rs, a)))| < limit
    requires |Others(rs, VCT_IP)| < MAX_ENTRIES
    ensures GotIp(SaveRow(rs, VCT_IP, IpRecord(rs, a), limit), before) == a
  {
    hide GotIp, IpText, ParseIp, IpRecord, RecordOk, TextOk, CString, SaveRow, Lookup, Replace, Others, FirstOf, Flat;
    var r := IpRecord(rs, a);
    IpRecordText(rs, a);
    GetAfterSave(rs, VCT_IP, r, limit, VCT_IP, ENTRY_BUF);
    FoundIsParsed(SaveRow(rs, VCT_IP, r, limit), r, a, before);
  }

  // ---------------------------------------------------------------- the code

  /** The eleven conversions of the format string. */
  function AddressPieces(a: nat, i: nat): (ps: seq<Piece>)
    requires a < WORD_LIMIT && i <= 3
    decreases 3 - i
  {
    [Decimal(Ip(a, i))] + if i == 3 then [] else [Plain(DOT)] + AddressPieces(a, i + 1)
  }

  function FieldPieces(a: nat, word: Bytes, rest: seq<Piece>): (ps: seq<Piece>)
    requires a < WORD_LIMIT
  {
    AddressPieces(a, 0) + ([Plain(SPACE), Plain(word)] + rest)
  }

  function IpPieces(a: Addresses): (ps: seq<Piece>)
    requires AddressesOk(a)
  {
    [Plain(IP_WORD)] +
    FieldPieces(a.ip, NETMASK_WORD, FieldPieces(a.netmask, GATEWAY_WORD, AddressPieces(a.gateway, 0)))
  }

  lemma ShowHead(p: Piece, ps: seq<Piece>)
    ensures Show([p] + ps) == ShowOne(p) + Show(ps) && Show([p]) == ShowOne(p)
  {
    assert ([p] + ps)[0] == p && ([p] + ps)[1..] == ps;
    assert [p][1..] == [];
  }

  lemma {:induction false} ShowAddress(a: nat, i: nat)
    requires a < WORD_LIMIT && i <= 3
    ensures Show(AddressPieces(a, i)) == DottedFrom(a, i)
    decreases 3 - i
  {
    hide Ip, Digits, Show;
    var p := Decimal(Ip(a, i));
    assert ShowOne(p) == [] + Digits(Ip(a, i), 10) == Digits(Ip(a, i), 10);
    if i == 3 {
      ShowHead(p, []);
      assert DottedFrom(a, i) == Digits(Ip(a, i), 10) + [] == Digits(Ip(a, i), 10);
      assert AddressPieces(a, i) == [p] + [] == [p];
    } else {
      var rest := AddressPieces(a, i + 1);
      ShowHead(p, [Plain(DOT)] + rest);
      ShowHead(Plain(DOT), rest);
      ShowAddress(a, i + 1);
    }
  }

  lemma ShowField(a: nat, word: Bytes, rest: seq<Piece>)
    requires a < WORD_LIMIT
    ensures Show(FieldPieces(a, word, rest)) == Field(a, word + Show(rest))
  {
    hide Show, AddressPieces, DottedFrom;
    ShowConcat(AddressPieces(a, 0), [Plain(SPACE), Plain(word)] + rest);
    assert [Plain(SPACE), Plain(word)] + rest == [Plain(SPACE)] + ([Plain(word)] + rest);
    ShowHead(Plain(SPACE), [Plain(word)] + rest);
    ShowHead(Plain(word), rest);
    ShowAddress(a, 0);
  }

  lemma ShowIp(a: Addresses)
    requires AddressesOk(a)
    ensures Show(IpPieces(a)) == IpText(a) && |IpPieces(a)| > 0 && IpPieces(a)[0] == Plain(IP_WORD)
  {
    hide Show, AddressPieces, FieldPieces, Field;
    var g := AddressPieces(a.gateway, 0);
    var n := FieldPieces(a.netmask, GATEWAY_WORD, g);
    ShowAddress(a.gateway, 0);
    ShowField(a.netmask, GATEWAY_WORD, g);
    ShowField(a.ip, NETMASK_WORD, n);
    ShowHead(Plain(IP_WORD), FieldPieces(a.ip, NETMASK_WORD, n));
  }

  /** The first part of sys_set_vctl_ip and sys_set_vctl_mac: the record found, or a new header, in a cleared buffer. */
  method StartEntry(store: Store, t: nat) returns (found: bool, buf: array<byte>)
    requires store.Valid() && t < WORD_LIMIT
    ensures fresh(buf) && buf[..] == Base(store.records, t)
    ensures found <==> Lookup(store.records, t, ENTRY_BUF).Some?
  {
    hide RecordOk, FirstOf;
    buf := new byte[ENTRY_BUF](_ => 0);
    var r;
    found, r := store.Get(t, ENTRY_BUF);
    if found {
      CopyIn(buf, 0, r);
      assert buf[..] == r + Zeros(ENTRY_BUF - |r|);
    } else {
      CopyIn(buf, 0, ENTRY_MAGIC + Le32(ENTRY) + Le32(t) + VERSIONS);
      assert buf[..] == (ENTRY_MAGIC + Le32(ENTRY) + Le32(t) + VERSIONS) + Zeros(ENTRY_BUF - ENTRY);
    }
  }

  /** sys_set_vctl_ip */
  method SetIp(store: Store, a: Addresses, memory: bool, flashing: Flashing)
    requires store.Valid() && AddressesOk(a) && (flashing != Good ==> |flashing.left| == store.size)
    modifies store`records, store.cache, store.flash
    ensures store.Valid()
    ensures memory && flashing == Good ==>
              store.records == SaveRow(old(store.records), VCT_IP, IpRecord(old(store.records), a), store.size)
    ensures !(memory && flashing == Good) ==> store.records == old(store.records)
  {
    hide RecordOk, IpText, Base, IpPieces, Show, SaveRow;
    var found, buf := StartEntry(store, VCT_IP);
    ghost var base := buf[..];
    TextFits(a);
    ShowIp(a);
    BaseType(store.records, VCT_IP);
    var len := Sprintf(buf, ENTRY, IpPieces(a));
    ghost var printed := buf[..];
    var size := Aligned(len);
    FilledIsRecord(base, VCT_IP, IpText(a));
    CopyIn(buf, 4, Le32(size));
    BufferFilled(base, printed, buf[..], IpText(a));
    var r := store.Save(VCT_IP, buf[..size], memory, flashing);
  }

  lemma BufferFilled(base: Bytes, printed: Bytes, b: Bytes, text: Bytes)
    requires |base| == |printed| == |b| == ENTRY_BUF && |text| <= 66
    requires printed[..ENTRY] == base[..ENTRY] && printed[ENTRY..ENTRY + |text|] == text && printed[ENTRY + |text|] == 0
    requires printed[ENTRY + |text| + 1..] == base[ENTRY + |text| + 1..]
    requires b[..4] == printed[..4] && b[4..4 + 4] == Le32(Aligned(|text|)) && b[4 + 4..] == printed[4 + 4..]
    ensures b == Filled(base, text)
  {
    assert b[..4] == base[..ENTRY][..4] == base[..4];
    assert b[8..ENTRY] == printed[8..ENTRY] == base[8..ENTRY];
    assert b[ENTRY..ENTRY + |text|] == printed[ENTRY..ENTRY + |text|] == text;
    assert b[ENTRY + |text|] == 0;
    assert b[ENTRY + |text| + 1..] == base[ENTRY + |text| + 1..];
    assert b == b[..4] + b[4..8] + b[8..ENTRY] + b[ENTRY..ENTRY + |text|] + [b[ENTRY + |text|]]
                + b[ENTRY + |text| + 1..];
  }

  /** sys_get_vctl_ip */
  method GetIp(store: Store, before: Addresses) returns (a: Addresses)
    requires store.Valid()
    requires var r := Lookup(store.records, VCT_IP, ENTRY_BUF); r.Some? ==> TextOk(r.value)
    ensures a == GotIp(store.records, before)
  {
    hide FirstMatch, Str2Ip, CString, FirstOf, RecordOk;
    a := before;
    var found, entry := store.Get(VCT_IP, ENTRY_BUF);
    if !found {
      return;
    }
    var cp := CString(entry[ENTRY..]);
    var at := FindStr(cp, IP_WORD);
    if at.None? {
      return;
    }
    cp := cp[at.value + 3..];
    var v := ParseIpNumber(cp);
    a := a.(ip := v);
    at := FindStr(cp, NETMASK_WORD);
    if at.None? {
      return;
    }
    cp := cp[at.value + 8..];
    v := ParseIpNumber(cp);
    a := a.(netmask := v);
    at := FindStr(cp, GATEWAY_WORD);
    if at.None? {
      return;
    }
    cp := cp[at.value + 8..];
    v := ParseIpNumber(cp);
    a := a.(gateway := v);
  }
}
