/** The image header that tools/sl_imghdr/sl_imghdr.c puts in front of a file, and the check that the loader makes of it
    in src/ui/ui_upgrade.c. */
module Image {
  import opened Numbers
  import opened Crc16
  import opened ByteData

  type Bytes = seq<bv8>

  const BUF_SIZE := 32 * 1024
  const IMGHDR_SIZE := 32
  const IMGHDR_NAME_SIZE := 16

  /** "CS-BOOT-001" and its terminating zero. */
  const NAME: Bytes := [0x43, 0x53, 0x2d, 0x42, 0x4f, 0x4f, 0x54, 0x2d, 0x30, 0x30, 0x31, 0]

  // ---------------------------------------------------------------- header fields

  /** A number below 256 as a byte, bit by bit. */
  function Digit(n: nat): bv8 {
    var n4 := Half(Half(Half(Half(n))));
    Pack(Odd(n), Odd(Half(n)), Odd(Half(Half(n))), Odd(Half(Half(Half(n)))),
         Odd(n4), Odd(Half(n4)), Odd(Half(Half(n4))), Odd(Half(Half(Half(n4)))))
  }

  function Pack(b0: bool, b1: bool, b2: bool, b3: bool, b4: bool, b5: bool, b6: bool, b7: bool): bv8 {
    (if b0 then 1 else 0) | (if b1 then 2 else 0) | (if b2 then 4 else 0) | (if b3 then 8 else 0)
    | (if b4 then 16 else 0) | (if b5 then 32 else 0) | (if b6 then 64 else 0) | (if b7 then 128 else 0)
  }

  function BitValue(b: bv8, k: bv8, v: nat): nat { if b & k != 0 then v else 0 }

  /** The unsigned value of a byte. */
  function Value(b: bv8): (v: byte) {
    BitValue(b, 1, 1) + BitValue(b, 2, 2) + BitValue(b, 4, 4) + BitValue(b, 8, 8)
    + BitValue(b, 16, 16) + BitValue(b, 32, 32) + BitValue(b, 64, 64) + BitValue(b, 128, 128)
  }

  /** A 32-bit word, byte by byte. */
  function Le32(n: nat): (r: Bytes)
    requires n < WORD_LIMIT
    ensures |r| == 4
  {
    var b := ByteData.Le32(n);
    [Digit(b[0]), Digit(b[1]), Digit(b[2]), Digit(b[3])]
  }

  function ReadLe32(m: Bytes, at: nat): nat
    requires at + 4 <= |m|
  {
    Le32At([Value(m[at]), Value(m[at + 1]), Value(m[at + 2]), Value(m[at + 3])], 0)
  }

  function ReadLe16(m: Bytes, at: nat): bv16
    requires at + 2 <= |m|
  {
    (m[at] as bv16) | ((m[at + 1] as bv16) << 8)
  }

  lemma PackBits(b0: bool, b1: bool, b2: bool, b3: bool, b4: bool, b5: bool, b6: bool, b7: bool)
    ensures var p := Pack(b0, b1, b2, b3, b4, b5, b6, b7);
      && (p & 1 != 0 <==> b0) && (p & 2 != 0 <==> b1) && (p & 4 != 0 <==> b2) && (p & 8 != 0 <==> b3)
      && (p & 16 != 0 <==> b4) && (p & 32 != 0 <==> b5) && (p & 64 != 0 <==> b6) && (p & 128 != 0 <==> b7)
  {
  }

  function Weight(b: bool, v: nat): nat { if b then v else 0 }

  lemma ValueOfPack(b0: bool, b1: bool, b2: bool, b3: bool, b4: bool, b5: bool, b6: bool, b7: bool)
    ensures Value(Pack(b0, b1, b2, b3, b4, b5, b6, b7)) ==
            Weight(b0, 1) + Weight(b1, 2) + Weight(b2, 4) + Weight(b3, 8)
            + Weight(b4, 16) + Weight(b5, 32) + Weight(b6, 64) + Weight(b7, 128)
  {
    hide Pack;
    PackBits(b0, b1, b2, b3, b4, b5, b6, b7);
  }

  function Half(n: nat): nat { n / 2 }

  predicate Odd(n: nat) { n % 2 == 1 }

  lemma Halving(n: nat)
    ensures n == Weight(Odd(n), 1) + 2 * Half(n)
  {
    assert n == n % 2 + n / 2 * 2;
  }

  lemma Nibble(n: nat, v: nat)
    requires v == 1 || v == 16
    ensures var n1 := Half(n); var n2 := Half(n1); var n3 := Half(n2);
      v * n == Weight(Odd(n), v) + Weight(Odd(n1), 2 * v) + Weight(Odd(n2), 4 * v) + Weight(Odd(n3), 8 * v)
               + 16 * v * Half(n3)
  {
    hide Half, Odd;
    Halving(n);
    Halving(Half(n));
    Halving(Half(Half(n)));
    Halving(Half(Half(Half(n))));
  }

  lemma HalfBound(n: nat, b: nat)
    requires n < 2 * b
    ensures Half(n) < b
  {
  }

  lemma EightHalves(n: nat)
    requires n < 256
    ensures Half(Half(Half(Half(Half(Half(Half(Half(n)))))))) == 0
  {
    hide Half;
    HalfBound(n, 128);
    HalfBound(Half(n), 64);
    HalfBound(Half(Half(n)), 32);
    HalfBound(Half(Half(Half(n))), 16);
    HalfBound(Half(Half(Half(Half(n)))), 8);
    HalfBound(Half(Half(Half(Half(Half(n))))), 4);
    HalfBound(Half(Half(Half(Half(Half(Half(n)))))), 2);
    HalfBound(Half(Half(Half(Half(Half(Half(Half(n))))))), 1);
  }

  lemma DigitValue(n: nat)
    requires n < 256
    ensures Value(Digit(n)) == n
  {
    hide Pack, Value, Weight, Half, Odd;
    var n4 := Half(Half(Half(Half(n))));
    ValueOfPack(Odd(n), Odd(Half(n)), Odd(Half(Half(n))), Odd(Half(Half(Half(n)))),
                Odd(n4), Odd(Half(n4)), Odd(Half(Half(n4))), Odd(Half(Half(Half(n4)))));
    Nibble(n, 1);
    Nibble(n4, 16);
    EightHalves(n);
  }

  lemma Le32RoundTrip(n: nat, m: Bytes, at: nat)
    requires n < 0x1_0000_0000 && at + 4 <= |m| && m[at..at + 4] == Le32(n)
    ensures ReadLe32(m, at) == n
  {
    hide Value, Digit;
    var s := m[at..at + 4];
    assert m[at] == s[0] && m[at + 1] == s[1] && m[at + 2] == s[2] && m[at + 3] == s[3];
    var b := ByteData.Le32(n);
    DigitValue(b[0]);
    DigitValue(b[1]);
    DigitValue(b[2]);
    DigitValue(b[3]);
    assert [b[0], b[1], b[2], b[3]] == b;
  }

  lemma HalvesRoundTrip(c: bv16)
    ensures (Low(c) as bv16) | ((High(c) as bv16) << 8) == c
  {
  }

  // ---------------------------------------------------------------- sl_imghdr

  function Header(size: nat, checksum: bv16): (r: Bytes)
    requires size < 0x1_0000_0000
    ensures |r| == IMGHDR_SIZE
  {
    NAME + [0, 0, 0, 0] + Le32(size) + [0, 0, 0, 0, 0, 0, 0, 0, 0, 0] + [Low(checksum), High(checksum)]
  }

  /** What the tool writes for a file: header and file. */
  function ImageOf(file: Bytes): Bytes
    requires |file| < 0x1_0000_0000
  {
    Header(|file|, Signature(file)) + file
  }

  /** The main loop of sl_imghdr: the checksum is taken while the file is read in pieces of BUF_SIZE, and the file is
      then copied behind the header in pieces of the same size.  An empty file is refused. */
  method AddHeader(file: Bytes) returns (r: Option<Bytes>)
    requires |file| < 0x1_0000_0000
    ensures r == if file == [] then None else Some(ImageOf(file))
  {
    hide FcsByte, Header;
    if |file| == 0 {
      return None;
    }
    var crc: bv16 := INITFCS16;
    var at := 0;
    assert file[..0] == [];
    while true
      invariant 0 <= at <= |file|
      invariant crc == Fcs(INITFCS16, file[..at])
      decreases |file| - at
    {
      var size := Min(BUF_SIZE, |file| - at);
      if size == 0 { break; }
      FcsConcat(INITFCS16, file[..at], file[at..at + size]);
      assert file[..at] + file[at..at + size] == file[..at + size];
      crc := SysCrc16(crc, file[at..at + size]);
      at := at + size;
    }
    assert file[..at] == file;
    crc := Xor(crc, 0xffff);
    var out := Header(|file|, crc);
    at := 0;
    while true
      invariant 0 <= at <= |file|
      invariant out == Header(|file|, crc) + file[..at]
      decreases |file| - at
    {
      var size := Min(BUF_SIZE, |file| - at);
      if size == 0 { break; }
      assert file[..at] + file[at..at + size] == file[..at + size];
      out := out + file[at..at + size];
      at := at + size;
    }
    assert file[..at] == file;
    return Some(out);
  }

  // ---------------------------------------------------------------- verify_image_file

  /** strcmp(img->name, IMGHDR_NAME) == 0: the name field starts with the name and its terminating zero. */
  predicate Named(mem: Bytes) {
    |mem| >= IMGHDR_SIZE && mem[..|NAME|] == NAME
  }

  function SizeField(mem: Bytes): nat
    requires |mem| >= IMGHDR_SIZE
  {
    ReadLe32(mem, IMGHDR_NAME_SIZE)
  }

  function ChecksumField(mem: Bytes): bv16
    requires |mem| >= IMGHDR_SIZE
  {
    ReadLe16(mem, IMGHDR_SIZE - 2)
  }

  function Payload(mem: Bytes): Bytes
    requires |mem| >= IMGHDR_SIZE && |mem| >= IMGHDR_SIZE + SizeField(mem)
  {
    mem[IMGHDR_SIZE..IMGHDR_SIZE + SizeField(mem)]
  }

  /** The condition for verify_image_file to return 0. */
  predicate Accepted(mem: Bytes) {
    Named(mem) && |mem| >= IMGHDR_SIZE + SizeField(mem) && ChecksumField(mem) == Signature(Payload(mem))
  }

  /** 0 checksum good, 1 wrong header, -1 checksum error.  The code trusts the size field; the memory it is pointed at
      must reach that far. */
  method VerifyImageFile(mem: Bytes) returns (r: int)
    requires |mem| >= IMGHDR_SIZE && (Named(mem) ==> |mem| >= IMGHDR_SIZE + SizeField(mem))
    ensures !Named(mem) ==> r == 1
    ensures Named(mem) ==> r == if Accepted(mem) then 0 else -1
  {
    hide Fcs, FcsByte, ReadLe16, ReadLe32;
    if mem[..|NAME|] != NAME {
      return 1;
    }
    var crc := SysCrc16(INITFCS16, mem[IMGHDR_SIZE..IMGHDR_SIZE + SizeField(mem)]);
    crc := Xor(crc, 0xffff);
    return if ChecksumField(mem) == crc then 0 else -1;
  }

  // ---------------------------------------------------------------- tool and loader together

  /** The loader reads back what the tool wrote: name, size, checksum and, behind the header, whatever data is there. */
  lemma HeaderReadBack(size: nat, checksum: bv16, data: Bytes)
    requires size == |data| && size < 0x1_0000_0000
    ensures var m := Header(size, checksum) + data;
      Named(m) && SizeField(m) == size && ChecksumField(m) == checksum && Payload(m) == data
  {
    hide Header, Le32, ReadLe32, ReadLe16, Low, High;
    var h := Header(size, checksum);
    var m := h + data;
    HeaderFields(size, checksum);
    assert m[16..20] == h[16..20] && m[..12] == h[..12] && m[30] == h[30] && m[31] == h[31];
    assert m[32..] == data;
    Le32RoundTrip(size, m, 16);
    ReadLe16Halves(m, 30, checksum);
  }

  lemma HeaderFields(size: nat, checksum: bv16)
    requires size < 0x1_0000_0000
    ensures var h := Header(size, checksum);
      h[..12] == NAME && h[16..20] == Le32(size) && h[30] == Low(checksum) && h[31] == High(checksum)
  {
    hide Le32, Low, High;
  }

  lemma ReadLe16Halves(m: Bytes, at: nat, c: bv16)
    requires at + 2 <= |m| && m[at] == Low(c) && m[at + 1] == High(c)
    ensures ReadLe16(m, at) == c
  {
    HalvesRoundTrip(c);
  }

  /** Behind a header made for `file`, the loader accepts exactly the data with the same FCS. */
  lemma AcceptsSameFcs(file: Bytes, data: Bytes)
    requires |file| == |data| < 0x1_0000_0000
    ensures var m := Header(|file|, Signature(file)) + data;
      Named(m) && (Accepted(m) <==> Fcs(INITFCS16, file) == Fcs(INITFCS16, data))
  {
    hide Fcs, FcsByte, Header, ReadLe16, ReadLe32, Xor;
    HeaderReadBack(|file|, Signature(file), data);
    FlipInjective(Fcs(INITFCS16, file), Fcs(INITFCS16, data));
  }

  lemma FlipInjective(a: bv16, b: bv16)
    ensures Xor(a, 0xffff) == Xor(b, 0xffff) <==> a == b
  {
    hide Xor;
    XorTwice(a, 0xffff);
    XorTwice(b, 0xffff);
  }

  /** Every image the tool makes passes the loader's check, and no image passes once two neighbouring data bytes, or
      one, have been changed in any way. */
  lemma DamageIsFound(a: Bytes, x0: bv8, x1: bv8, c: Bytes, y0: bv8, y1: bv8)
    requires |a| + 2 + |c| < 0x1_0000_0000
    ensures var file := a + [x0, x1] + c;
      var m := Header(|file|, Signature(file)) + (a + [y0, y1] + c);
      Named(m) && (Accepted(m) <==> x0 == y0 && x1 == y1)
  {
    hide Fcs, FcsByte, Header, Accepted;
    var file, data := a + [x0, x1] + c, a + [y0, y1] + c;
    AcceptsSameFcs(file, data);
    FcsDetectsBurst(INITFCS16, a, x0, x1, y0, y1, c);
  }

  /** Also at the very end, and for one-byte files: a single changed byte is found. */
  lemma ChangedByteIsFound(file: Bytes, k: nat, y: bv8)
    requires k < |file| < 0x1_0000_0000
    ensures var m := Header(|file|, Signature(file)) + file[k := y];
      Named(m) && (Accepted(m) <==> y == file[k])
  {
    hide Fcs, FcsByte, Header, Accepted;
    AcceptsSameFcs(file, file[k := y]);
    FcsDetectsByte(INITFCS16, file[..k], file[k], y, file[k + 1..]);
    assert file == file[..k] + [file[k]] + file[k + 1..];
    assert file[k := y] == file[..k] + [y] + file[k + 1..];
  }
}
