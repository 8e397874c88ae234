/** The two CRC-16 codes of the loader and its host tools: the FCS of RFC 1662 (tools/sl_imghdr/sl_crc16.c and its copy
    src/sys/sys_crc16.c) and the most-significant-bit-first code of src/Xmodem/Xmodem_crc16.c. */
module Crc16 {
  const INITFCS16: bv16 := 0xffff
  const GOODFCS16: bv16 := 0xf0b8

  /** One row of a lookup table: the entry selected by the three low bits of the index. */
  function Pick(i: bv8, a: bv16, b: bv16, c: bv16, d: bv16, e: bv16, f: bv16, g: bv16, h: bv16): bv16 {
    if i & 4 == 0 then
      if i & 2 == 0 then (if i & 1 == 0 then a else b) else (if i & 1 == 0 then c else d)
    else
      if i & 2 == 0 then (if i & 1 == 0 then e else f) else (if i & 1 == 0 then g else h)
  }

  /** crc16_tbl of sl_crc16.c */
  function FcsTable(i: bv8): bv16 {
    if i < 0x08 then Pick(i, 0x0000, 0x1189, 0x2312, 0x329b, 0x4624, 0x57ad, 0x6536, 0x74bf)
    else if i < 0x10 then Pick(i, 0x8c48, 0x9dc1, 0xaf5a, 0xbed3, 0xca6c, 0xdbe5, 0xe97e, 0xf8f7)
    else if i < 0x18 then Pick(i, 0x1081, 0x0108, 0x3393, 0x221a, 0x56a5, 0x472c, 0x75b7, 0x643e)
    else if i < 0x20 then Pick(i, 0x9cc9, 0x8d40, 0xbfdb, 0xae52, 0xdaed, 0xcb64, 0xf9ff, 0xe876)
    else if i < 0x28 then Pick(i, 0x2102, 0x308b, 0x0210, 0x1399, 0x6726, 0x76af, 0x4434, 0x55bd)
    else if i < 0x30 then Pick(i, 0xad4a, 0xbcc3, 0x8e58, 0x9fd1, 0xeb6e, 0xfae7, 0xc87c, 0xd9f5)
    else if i < 0x38 then Pick(i, 0x3183, 0x200a, 0x1291, 0x0318, 0x77a7, 0x662e, 0x54b5, 0x453c)
    else if i < 0x40 then Pick(i, 0xbdcb, 0xac42, 0x9ed9, 0x8f50, 0xfbef, 0xea66, 0xd8fd, 0xc974)
    else if i < 0x48 then Pick(i, 0x4204, 0x538d, 0x6116, 0x709f, 0x0420, 0x15a9, 0x2732, 0x36bb)
    else if i < 0x50 then Pick(i, 0xce4c, 0xdfc5, 0xed5e, 0xfcd7, 0x8868, 0x99e1, 0xab7a, 0xbaf3)
    else if i < 0x58 then Pick(i, 0x5285, 0x430c, 0x7197, 0x601e, 0x14a1, 0x0528, 0x37b3, 0x263a)
    else if i < 0x60 then Pick(i, 0xdecd, 0xcf44, 0xfddf, 0xec56, 0x98e9, 0x8960, 0xbbfb, 0xaa72)
    else if i < 0x68 then Pick(i, 0x6306, 0x728f, 0x4014, 0x519d, 0x2522, 0x34ab, 0x0630, 0x17b9)
    else if i < 0x70 then Pick(i, 0xef4e, 0xfec7, 0xcc5c, 0xddd5, 0xa96a, 0xb8e3, 0x8a78, 0x9bf1)
    else if i < 0x78 then Pick(i, 0x7387, 0x620e, 0x5095, 0x411c, 0x35a3, 0x242a, 0x16b1, 0x0738)
    else if i < 0x80 then Pick(i, 0xffcf, 0xee46, 0xdcdd, 0xcd54, 0xb9eb, 0xa862, 0x9af9, 0x8b70)
    else if i < 0x88 then Pick(i, 0x8408, 0x9581, 0xa71a, 0xb693, 0xc22c, 0xd3a5, 0xe13e, 0xf0b7)
    else if i < 0x90 then Pick(i, 0x0840, 0x19c9, 0x2b52, 0x3adb, 0x4e64, 0x5fed, 0x6d76, 0x7cff)
    else if i < 0x98 then Pick(i, 0x9489, 0x8500, 0xb79b, 0xa612, 0xd2ad, 0xc324, 0xf1bf, 0xe036)
    else if i < 0xa0 then Pick(i, 0x18c1, 0x0948, 0x3bd3, 0x2a5a, 0x5ee5, 0x4f6c, 0x7df7, 0x6c7e)
    else if i < 0xa8 then Pick(i, 0xa50a, 0xb483, 0x8618, 0x9791, 0xe32e, 0xf2a7, 0xc03c, 0xd1b5)
    else if i < 0xb0 then Pick(i, 0x2942, 0x38cb, 0x0a50, 0x1bd9, 0x6f66, 0x7eef, 0x4c74, 0x5dfd)
    else if i < 0xb8 then Pick(i, 0xb58b, 0xa402, 0x9699, 0x8710, 0xf3af, 0xe226, 0xd0bd, 0xc134)
    else if i < 0xc0 then Pick(i, 0x39c3, 0x284a, 0x1ad1, 0x0b58, 0x7fe7, 0x6e6e, 0x5cf5, 0x4d7c)
    else if i < 0xc8 then Pick(i, 0xc60c, 0xd785, 0xe51e, 0xf497, 0x8028, 0x91a1, 0xa33a, 0xb2b3)
    else if i < 0xd0 then Pick(i, 0x4a44, 0x5bcd, 0x6956, 0x78df, 0x0c60, 0x1de9, 0x2f72, 0x3efb)
    else if i < 0xd8 then Pick(i, 0xd68d, 0xc704, 0xf59f, 0xe416, 0x90a9, 0x8120, 0xb3bb, 0xa232)
    else if i < 0xe0 then Pick(i, 0x5ac5, 0x4b4c, 0x79d7, 0x685e, 0x1ce1, 0x0d68, 0x3ff3, 0x2e7a)
    else if i < 0xe8 then Pick(i, 0xe70e, 0xf687, 0xc41c, 0xd595, 0xa12a, 0xb0a3, 0x8238, 0x93b1)
    else if i < 0xf0 then Pick(i, 0x6b46, 0x7acf, 0x4854, 0x59dd, 0x2d62, 0x3ceb, 0x0e70, 0x1ff9)
    else if i < 0xf8 then Pick(i, 0xf78f, 0xe606, 0xd49d, 0xc514, 0xb1ab, 0xa022, 0x92b9, 0x8330)
    else Pick(i, 0x7bc7, 0x6a4e, 0x58d5, 0x495c, 0x3de3, 0x2c6a, 0x1ef1, 0x0f78)
  }

  /** crc16_tbl of Xmodem_crc16.c */
  function CcittTable(i: bv8): bv16 {
    if i < 0x08 then Pick(i, 0x0000, 0x1021, 0x2042, 0x3063, 0x4084, 0x50a5, 0x60c6, 0x70e7)
    else if i < 0x10 then Pick(i, 0x8108, 0x9129, 0xa14a, 0xb16b, 0xc18c, 0xd1ad, 0xe1ce, 0xf1ef)
    else if i < 0x18 then Pick(i, 0x1231, 0x0210, 0x3273, 0x2252, 0x52b5, 0x4294, 0x72f7, 0x62d6)
    else if i < 0x20 then Pick(i, 0x9339, 0x8318, 0xb37b, 0xa35a, 0xd3bd, 0xc39c, 0xf3ff, 0xe3de)
    else if i < 0x28 then Pick(i, 0x2462, 0x3443, 0x0420, 0x1401, 0x64e6, 0x74c7, 0x44a4, 0x5485)
    else if i < 0x30 then Pick(i, 0xa56a, 0xb54b, 0x8528, 0x9509, 0xe5ee, 0xf5cf, 0xc5ac, 0xd58d)
    else if i < 0x38 then Pick(i, 0x3653, 0x2672, 0x1611, 0x0630, 0x76d7, 0x66f6, 0x5695, 0x46b4)
    else if i < 0x40 then Pick(i, 0xb75b, 0xa77a, 0x9719, 0x8738, 0xf7df, 0xe7fe, 0xd79d, 0xc7bc)
    else if i < 0x48 then Pick(i, 0x48c4, 0x58e5, 0x6886, 0x78a7, 0x0840, 0x1861, 0x2802, 0x3823)
    else if i < 0x50 then Pick(i, 0xc9cc, 0xd9ed, 0xe98e, 0xf9af, 0x8948, 0x9969, 0xa90a, 0xb92b)
    else if i < 0x58 then Pick(i, 0x5af5, 0x4ad4, 0x7ab7, 0x6a96, 0x1a71, 0x0a50, 0x3a33, 0x2a12)
    else if i < 0x60 then Pick(i, 0xdbfd, 0xcbdc, 0xfbbf, 0xeb9e, 0x9b79, 0x8b58, 0xbb3b, 0xab1a)
    else if i < 0x68 then Pick(i, 0x6ca6, 0x7c87, 0x4ce4, 0x5cc5, 0x2c22, 0x3c03, 0x0c60, 0x1c41)
    else if i < 0x70 then Pick(i, 0xedae, 0xfd8f, 0xcdec, 0xddcd, 0xad2a, 0xbd0b, 0x8d68, 0x9d49)
    else if i < 0x78 then Pick(i, 0x7e97, 0x6eb6, 0x5ed5, 0x4ef4, 0x3e13, 0x2e32, 0x1e51, 0x0e70)
    else if i < 0x80 then Pick(i, 0xff9f, 0xefbe, 0xdfdd, 0xcffc, 0xbf1b, 0xaf3a, 0x9f59, 0x8f78)
    else if i < 0x88 then Pick(i, 0x9188, 0x81a9, 0xb1ca, 0xa1eb, 0xd10c, 0xc12d, 0xf14e, 0xe16f)
    else if i < 0x90 then Pick(i, 0x1080, 0x00a1, 0x30c2, 0x20e3, 0x5004, 0x4025, 0x7046, 0x6067)
    else if i < 0x98 then Pick(i, 0x83b9, 0x9398, 0xa3fb, 0xb3da, 0xc33d, 0xd31c, 0xe37f, 0xf35e)
    else if i < 0xa0 then Pick(i, 0x02b1, 0x1290, 0x22f3, 0x32d2, 0x4235, 0x5214, 0x6277, 0x7256)
    else if i < 0xa8 then Pick(i, 0xb5ea, 0xa5cb, 0x95a8, 0x8589, 0xf56e, 0xe54f, 0xd52c, 0xc50d)
    else if i < 0xb0 then Pick(i, 0x34e2, 0x24c3, 0x14a0, 0x0481, 0x7466, 0x6447, 0x5424, 0x4405)
    else if i < 0xb8 then Pick(i, 0xa7db, 0xb7fa, 0x8799, 0x97b8, 0xe75f, 0xf77e, 0xc71d, 0xd73c)
    else if i < 0xc0 then Pick(i, 0x26d3, 0x36f2, 0x0691, 0x16b0, 0x6657, 0x7676, 0x4615, 0x5634)
    else if i < 0xc8 then Pick(i, 0xd94c, 0xc96d, 0xf90e, 0xe92f, 0x99c8, 0x89e9, 0xb98a, 0xa9ab)
    else if i < 0xd0 then Pick(i, 0x5844, 0x4865, 0x7806, 0x6827, 0x18c0, 0x08e1, 0x3882, 0x28a3)
    else if i < 0xd8 then Pick(i, 0xcb7d, 0xdb5c, 0xeb3f, 0xfb1e, 0x8bf9, 0x9bd8, 0xabbb, 0xbb9a)
    else if i < 0xe0 then Pick(i, 0x4a75, 0x5a54, 0x6a37, 0x7a16, 0x0af1, 0x1ad0, 0x2ab3, 0x3a92)
    else if i < 0xe8 then Pick(i, 0xfd2e, 0xed0f, 0xdd6c, 0xcd4d, 0xbdaa, 0xad8b, 0x9de8, 0x8dc9)
    else if i < 0xf0 then Pick(i, 0x7c26, 0x6c07, 0x5c64, 0x4c45, 0x3ca2, 0x2c83, 0x1ce0, 0x0cc1)
    else if i < 0xf8 then Pick(i, 0xef1f, 0xff3e, 0xcf5d, 0xdf7c, 0xaf9b, 0xbfba, 0x8fd9, 0x9ff8)
    else Pick(i, 0x6e17, 0x7e36, 0x4e55, 0x5e74, 0x2e93, 0x3eb2, 0x0ed1, 0x1ef0)
  }

  // ---------------------------------------------------------------- the codes bit by bit

  function Xor(a: bv16, b: bv16): bv16 { a ^ b }

  /** One bit of the generator x**0 + x**5 + x**12 + x**16, least significant bit first. */
  function FcsBit(c: bv16): bv16 {
    if c & 1 != 0 then Xor(c >> 1, 0x8408) else c >> 1
  }

  /** The same generator, most significant bit first. */
  function CcittBit(c: bv16): bv16 {
    if c & 0x8000 != 0 then Xor(c << 1, 0x1021) else c << 1
  }

  function FcsBits(c: bv16, n: nat): bv16
    decreases n
  {
    if n == 0 then c else FcsBits(FcsBit(c), n - 1)
  }

  function CcittBits(c: bv16, n: nat): bv16
    decreases n
  {
    if n == 0 then c else CcittBits(CcittBit(c), n - 1)
  }

  /** A byte enters at the low end of the register and is shifted out bit by bit. */
  function FcsByte(crc: bv16, b: bv8): bv16 {
    FcsBits(Xor(crc, b as bv16), 8)
  }

  /** A byte enters at the high end of the register and is shifted out bit by bit. */
  function CcittByte(crc: bv16, b: bv8): bv16 {
    CcittBits(Xor(crc, (b as bv16) << 8), 8)
  }

  function Fcs(crc: bv16, data: seq<bv8>): bv16
    decreases |data|
  {
    if data == [] then crc else Fcs(FcsByte(crc, data[0]), data[1..])
  }

  function Ccitt(crc: bv16, data: seq<bv8>): bv16
    decreases |data|
  {
    if data == [] then crc else Ccitt(CcittByte(crc, data[0]), data[1..])
  }

  function Low(c: bv16): bv8 { (c & 0xff) as bv8 }

  function High(c: bv16): bv8 { (c >> 8) as bv8 }

  // ---------------------------------------------------------------- words

  lemma XorSwap(a: bv16, b: bv16, k: bv16)
    ensures Xor(Xor(a, b), k) == Xor(Xor(a, k), b)
  {
  }

  lemma XorTwice(a: bv16, k: bv16)
    ensures Xor(Xor(a, k), k) == a
  {
  }

  lemma XorCommutes(a: bv16, b: bv16)
    ensures Xor(a, b) == Xor(b, a)
  {
  }

  lemma LowTapXor(z: bv16, w: bv16)
    requires w & 1 == 0
    ensures Xor(z, w) & 1 == z & 1
  {
  }

  lemma HighTapXor(z: bv16, w: bv16)
    requires w & 0x8000 == 0
    ensures Xor(z, w) & 0x8000 == z & 0x8000
  {
  }

  lemma DownXor(a: bv16, b: bv16)
    ensures Xor(a, b) >> 1 == Xor(a >> 1, b >> 1)
  {
  }

  lemma UpXor(a: bv16, b: bv16)
    ensures Xor(a, b) << 1 == Xor(a << 1, b << 1)
  {
  }

  lemma DownTap(x: bv16)
    ensures Xor(x >> 1, 0x8408) & 0x8000 != 0 && (x >> 1) & 0x8000 == 0
  {
  }

  lemma UpTap(x: bv16)
    ensures Xor(x << 1, 0x1021) & 1 != 0 && (x << 1) & 1 == 0
  {
  }

  lemma DownUp(x: bv16)
    ensures if x & 1 != 0 then ((x >> 1) << 1) | 1 == x else (x >> 1) << 1 == x
  {
  }

  lemma UpDown(x: bv16)
    ensures if x & 0x8000 != 0 then ((x << 1) >> 1) | 0x8000 == x else (x << 1) >> 1 == x
  {
  }

  // ---------------------------------------------------------------- the two shift registers

  lemma FcsPasses(z: bv16, w: bv16)
    requires w & 1 == 0
    ensures FcsBit(Xor(z, w)) == Xor(FcsBit(z), w >> 1)
  {
    hide Xor;
    LowTapXor(z, w);
    DownXor(z, w);
    XorSwap(z >> 1, w >> 1, 0x8408);
  }

  function FcsShifted(w: bv16, n: nat): bv16
    decreases n
  {
    if n == 0 then w else FcsShifted(w >> 1, n - 1)
  }

  /** The bits of w that would reach the tap in n steps are all clear. */
  predicate FcsClear(w: bv16, n: nat)
    decreases n
  {
    n == 0 || (w & 1 == 0 && FcsClear(w >> 1, n - 1))
  }

  lemma {:induction false} FcsBitsPass(z: bv16, w: bv16, n: nat)
    requires FcsClear(w, n)
    ensures FcsBits(Xor(z, w), n) == Xor(FcsBits(z, n), FcsShifted(w, n))
    decreases n
  {
    hide FcsBit, Xor;
    if n > 0 {
      FcsPasses(z, w);
      FcsBitsPass(FcsBit(z), w >> 1, n - 1);
    }
  }

  function FcsUnbit(c: bv16): bv16 {
    if c & 0x8000 != 0 then (Xor(c, 0x8408) << 1) | 1 else c << 1
  }

  lemma {:induction false} FcsBitsInjective(x: bv16, y: bv16, n: nat)
    requires FcsBits(x, n) == FcsBits(y, n)
    ensures x == y
    decreases n
  {
    hide FcsBit, FcsUnbit, Xor;
    if n > 0 {
      FcsBitsInjective(FcsBit(x), FcsBit(y), n - 1);
      FcsUndone(x);
      FcsUndone(y);
    }
  }

  lemma {:induction false} FcsBitsAdd(c: bv16, n: nat, m: nat)
    ensures FcsBits(FcsBits(c, n), m) == FcsBits(c, n + m)
    decreases n
  {
    hide FcsBit;
    if n > 0 {
      FcsBitsAdd(FcsBit(c), n - 1, m);
    }
  }

  lemma FcsBitsEight(c: bv16)
    ensures FcsBits(c, 8) == FcsBit(FcsBit(FcsBit(FcsBit(FcsBit(FcsBit(FcsBit(FcsBit(c))))))))
  {
    hide FcsBit;
    assert FcsBits(c, 8) == FcsBits(FcsBit(FcsBit(FcsBit(FcsBit(c)))), 4);
  }

  /** No step loses information: each has an inverse. */
  lemma FcsUndone(x: bv16)
    ensures FcsUnbit(FcsBit(x)) == x
  {
    hide Xor;
    DownTap(x);
    DownUp(x);
    XorTwice(x >> 1, 0x8408);
  }

  lemma CcittPasses(z: bv16, w: bv16)
    requires w & 0x8000 == 0
    ensures CcittBit(Xor(z, w)) == Xor(CcittBit(z), w << 1)
  {
    hide Xor;
    HighTapXor(z, w);
    UpXor(z, w);
    XorSwap(z << 1, w << 1, 0x1021);
  }

  function CcittShifted(w: bv16, n: nat): bv16
    decreases n
  {
    if n == 0 then w else CcittShifted(w << 1, n - 1)
  }

  /** The bits of w that would reach the tap in n steps are all clear. */
  predicate CcittClear(w: bv16, n: nat)
    decreases n
  {
    n == 0 || (w & 0x8000 == 0 && CcittClear(w << 1, n - 1))
  }

  lemma {:induction false} CcittBitsPass(z: bv16, w: bv16, n: nat)
    requires CcittClear(w, n)
    ensures CcittBits(Xor(z, w), n) == Xor(CcittBits(z, n), CcittShifted(w, n))
    decreases n
  {
    hide CcittBit, Xor;
    if n > 0 {
      CcittPasses(z, w);
      CcittBitsPass(CcittBit(z), w << 1, n - 1);
    }
  }

  function CcittUnbit(c: bv16): bv16 {
    if c & 1 != 0 then (Xor(c, 0x1021) >> 1) | 0x8000 else c >> 1
  }

  lemma {:induction false} CcittBitsInjective(x: bv16, y: bv16, n: nat)
    requires CcittBits(x, n) == CcittBits(y, n)
    ensures x == y
    decreases n
  {
    hide CcittBit, CcittUnbit, Xor;
    if n > 0 {
      CcittBitsInjective(CcittBit(x), CcittBit(y), n - 1);
      CcittUndone(x);
      CcittUndone(y);
    }
  }

  lemma {:induction false} CcittBitsAdd(c: bv16, n: nat, m: nat)
    ensures CcittBits(CcittBits(c, n), m) == CcittBits(c, n + m)
    decreases n
  {
    hide CcittBit;
    if n > 0 {
      CcittBitsAdd(CcittBit(c), n - 1, m);
    }
  }

  lemma CcittBitsEight(c: bv16)
    ensures CcittBits(c, 8) == CcittBit(CcittBit(CcittBit(CcittBit(CcittBit(CcittBit(CcittBit(CcittBit(c))))))))
  {
    hide CcittBit;
    assert CcittBits(c, 8) == CcittBits(CcittBit(CcittBit(CcittBit(CcittBit(c)))), 4);
  }

  lemma CcittUndone(x: bv16)
    ensures CcittUnbit(CcittBit(x)) == x
  {
    hide Xor;
    UpTap(x);
    UpDown(x);
    XorTwice(x << 1, 0x1021);
  }

  lemma ClearLow(w: bv16)
    requires w & 0xff == 0
    ensures FcsClear(w, 8) && FcsShifted(w, 8) == w >> 8
  {
  }

  lemma ClearHigh(w: bv16)
    requires w & 0xff00 == 0
    ensures CcittClear(w, 8) && CcittShifted(w, 8) == w << 8
  {
  }

  // ---------------------------------------------------------------- table against bits

  /** All 256 entries of the table are what eight bit steps make of the index. */
  lemma FcsTableIsBits(i: bv8)
    ensures FcsTable(i) == FcsBits(i as bv16, 8)
  {
    hide FcsBits;
    FcsBitsEight(i as bv16);
    if i < 0x80 {
      assert FcsTable(i) == FcsBit(FcsBit(FcsBit(FcsBit(FcsBit(FcsBit(FcsBit(FcsBit(i as bv16))))))));
    } else {
      assert FcsTable(i) == FcsBit(FcsBit(FcsBit(FcsBit(FcsBit(FcsBit(FcsBit(FcsBit(i as bv16))))))));
    }
  }

  lemma CcittTableIsBits(i: bv8)
    ensures CcittTable(i) == CcittBits((i as bv16) << 8, 8)
  {
    CcittBitsEight((i as bv16) << 8);
  }

  function FcsLookup(crc: bv16, b: bv8): bv16 {
    Xor(crc >> 8, FcsTable(Low(Xor(crc, b as bv16))))
  }

  function CcittLookup(crc: bv16, b: bv8): bv16 {
    Xor(CcittTable(Low(Xor(crc >> 8, b as bv16))), crc << 8)
  }

  lemma FcsSplit(crc: bv16, b: bv8)
    ensures Xor(crc, b as bv16) == Xor(Low(Xor(crc, b as bv16)) as bv16, crc & 0xff00)
    ensures (crc & 0xff00) >> 8 == crc >> 8 && (crc & 0xff00) & 0xff == 0
  {
  }

  lemma WideLow(c: bv16)
    ensures Low(c) as bv16 == c & 0xff
  {
  }

  lemma SplitWord(c: bv16, w: bv16)
    requires w & 0xff00 == 0
    ensures Xor(c, w << 8) == Xor((Xor(c >> 8, w) & 0xff) << 8, c & 0xff)
  {
  }

  lemma CcittSecondByte(x1: bv8)
    ensures (x1 as bv16) & 0xff00 == 0
  {
  }

  lemma CcittSplit(crc: bv16, b: bv8)
    ensures Xor(crc, (b as bv16) << 8) == Xor((Low(Xor(crc >> 8, b as bv16)) as bv16) << 8, crc & 0xff)
  {
    hide Low, Xor;
    WideLow(Xor(crc >> 8, b as bv16));
    CcittSecondByte(b);
    SplitWord(crc, b as bv16);
  }

  lemma LowByteUp(crc: bv16)
    ensures (crc & 0xff) << 8 == crc << 8 && (crc & 0xff) & 0xff00 == 0
  {
  }

  /** Folding in one byte through the table is the same as eight single-bit steps. */
  lemma FcsLookupIsBits(crc: bv16, b: bv8)
    ensures FcsLookup(crc, b) == FcsByte(crc, b)
  {
    hide Xor, FcsTable, FcsBits, FcsShifted, FcsClear;
    var i, w := Low(Xor(crc, b as bv16)), crc & 0xff00;
    FcsSplit(crc, b);
    ClearLow(w);
    FcsBitsPass(i as bv16, w, 8);
    FcsTableIsBits(i);
    XorCommutes(crc >> 8, FcsTable(i));
  }

  lemma CcittLookupIsBits(crc: bv16, b: bv8)
    ensures CcittLookup(crc, b) == CcittByte(crc, b)
  {
    hide Xor, CcittTable, CcittBits, CcittShifted, CcittClear;
    var i, w := Low(Xor(crc >> 8, b as bv16)), crc & 0xff;
    CcittSplit(crc, b);
    LowByteUp(crc);
    ClearHigh(w);
    CcittBitsPass((i as bv16) << 8, w, 8);
    CcittTableIsBits(i);
  }

  // ---------------------------------------------------------------- the code

  /** The loop body of sys_crc16. */
  method FcsNext(crc: bv16, b: bv8) returns (r: bv16)
    ensures r == FcsByte(crc, b)
  {
    hide FcsBits, FcsTable;
    FcsLookupIsBits(crc, b);
    r := (crc >> 8) ^ FcsTable(Low(crc ^ (b as bv16)));
  }

  /** The loop body of Xmodem_crc16. */
  method CcittNext(sum: bv16, b: bv8) returns (r: bv16)
    ensures r == CcittByte(sum, b)
  {
    hide CcittBits, CcittTable;
    CcittLookupIsBits(sum, b);
    r := CcittTable(Low((sum >> 8) ^ (b as bv16))) ^ (sum << 8);
  }

  /** sys_crc16 */
  method SysCrc16(crc: bv16, data: seq<bv8>) returns (r: bv16)
    ensures r == Fcs(crc, data)
  {
    hide FcsByte;
    r := crc;
    var i := 0;
    while i < |data|
      invariant 0 <= i <= |data|
      invariant Fcs(crc, data) == Fcs(r, data[i..])
    {
      assert data[i..][1..] == data[i + 1..];
      r := FcsNext(r, data[i]);
      i := i + 1;
    }
  }

  /** sys_check_crc16: 0 for a good frame, 1 otherwise. */
  method SysCheckCrc16(data: seq<bv8>) returns (r: int)
    ensures r == if Fcs(INITFCS16, data) == GOODFCS16 then 0 else 1
  {
    hide FcsByte;
    var crc := SysCrc16(INITFCS16, data);
    r := if crc == GOODFCS16 then 0 else 1;
  }

  /** sys_gen_crc16 */
  method SysGenCrc16(data: seq<bv8>) returns (r: bv16)
    ensures r == Signature(data)
  {
    hide FcsByte;
    r := SysCrc16(INITFCS16, data);
    r := r ^ 0xffff;
  }

  /** Xmodem_crc16 */
  method XmodemCrc16(data: seq<bv8>) returns (sum: bv16)
    ensures sum == Ccitt(0, data)
  {
    hide CcittByte;
    sum := 0;
    for i := 0 to |data|
      invariant Ccitt(0, data) == Ccitt(sum, data[i..])
    {
      assert data[i..][1..] == data[i + 1..];
      sum := CcittNext(sum, data[i]);
    }
  }

  // ---------------------------------------------------------------- laws of the codes

  /** The complemented FCS that a sender appends, low byte first. */
  function Signature(data: seq<bv8>): bv16 {
    Xor(Fcs(INITFCS16, data), 0xffff)
  }

  /** Chunk by chunk is the same as all at once. */
  lemma {:induction false} FcsConcat(crc: bv16, a: seq<bv8>, b: seq<bv8>)
    ensures Fcs(crc, a + b) == Fcs(Fcs(crc, a), b)
    decreases |a|
  {
    hide FcsByte;
    if a == [] {
      assert a + b == b;
    } else {
      assert (a + b)[1..] == a[1..] + b;
      FcsConcat(FcsByte(crc, a[0]), a[1..], b);
    }
  }

  lemma FcsTwo(crc: bv16, x0: bv8, x1: bv8)
    ensures Fcs(crc, [x0, x1]) == FcsByte(FcsByte(crc, x0), x1)
  {
    hide FcsByte;
    assert [x0, x1][1..] == [x1] && [x1][1..] == [];
    assert Fcs(FcsByte(crc, x0), [x1]) == Fcs(FcsByte(FcsByte(crc, x0), x1), []);
  }

  lemma FcsByteInjective(c: bv16, d: bv16, b: bv8)
    requires FcsByte(c, b) == FcsByte(d, b)
    ensures c == d
  {
    hide FcsBits, Xor;
    var k := b as bv16;
    FcsBitsInjective(Xor(c, k), Xor(d, k), 8);
    XorTwice(c, k);
    XorTwice(d, k);
  }

  /** Different registers never meet again over the same bytes. */
  lemma {:induction false} FcsInjective(c: bv16, d: bv16, data: seq<bv8>)
    ensures Fcs(c, data) == Fcs(d, data) <==> c == d
    decreases |data|
  {
    hide FcsByte;
    if data != [] {
      FcsInjective(FcsByte(c, data[0]), FcsByte(d, data[0]), data[1..]);
      if FcsByte(c, data[0]) == FcsByte(d, data[0]) { FcsByteInjective(c, d, data[0]); }
    }
  }

  function FcsWord(x0: bv8, x1: bv8): bv16 {
    Xor(x0 as bv16, (x1 as bv16) << 8)
  }

  lemma FcsWords(crc: bv16, x0: bv8, x1: bv8)
    ensures Xor(Xor(crc, x0 as bv16), (x1 as bv16) << 8) == Xor(crc, FcsWord(x0, x1))
  {
  }

  lemma FcsSecondByte(x1: bv8)
    ensures ((x1 as bv16) << 8) & 0xff == 0 && ((x1 as bv16) << 8) >> 8 == x1 as bv16
  {
  }

  /** Two bytes at a time: the 16-bit register takes them in like one word. */
  lemma FcsPair(crc: bv16, x0: bv8, x1: bv8)
    ensures FcsByte(FcsByte(crc, x0), x1) == FcsBits(Xor(crc, FcsWord(x0, x1)), 16)
  {
    hide FcsBits, Xor, FcsWord, FcsShifted, FcsClear;
    var z, w := Xor(crc, x0 as bv16), (x1 as bv16) << 8;
    FcsSecondByte(x1);
    ClearLow(w);
    FcsBitsPass(z, w, 8);
    FcsBitsAdd(Xor(z, w), 8, 8);
    FcsWords(crc, x0, x1);
  }

  lemma FcsWordInjective(x0: bv8, x1: bv8, y0: bv8, y1: bv8)
    requires FcsWord(x0, x1) == FcsWord(y0, y1)
    ensures x0 == y0 && x1 == y1
  {
  }

  lemma FcsPairInjective(crc: bv16, x0: bv8, x1: bv8, y0: bv8, y1: bv8)
    requires FcsByte(FcsByte(crc, x0), x1) == FcsByte(FcsByte(crc, y0), y1)
    ensures x0 == y0 && x1 == y1
  {
    hide FcsBits, Xor, FcsWord, FcsByte;
    var p, q := FcsWord(x0, x1), FcsWord(y0, y1);
    FcsPair(crc, x0, x1);
    FcsPair(crc, y0, y1);
    FcsBitsInjective(Xor(crc, p), Xor(crc, q), 16);
    XorCommutes(crc, p);
    XorCommutes(crc, q);
    XorTwice(p, crc);
    XorTwice(q, crc);
    FcsWordInjective(x0, x1, y0, y1);
  }

  /** A change confined to two neighbouring bytes, anywhere in the data, always changes the code. */
  lemma FcsDetectsBurst(crc: bv16, a: seq<bv8>, x0: bv8, x1: bv8, y0: bv8, y1: bv8, c: seq<bv8>)
    ensures Fcs(crc, a + [x0, x1] + c) == Fcs(crc, a + [y0, y1] + c) <==> x0 == y0 && x1 == y1
  {
    hide FcsByte, Fcs;
    FcsConcat(crc, a + [x0, x1], c);
    FcsConcat(crc, a + [y0, y1], c);
    FcsConcat(crc, a, [x0, x1]);
    FcsConcat(crc, a, [y0, y1]);
    FcsTwo(Fcs(crc, a), x0, x1);
    FcsTwo(Fcs(crc, a), y0, y1);
    FcsInjective(Fcs(crc, a + [x0, x1]), Fcs(crc, a + [y0, y1]), c);
    if Fcs(crc, a + [x0, x1]) == Fcs(crc, a + [y0, y1]) {
      FcsPairInjective(Fcs(crc, a), x0, x1, y0, y1);
    }
  }

  /** Chunk by chunk is the same as all at once. */
  lemma {:induction false} CcittConcat(crc: bv16, a: seq<bv8>, b: seq<bv8>)
    ensures Ccitt(crc, a + b) == Ccitt(Ccitt(crc, a), b)
    decreases |a|
  {
    hide CcittByte;
    if a == [] {
      assert a + b == b;
    } else {
      assert (a + b)[1..] == a[1..] + b;
      CcittConcat(CcittByte(crc, a[0]), a[1..], b);
    }
  }

  lemma CcittTwo(crc: bv16, x0: bv8, x1: bv8)
    ensures Ccitt(crc, [x0, x1]) == CcittByte(CcittByte(crc, x0), x1)
  {
    hide CcittByte;
    assert [x0, x1][1..] == [x1] && [x1][1..] == [];
    assert Ccitt(CcittByte(crc, x0), [x1]) == Ccitt(CcittByte(CcittByte(crc, x0), x1), []);
  }

  lemma CcittByteInjective(c: bv16, d: bv16, b: bv8)
    requires CcittByte(c, b) == CcittByte(d, b)
    ensures c == d
  {
    hide CcittBits, Xor;
    var k := (b as bv16) << 8;
    CcittBitsInjective(Xor(c, k), Xor(d, k), 8);
    XorTwice(c, k);
    XorTwice(d, k);
  }

  /** Different registers never meet again over the same bytes. */
  lemma {:induction false} CcittInjective(c: bv16, d: bv16, data: seq<bv8>)
    ensures Ccitt(c, data) == Ccitt(d, data) <==> c == d
    decreases |data|
  {
    hide CcittByte;
    if data != [] {
      CcittInjective(CcittByte(c, data[0]), CcittByte(d, data[0]), data[1..]);
      if CcittByte(c, data[0]) == CcittByte(d, data[0]) { CcittByteInjective(c, d, data[0]); }
    }
  }

  function CcittWord(x0: bv8, x1: bv8): bv16 {
    Xor((x0 as bv16) << 8, x1 as bv16)
  }

  lemma CcittWords(crc: bv16, x0: bv8, x1: bv8)
    ensures Xor(Xor(crc, (x0 as bv16) << 8), x1 as bv16) == Xor(crc, CcittWord(x0, x1))
  {
  }

  /** Two bytes at a time: the 16-bit register takes them in like one word. */
  lemma CcittPair(crc: bv16, x0: bv8, x1: bv8)
    ensures CcittByte(CcittByte(crc, x0), x1) == CcittBits(Xor(crc, CcittWord(x0, x1)), 16)
  {
    hide CcittBits, Xor, CcittWord, CcittShifted, CcittClear;
    var z, w := Xor(crc, (x0 as bv16) << 8), x1 as bv16;
    CcittSecondByte(x1);
    ClearHigh(w);
    CcittBitsPass(z, w, 8);
    CcittBitsAdd(Xor(z, w), 8, 8);
    CcittWords(crc, x0, x1);
  }

  lemma CcittWordInjective(x0: bv8, x1: bv8, y0: bv8, y1: bv8)
    requires CcittWord(x0, x1) == CcittWord(y0, y1)
    ensures x0 == y0 && x1 == y1
  {
  }

  lemma CcittPairInjective(crc: bv16, x0: bv8, x1: bv8, y0: bv8, y1: bv8)
    requires CcittByte(CcittByte(crc, x0), x1) == CcittByte(CcittByte(crc, y0), y1)
    ensures x0 == y0 && x1 == y1
  {
    hide CcittBits, Xor, CcittWord, CcittByte;
    var p, q := CcittWord(x0, x1), CcittWord(y0, y1);
    CcittPair(crc, x0, x1);
    CcittPair(crc, y0, y1);
    CcittBitsInjective(Xor(crc, p), Xor(crc, q), 16);
    XorCommutes(crc, p);
    XorCommutes(crc, q);
    XorTwice(p, crc);
    XorTwice(q, crc);
    CcittWordInjective(x0, x1, y0, y1);
  }

  /** A change confined to two neighbouring bytes, anywhere in the data, always changes the code. */
  lemma CcittDetectsBurst(crc: bv16, a: seq<bv8>, x0: bv8, x1: bv8, y0: bv8, y1: bv8, c: seq<bv8>)
    ensures Ccitt(crc, a + [x0, x1] + c) == Ccitt(crc, a + [y0, y1] + c) <==> x0 == y0 && x1 == y1
  {
    hide CcittByte, Ccitt;
    CcittConcat(crc, a + [x0, x1], c);
    CcittConcat(crc, a + [y0, y1], c);
    CcittConcat(crc, a, [x0, x1]);
    CcittConcat(crc, a, [y0, y1]);
    CcittTwo(Ccitt(crc, a), x0, x1);
    CcittTwo(Ccitt(crc, a), y0, y1);
    CcittInjective(Ccitt(crc, a + [x0, x1]), Ccitt(crc, a + [y0, y1]), c);
    if Ccitt(crc, a + [x0, x1]) == Ccitt(crc, a + [y0, y1]) {
      CcittPairInjective(Ccitt(crc, a), x0, x1, y0, y1);
    }
  }

  lemma FcsOne(crc: bv16, x: bv8)
    ensures Fcs(crc, [x]) == FcsByte(crc, x)
  {
    hide FcsByte;
    assert [x][1..] == [];
  }

  /** A single changed byte always changes the code. */
  lemma FcsDetectsByte(crc: bv16, a: seq<bv8>, x: bv8, y: bv8, c: seq<bv8>)
    ensures Fcs(crc, a + [x] + c) == Fcs(crc, a + [y] + c) <==> x == y
  {
    hide FcsByte, Fcs;
    FcsConcat(crc, a + [x], c);
    FcsConcat(crc, a + [y], c);
    FcsConcat(crc, a, [x]);
    FcsConcat(crc, a, [y]);
    FcsOne(Fcs(crc, a), x);
    FcsOne(Fcs(crc, a), y);
    FcsInjective(Fcs(crc, a + [x]), Fcs(crc, a + [y]), c);
    if FcsByte(Fcs(crc, a), x) == FcsByte(Fcs(crc, a), y) {
      FcsPairInjective(Fcs(crc, a), x, 0, y, 0);
    }
  }

  // ---------------------------------------------------------------- good residues

  lemma FcsSignedByte(crc: bv16)
    ensures FcsByte(crc, Low(Xor(crc, 0xffff))) == Xor(crc >> 8, 0x0f78)
  {
    hide FcsBits;
    FcsLookupIsBits(crc, Low(Xor(crc, 0xffff)));
    assert Low(Xor(crc, Low(Xor(crc, 0xffff)) as bv16)) == 0xff;
  }

  lemma FcsSignedPair(crc: bv16)
    ensures FcsByte(Xor(crc >> 8, 0x0f78), High(Xor(crc, 0xffff))) == GOODFCS16
  {
    hide FcsBits;
    FcsLookupIsBits(Xor(crc >> 8, 0x0f78), High(Xor(crc, 0xffff)));
    assert Low(Xor(Xor(crc >> 8, 0x0f78), High(Xor(crc, 0xffff)) as bv16)) == 0x87;
    assert Xor(crc >> 8, 0x0f78) >> 8 == 0x0f;
  }

  lemma HighCancels(crc: bv16)
    ensures Low(Xor(crc >> 8, High(crc) as bv16)) == 0
  {
  }

  lemma LowCancels(crc: bv16)
    ensures Low(Xor((crc << 8) >> 8, Low(crc) as bv16)) == 0 && (crc << 8) << 8 == 0
  {
  }

  lemma FirstEntry(c: bv16)
    ensures Xor(CcittTable(0), c) == c
  {
  }

  lemma CcittOwnByte(crc: bv16)
    ensures CcittByte(crc, High(crc)) == crc << 8
  {
    hide CcittByte, CcittTable, Xor, Low, High;
    CcittLookupIsBits(crc, High(crc));
    HighCancels(crc);
    FirstEntry(crc << 8);
  }

  lemma CcittOwnPair(crc: bv16)
    ensures CcittByte(crc << 8, Low(crc)) == 0
  {
    hide CcittByte, CcittTable, Xor, Low, High;
    CcittLookupIsBits(crc << 8, Low(crc));
    LowCancels(crc);
    FirstEntry(0);
  }

  /** From any register, the two bytes that drive the code to the good residue are the complemented register, low byte
      first, and no others. */
  lemma GoodResidue(crc: bv16, lo: bv8, hi: bv8)
    ensures FcsByte(FcsByte(crc, lo), hi) == GOODFCS16 <==> lo == Low(Xor(crc, 0xffff)) && hi == High(Xor(crc, 0xffff))
  {
    hide FcsByte, Xor, Low, High;
    FcsSignedByte(crc);
    FcsSignedPair(crc);
    if FcsByte(FcsByte(crc, lo), hi) == GOODFCS16 {
      FcsPairInjective(crc, lo, hi, Low(Xor(crc, 0xffff)), High(Xor(crc, 0xffff)));
    }
  }

  lemma ZeroResidue(crc: bv16, hi: bv8, lo: bv8)
    ensures CcittByte(CcittByte(crc, hi), lo) == 0 <==> hi == High(crc) && lo == Low(crc)
  {
    hide CcittByte, Xor, Low, High;
    CcittOwnByte(crc);
    CcittOwnPair(crc);
    if CcittByte(CcittByte(crc, hi), lo) == 0 {
      CcittPairInjective(crc, hi, lo, High(crc), Low(crc));
    }
  }

  /** Section C.2 of RFC 1662: sys_check_crc16 accepts data followed by two bytes exactly when those are what
      sys_gen_crc16 signs the data with, low byte first. */
  lemma CheckAcceptsExactlySigned(data: seq<bv8>, lo: bv8, hi: bv8)
    ensures Fcs(INITFCS16, data + [lo, hi]) == GOODFCS16 <==> lo == Low(Signature(data)) && hi == High(Signature(data))
  {
    hide FcsByte, Fcs, Low, High;
    FcsConcat(INITFCS16, data, [lo, hi]);
    FcsTwo(Fcs(INITFCS16, data), lo, hi);
    GoodResidue(Fcs(INITFCS16, data), lo, hi);
  }

  /** A block followed by its own CRC, high byte first, has CRC 0, and no other two bytes have that effect. */
  lemma CcittZeroExactlyOwn(data: seq<bv8>, hi: bv8, lo: bv8)
    ensures Ccitt(0, data + [hi, lo]) == 0 <==> hi == High(Ccitt(0, data)) && lo == Low(Ccitt(0, data))
  {
    hide CcittByte, Ccitt, Low, High;
    CcittConcat(0, data, [hi, lo]);
    CcittTwo(Ccitt(0, data), hi, lo);
    ZeroResidue(Ccitt(0, data), hi, lo);
  }
}
