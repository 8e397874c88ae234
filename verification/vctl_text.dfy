/** The text side of the version control records: printing numbers (src/sys/sys_printf.c), parsing them back
    (src/sys/sys_string.c) and finding a word in a text (src/sys/sys_vctl.c).  A C string is a run of bytes without its
    terminating zero. */
module VctlText {
  import opened ByteData

  // ---------------------------------------------------------------- printing numbers

  /** "0123456789ABCDEF"[d] */
  function DigitChar(d: nat): (c: byte)
    requires d < 16
    ensures c != 0
  {
    if d < 10 then 48 + d else 55 + d
  }

  /** A number in a radix, most significant digit first. */
  function Digits(n: nat, radix: nat): (s: Bytes)
    requires 2 <= radix <= 16
    ensures |s| > 0 && 0 !in s
    decreases n
  {
    if n < radix then [DigitChar(n)]
    else
      Shrinks(n, radix);
      Digits(n / radix, radix) + [DigitChar(n % radix)]
  }

  lemma Shrinks(n: nat, radix: nat)
    requires 2 <= radix <= n
    ensures 0 < n / radix < n
  {
    assert n == radix * (n / radix) + n % radix;
    if n / radix >= n { Product(radix, n / radix, n); }
  }

  lemma Product(r: nat, q: nat, n: nat)
    requires r >= 2 && q >= n
    ensures r * q >= 2 * n
  {
  }

  function Reversed(s: Bytes): (r: Bytes)
    ensures |r| == |s|
  {
    if s == [] then [] else Reversed(s[1..]) + [s[0]]
  }

  lemma {:induction false} ReversedSnoc(s: Bytes, c: byte)
    ensures Reversed(s + [c]) == [c] + Reversed(s)
  {
    if s != [] {
      assert (s + [c])[0] == s[0] && (s + [c])[1..] == s[1..] + [c];
      ReversedSnoc(s[1..], c);
      assert Reversed(s + [c]) == [c] + Reversed(s[1..]) + [s[0]] == [c] + (Reversed(s[1..]) + [s[0]]);
    }
  }

  /** _cvt: the digits are produced last one first, then turned round. */
  method Cvt(n: nat, radix: nat) returns (text: Bytes)
    requires radix == 10 || radix == 16
    ensures text == Digits(n, radix)
  {
    hide Digits, Reversed;
    var temp: Bytes := [];
    if n == 0 {
      temp := [48];
      DigitsEnd(n, radix);
      ReversedSnoc([], 48);
      ReversedEmpty();
      assert [] + temp == temp && temp + [] == temp;
    } else {
      var val: nat := n;
      ReversedEmpty();
      assert Digits(n, radix) + [] == Digits(n, radix);
      while val != 0
        invariant val == 0 ==> Reversed(temp) == Digits(n, radix)
        invariant val > 0 ==> Digits(val, radix) + Reversed(temp) == Digits(n, radix)
        decreases val
      {
        var d := DigitChar(val % radix);
        ReversedSnoc(temp, d);
        DigitsEnd(val, radix);
        assert Digits(val, radix) + Reversed(temp) ==
               (if val / radix == 0 then [] else Digits(val / radix, radix)) + ([d] + Reversed(temp));
        temp := temp + [d];
        val := val / radix;
      }
    }
    text := TurnRound(temp);
  }

  lemma DigitsEnd(n: nat, radix: nat)
    requires 2 <= radix <= 16
    ensures n / radix == 0 ==> Digits(n, radix) == [DigitChar(n % radix)]
    ensures n / radix > 0 ==> n / radix < n && Digits(n, radix) == Digits(n / radix, radix) + [DigitChar(n % radix)]
    ensures n > 0 ==> n / radix < n
  {
    if n >= radix { Shrinks(n, radix); } else { SmallQuotient(n, radix); }
  }

  lemma SmallQuotient(n: nat, radix: nat)
    requires n < radix
    ensures n / radix == 0 && n % radix == n
  {
  }

  lemma ReversedEmpty()
    ensures Reversed([]) == []
  {
  }

  /** The second loop of _cvt. */
  method TurnRound(temp: Bytes) returns (text: Bytes)
    ensures text == Reversed(temp)
  {
    text := [];
    var cp := |temp|;
    assert temp[cp..] == [] && temp[..cp] == temp;
    while cp != 0
      invariant cp <= |temp|
      invariant text + Reversed(temp[..cp]) == Reversed(temp)
    {
      cp := cp - 1;
      ReversedSnoc(temp[..cp], temp[cp]);
      assert temp[..cp + 1] == temp[..cp] + [temp[cp]];
      text := text + [temp[cp]];
    }
  }

  /** What %d (width 0) and %02X (width 2) print. */
  function Padded(n: nat, radix: nat, width: nat): (s: Bytes)
    requires 2 <= radix <= 16
    ensures |s| > 0 && 0 !in s
  {
    var s := Digits(n, radix);
    (if width > |s| then seq(width - |s|, _ => 48 as byte) else []) + s
  }

  /** A format string taken apart: text without line feeds, %d, and %0<width>X. */
  datatype Piece = Plain(text: Bytes) | Decimal(n: nat) | Hex(n: nat, width: nat)

  function ShowOne(p: Piece): Bytes {
    match p
    case Plain(text) => text
    case Decimal(n) => Padded(n, 10, 0)
    case Hex(n, width) => Padded(n, 16, width)
  }

  function Show(ps: seq<Piece>): Bytes {
    if ps == [] then [] else ShowOne(ps[0]) + Show(ps[1..])
  }

  /** printf_putc for every byte of a text: the string in the buffer is terminated again after each. */
  method PutText(buf: array<byte>, at: nat, text: Bytes) returns (end: nat)
    requires at + |text| < buf.Length
    modifies buf
    ensures end == at + |text|
    ensures buf[..at] == old(buf[..at]) && buf[at..end] == text && buf[end + 1..] == old(buf[end + 1..])
    ensures buf[end] == if text == [] then old(buf[at]) else 0
  {
    end := at;
    var i := 0;
    while i < |text|
      invariant i <= |text| && end == at + i
      invariant forall k :: 0 <= k < buf.Length ==>
        buf[k] == if at <= k < end then text[k - at] else if k == end && i > 0 then 0 else old(buf[k])
    {
      buf[end] := text[i];
      buf[end + 1] := 0;
      i, end := i + 1, end + 1;
    }
  }

  /** sys_sprintf */
  method Sprintf(buf: array<byte>, at: nat, ps: seq<Piece>) returns (len: nat)
    requires ps != [] && at + |Show(ps)| < buf.Length && |ShowOne(ps[0])| > 0
    modifies buf
    ensures len == |Show(ps)|
    ensures buf[..at] == old(buf[..at]) && buf[at..at + len] == Show(ps) && buf[at + len] == 0
    ensures buf[at + len + 1..] == old(buf[at + len + 1..])
  {
    hide Show, ShowOne;
    ShowSplit(ps, 0);
    var i, end := 0, at;
    ghost var b := buf[..];
    while i < |ps|
      invariant i <= |ps| && end == at + |Show(ps[..i])| && |Show(ps[..i])| <= |Show(ps)|
      invariant i > 0 ==> buf[end] == 0
      invariant buf[..at] == b[..at] && buf[at..end] == Show(ps[..i]) && buf[end + 1..] == b[end + 1..]
    {
      ShowSplit(ps, i);
      var text := PieceText(ps[i]);
      ghost var before := buf[..];
      var next := PutText(buf, end, text);
      Appended(b, before, buf[..], at, end, next, Show(ps[..i]), text);
      end := next;
      i := i + 1;
    }
    assert ps[..i] == ps;
    len := end - at;
  }

  method PieceText(p: Piece) returns (text: Bytes)
    ensures text == ShowOne(p)
  {
    hide Padded;
    match p {
      case Plain(s) => text := s;
      case Decimal(n) => text := Convert(n, 10, 0);
      case Hex(n, width) => text := Convert(n, 16, width);
    }
  }

  /** One conversion of sys_vprintf: the padding, then the digits. */
  method Convert(n: nat, radix: nat, width: nat) returns (text: Bytes)
    requires radix == 10 || radix == 16
    ensures text == Padded(n, radix, width)
  {
    var digits := Cvt(n, radix);
    var pad := width - |digits|;
    text := [];
    while pad > 0
      invariant pad > 0 ==> |text| + pad == width - |digits|
      invariant pad <= 0 ==> |text| == if width > |digits| then width - |digits| else 0
      invariant forall k :: 0 <= k < |text| ==> text[k] == 48
    {
      text := text + [48];
      pad := pad - 1;
    }
    text := text + digits;
  }

  lemma ShowSplit(ps: seq<Piece>, i: nat)
    requires i < |ps|
    ensures Show(ps[..0]) == []
    ensures Show(ps[..i + 1]) == Show(ps[..i]) + ShowOne(ps[i])
    ensures |Show(ps[..i + 1])| <= |Show(ps)|
  {
    hide ShowOne;
    ShowConcat(ps[..i], [ps[i]]);
    assert ps[..i + 1] == ps[..i] + [ps[i]];
    assert [ps[i]][1..] == [];
    ShowConcat(ps[..i + 1], ps[i + 1..]);
    assert ps == ps[..i + 1] + ps[i + 1..];
  }

  lemma {:induction false} ShowConcat(a: seq<Piece>, b: seq<Piece>)
    ensures Show(a + b) == Show(a) + Show(b)
  {
    hide ShowOne;
    if a == [] {
      assert a + b == b;
    } else {
      assert (a + b)[0] == a[0] && (a + b)[1..] == a[1..] + b;
      ShowConcat(a[1..], b);
    }
  }

  lemma Appended(b: Bytes, before: Bytes, after: Bytes, at: nat, end: nat, next: nat, done: Bytes, text: Bytes)
    requires |b| == |before| == |after| && at <= end <= next < |b| && next == end + |text|
    requires before[..at] == b[..at] && before[at..end] == done && before[end + 1..] == b[end + 1..]
    requires after[..end] == before[..end] && after[end..next] == text && after[next + 1..] == before[next + 1..]
    ensures after[..at] == b[..at] && after[at..next] == done + text && after[next + 1..] == b[next + 1..]
  {
    assert after[..at] == after[..end][..at] == before[..end][..at] == before[..at];
    assert after[at..end] == after[..end][at..] == before[..end][at..] == before[at..end];
    assert after[at..next] == after[at..end] + after[end..next];
    assert before[next + 1..] == before[end + 1..][next - end..] == b[end + 1..][next - end..] == b[next + 1..];
  }

  // ---------------------------------------------------------------- parsing numbers

  const BAD := 0xFFFF_FFFF

  function Char2Hex(c: byte): (v: nat)
    ensures v < WORD_LIMIT
  {
    if 48 <= c <= 57 then c - 48 else if 97 <= c <= 102 then c - 87 else if 65 <= c <= 70 then c - 55 else BAD
  }

  function Char2Decimal(c: byte): (v: nat)
    ensures v == BAD || v < 10
  {
    if 48 <= c <= 57 then c - 48 else BAD
  }

  predicate IsDecimal(c: byte) { 48 <= c <= 57 }

  /** The character at an index; the terminating zero at the end. */
  function At(s: Bytes, i: nat): byte { if i < |s| then s[i] else 0 }

  /** The value of a run of decimal digits behind what has been read already, in 32 bits. */
  function Value(s: Bytes, acc: nat): nat
  {
    if s == [] then acc else Value(s[1..], (acc * 10 + Char2Decimal(s[0])) % WORD_LIMIT)
  }

  /** How many digits a string starts with. */
  function Run(s: Bytes): (n: nat)
    ensures n <= |s| && (forall k :: 0 <= k < n ==> IsDecimal(s[k])) && !IsDecimal(At(s, n))
  {
    if s != [] && IsDecimal(s[0]) then 1 + Run(s[1..]) else 0
  }

  /** The numbers that str2ip reads from field number i on; None when a dot is missing. */
  function Fields(s: Bytes, i: nat): (r: Option<seq<nat>>)
    requires i <= 3
    ensures r.Some? ==> |r.value| == 4 - i
    decreases 3 - i
  {
    var n := Run(s);
    var v := Value(s[..n], 0);
    if i == 3 then Some([v])
    else if At(s, n) != 46 then None
    else
      var rest := Fields(s[n + 1..], i + 1);
      if rest.None? then None else Some([v] + rest.value)
  }

  /** IPIV, in 32 bits. */
  function Iv(f: seq<nat>): (n: nat)
    requires |f| == 4
    ensures n < WORD_LIMIT
  {
    (f[0] * 0x100_0000 + f[1] * 0x1_0000 + f[2] * 0x100 + f[3]) % WORD_LIMIT
  }

  function Str2Ip(s: Bytes): (n: nat)
    ensures n < WORD_LIMIT
  {
    var f := Fields(s, 0);
    if f.None? then 0 else Iv(f.value)
  }

  /** str2ip, with its loops. */
  method ParseIpNumber(s: Bytes) returns (r: nat)
    ensures r == Str2Ip(s)
  {
    hide Run, Value, Iv, Fields;
    var ip: seq<nat> := [];
    var cp: nat := 0;
    assert s[0..] == s;
    JoinNothing(Fields(s, 0));
    while |ip| < 4
      invariant |ip| <= 4 && cp <= |s| + 1 && (|ip| < 4 ==> cp <= |s|)
      invariant |ip| < 4 ==> Fields(s, 0) == Joined(ip, Fields(s[cp..], |ip|))
      invariant |ip| == 4 ==> Fields(s, 0) == Some(ip)
      decreases 4 - |ip|
    {
      ghost var rest, n := s[cp..], Run(s[cp..]);
      FieldStep(s, rest, ip);
      var v;
      v, cp := ReadField(s, cp);
      if |ip| < 3 && At(s, cp) != 46 {
        return 0;
      }
      if |ip| < 3 { assert rest[n + 1..] == s[cp + 1..]; }
      ip := ip + [v];
      cp := cp + 1;
    }
    return Iv(ip);
  }

  function Joined(ip: seq<nat>, f: Option<seq<nat>>): Option<seq<nat>> {
    if f.None? then None else Some(ip + f.value)
  }

  lemma JoinNothing(f: Option<seq<nat>>)
    ensures Joined([], f) == f
  {
    if f.Some? { assert [] + f.value == f.value; }
  }

  lemma FieldStep(s: Bytes, rest: Bytes, ip: seq<nat>)
    requires |ip| <= 3 && Fields(s, 0) == Joined(ip, Fields(rest, |ip|))
    ensures var n := Run(rest); var v := Value(rest[..n], 0);
      if |ip| == 3 then Fields(s, 0) == Some(ip + [v])
      else if At(rest, n) != 46 then Fields(s, 0) == None
      else Fields(s, 0) == Joined(ip + [v], Fields(rest[n + 1..], |ip| + 1))
  {
    hide Run, Value, Joined, Fields;
    var n := Run(rest);
    var v := Value(rest[..n], 0);
    FieldsUnfold(rest, |ip|);
    if |ip| == 3 {
      JoinLast(ip, v);
    } else if At(rest, n) == 46 {
      JoinTwice(ip, v, Fields(rest[n + 1..], |ip| + 1));
    } else {
      JoinNone(ip);
    }
  }

  lemma FieldsUnfold(rest: Bytes, i: nat)
    requires i <= 3
    ensures var n := Run(rest); var v := Value(rest[..n], 0);
      Fields(rest, i) == if i == 3 then Some([v]) else if At(rest, n) != 46 then None
                         else Joined([v], Fields(rest[n + 1..], i + 1))
  {
    hide Run, Value;
  }

  lemma JoinLast(ip: seq<nat>, v: nat)
    ensures Joined(ip, Some([v])) == Some(ip + [v])
  {
  }

  lemma JoinNone(ip: seq<nat>)
    ensures Joined(ip, None) == None
  {
  }

  lemma JoinTwice(ip: seq<nat>, v: nat, f: Option<seq<nat>>)
    ensures Joined(ip, Joined([v], f)) == Joined(ip + [v], f)
  {
    if f.Some? { assert ip + ([v] + f.value) == ip + [v] + f.value; }
  }

  /** The inner loop of str2ip. */
  method ReadField(s: Bytes, start: nat) returns (v: nat, cp: nat)
    requires start <= |s|
    ensures cp == start + Run(s[start..]) && v == Value(s[start..][..Run(s[start..])], 0)
    ensures At(s[start..], Run(s[start..])) == At(s, cp)
  {
    hide Value;
    v, cp := 0, start;
    ghost var t, n := s[start..], Run(s[start..]);
    assert t[0..n] == t[..n];
    while Char2Decimal(At(s, cp)) != BAD
      invariant start <= cp <= start + n
      invariant Value(t[cp - start..n], v) == Value(t[..n], 0)
      decreases start + n - cp
    {
      ghost var k := cp - start;
      assert At(t, k) == At(s, cp);
      ValueStep(t, k, n, v);
      v := (v * 10 + Char2Decimal(At(s, cp))) % WORD_LIMIT;
      cp := cp + 1;
    }
    assert At(t, cp - start) == At(s, cp);
    ValueEnd(t, n, v);
  }

  lemma ValueStep(t: Bytes, k: nat, n: nat, v: nat)
    requires k < n <= |t|
    ensures Value(t[k..n], v) == Value(t[k + 1..n], (v * 10 + Char2Decimal(t[k])) % WORD_LIMIT)
  {
    assert t[k..n][0] == t[k] && t[k..n][1..] == t[k + 1..n];
  }

  lemma ValueEnd(t: Bytes, n: nat, v: nat)
    requires n <= |t|
    ensures Value(t[n..n], v) == v
  {
  }

  // ---------------------------------------------------------------- printed numbers read back

  lemma {:induction false} DecimalDigits(n: nat)
    ensures forall k :: 0 <= k < |Digits(n, 10)| ==> IsDecimal(Digits(n, 10)[k])
    decreases n
  {
    if n >= 10 {
      DecimalDigits(n / 10);
    }
  }

  lemma {:induction false} ValueSnoc(s: Bytes, c: byte, acc: nat)
    ensures Value(s + [c], acc) == (Value(s, acc) * 10 + Char2Decimal(c)) % WORD_LIMIT
  {
    if s == [] {
      assert (s + [c])[0] == c && (s + [c])[1..] == [];
    } else {
      assert (s + [c])[0] == s[0] && (s + [c])[1..] == s[1..] + [c];
      ValueSnoc(s[1..], c, (acc * 10 + Char2Decimal(s[0])) % WORD_LIMIT);
    }
  }

  /** A printed number is read back as itself. */
  lemma {:induction false} ValueOfDigits(n: nat)
    requires n < WORD_LIMIT
    ensures (forall k :: 0 <= k < |Digits(n, 10)| ==> IsDecimal(Digits(n, 10)[k])) && Value(Digits(n, 10), 0) == n
    decreases n
  {
    DecimalDigits(n);
    if n < 10 {
      assert Digits(n, 10)[1..] == [];
    } else {
      ValueOfDigits(n / 10);
      ValueSnoc(Digits(n / 10, 10), DigitChar(n % 10), 0);
    }
  }

  lemma {:induction false} RunOf(s: Bytes, rest: Bytes)
    requires (forall k :: 0 <= k < |s| ==> IsDecimal(s[k])) && !IsDecimal(At(rest, 0))
    ensures Run(s + rest) == |s| && (s + rest)[..|s|] == s && (s + rest)[|s|..] == rest
        && At(s + rest, |s|) == At(rest, 0)
  {
    if s == [] {
      assert s + rest == rest;
    } else {
      assert (s + rest)[1..] == s[1..] + rest;
      RunOf(s[1..], rest);
    }
  }

  /** %d.%d.%d.%d of IP1 to IP4 */
  function Ip(a: nat, i: nat): (n: nat)
    requires a < WORD_LIMIT && i <= 3
    ensures n < 256
  {
    if i == 0 then a / 0x100_0000
    else if i == 1 then a / 0x1_0000 % 0x100
    else if i == 2 then a / 0x100 % 0x100
    else a % 0x100
  }

  /** The text of the fields from number i on. */
  function DottedFrom(a: nat, i: nat): (s: Bytes)
    requires a < WORD_LIMIT && i <= 3
    decreases 3 - i
  {
    Digits(Ip(a, i), 10) + if i == 3 then [] else [46 as byte] + DottedFrom(a, i + 1)
  }

  function FieldsFrom(a: nat, i: nat): (f: seq<nat>)
    requires a < WORD_LIMIT && i <= 3
    ensures |f| == 4 - i
    decreases 3 - i
  {
    [Ip(a, i)] + if i == 3 then [] else FieldsFrom(a, i + 1)
  }

  lemma {:induction false} FieldsOfDotted(a: nat, i: nat, rest: Bytes)
    requires a < WORD_LIMIT && i <= 3 && !IsDecimal(At(rest, 0))
    ensures Fields(DottedFrom(a, i) + rest, i) == Some(FieldsFrom(a, i))
    decreases 3 - i
  {
    hide Digits, Value, Run, Ip, Fields, At;
    var d := Digits(Ip(a, i), 10);
    ValueOfDigits(Ip(a, i));
    if i == 3 {
      assert DottedFrom(a, i) + rest == d + rest;
      LastField(d, rest);
      assert FieldsFrom(a, i) == [Ip(a, i)];
    } else {
      var more := DottedFrom(a, i + 1);
      assert DottedFrom(a, i) + rest == d + ([46 as byte] + (more + rest));
      FieldThenDot(d, more + rest, i);
      FieldsOfDotted(a, i + 1, rest);
    }
  }

  lemma LastField(d: Bytes, rest: Bytes)
    requires (forall k :: 0 <= k < |d| ==> IsDecimal(d[k])) && !IsDecimal(At(rest, 0))
    ensures Fields(d + rest, 3) == Some([Value(d, 0)])
  {
    hide Value, Run;
    RunOf(d, rest);
  }

  lemma FieldThenDot(d: Bytes, tail: Bytes, i: nat)
    requires i < 3 && forall k :: 0 <= k < |d| ==> IsDecimal(d[k])
    ensures Fields(d + ([46 as byte] + tail), i) == Joined([Value(d, 0)], Fields(tail, i + 1))
  {
    hide Value, Run;
    var s := d + ([46 as byte] + tail);
    RunOf(d, [46 as byte] + tail);
    assert s[|d| + 1..] == tail;
  }

  lemma IvOfFields(a: nat)
    requires a < WORD_LIMIT
    ensures Iv(FieldsFrom(a, 0)) == a
  {
    var f := FieldsFrom(a, 0);
    assert f[0] == Ip(a, 0) && f[1] == Ip(a, 1) && f[2] == Ip(a, 2) && f[3] == Ip(a, 3);
    DigitsOf(a);
  }

  /** A printed address is read back as itself, whatever follows it, if only that does not start with a digit. */
  lemma AddressReadBack(a: nat, rest: Bytes)
    requires a < WORD_LIMIT && !IsDecimal(At(rest, 0))
    ensures Str2Ip(DottedFrom(a, 0) + rest) == a
  {
    hide Fields, DottedFrom, FieldsFrom, Iv;
    FieldsOfDotted(a, 0, rest);
    IvOfFields(a);
  }

  // ---------------------------------------------------------------- finding a word

  /** sys_toupper */
  function Upper(c: byte): byte { if 97 <= c <= 122 then c - 32 else c }

  /** memicmp(s, pat, |pat|) == 0 */
  predicate StartsWith(s: Bytes, pat: Bytes) {
    |pat| <= |s| && forall k :: 0 <= k < |pat| ==> Upper(s[k]) == Upper(pat[k])
  }

  /** Where a word first occurs, case ignored. */
  function FirstMatch(s: Bytes, pat: Bytes): (r: Option<nat>)
    ensures r.Some? ==> r.value + |pat| <= |s| && StartsWith(s[r.value..], pat)
  {
    if s == [] then None
    else if StartsWith(s, pat) then Some(0)
    else
      var r := FirstMatch(s[1..], pat);
      if r.None? then None else assert s[1..][r.value..] == s[r.value + 1..]; Some(r.value + 1)
  }

  /** memicmp */
  method MatchesHere(s: Bytes, from: nat, pat: Bytes) returns (same: bool)
    requires from < |s| && 0 !in pat
    ensures same <==> StartsWith(s[from..], pat)
  {
    var k: nat := 0;
    ghost var t := s[from..];
    while k < |pat|
      invariant k <= |pat| && k <= |t|
      invariant forall j :: 0 <= j < k ==> Upper(t[j]) == Upper(pat[j])
    {
      if Upper(At(s, from + k)) != Upper(pat[k]) {
        assert k < |t| ==> t[k] == s[from + k];
        return false;
      }
      assert pat[k] in pat;
      assert At(s, from + k) != 0;
      assert t[k] == s[from + k];
      k := k + 1;
    }
    return true;
  }

  /** sys_find_str: the index instead of a pointer. */
  method FindStr(s: Bytes, pat: Bytes) returns (r: Option<nat>)
    requires pat != [] && 0 !in pat
    ensures r == FirstMatch(s, pat)
  {
    hide StartsWith;
    var i: nat := 0;
    assert s[0..] == s;
    while i < |s|
      invariant i <= |s|
      invariant var m := FirstMatch(s[i..], pat); FirstMatch(s, pat) == if m.None? then None else Some(i + m.value)
    {
      assert s[i..][1..] == s[i + 1..];
      var same := MatchesHere(s, i, pat);
      if same {
        return Some(i);
      }
      i := i + 1;
    }
    return None;
  }

  /** The word is found right behind a text in which its first letter does not occur. */
  lemma {:induction false} FoundBehind(p: Bytes, q: Bytes, pat: Bytes)
    requires pat != [] && StartsWith(q, pat)
    requires forall k :: 0 <= k < |p| ==> Upper(p[k]) != Upper(pat[0])
    ensures FirstMatch(p + q, pat) == Some(|p|)
  {
    if p == [] {
      assert p + q == q;
    } else {
      assert (p + q)[0] == p[0] && (p + q)[1..] == p[1..] + q;
      FoundBehind(p[1..], q, pat);
    }
  }

  // ---------------------------------------------------------------- hexadecimal bytes

  /** %02X */
  function Hex2(b: byte): (s: Bytes)
    ensures |s| == 2 && 0 !in s
  {
    [DigitChar(b / 16), DigitChar(b % 16)]
  }

  lemma PaddedHex(b: byte)
    ensures Padded(b, 16, 2) == Hex2(b)
  {
    if b < 16 {
      assert Digits(b, 16) == [DigitChar(b)];
    } else {
      assert Digits(b, 16) == Digits(b / 16, 16) + [DigitChar(b % 16)];
    }
  }

  /** char2hex(*cp++) * 16 + char2hex(*cp++), stored into a byte */
  function HexPair(hi: byte, lo: byte): byte {
    (Char2Hex(hi) * 16 + Char2Hex(lo)) % WORD_LIMIT % 256
  }

  lemma HexReadBack(b: byte)
    ensures HexPair(Hex2(b)[0], Hex2(b)[1]) == b
  {
    hide Char2Hex, DigitChar;
    NibbleReadBack(b / 16);
    NibbleReadBack(b % 16);
    SmallPair(b / 16, b % 16);
  }

  lemma NibbleReadBack(d: nat)
    requires d < 16
    ensures Char2Hex(DigitChar(d)) == d
  {
  }

  lemma SmallPair(hi: nat, lo: nat)
    requires hi < 16 && lo < 16
    ensures (hi * 16 + lo) % WORD_LIMIT % 256 == hi * 16 + lo
  {
  }
}
