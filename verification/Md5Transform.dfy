/**
 The MD5 block transform (lib/md5/md5c.c) against section 3.4 of RFC 1321.
 */
module Md5Transform {
  import opened Bytes

  /** The four chaining words, A to D. */
  datatype Regs = Regs(a: word, b: word, c: word, d: word)

  function F(x: word, y: word, z: word): word { (x & y) | (!x & z) }
  function G(x: word, y: word, z: word): word { (x & z) | (y & !z) }
  function H(x: word, y: word, z: word): word { x ^ y ^ z }
  function I(x: word, y: word, z: word): word { y ^ (x | !z) }

  // Word addition and subtraction are modulo 2^32, as they are on the source's 32-bit words.
  function Plus(x: word, y: word): word { x + y }
  function Minus(x: word, y: word): word { x - y }

  function RotateLeft(x: word, n: bv5): word
    requires 0 < n
  {
    (x << n) | (x >> (32 - n as bv6))
  }

  function RotateRight(x: word, n: bv5): word
    requires 0 < n
  {
    (x >> n) | (x << (32 - n as bv6))
  }

  // ----- Section 3.4 of RFC 1321: one table-driven step at a time, registers rotating -----

  /** Four consecutive entries of the table T: the integer parts of 4294967296 times abs(sin(k)), for
      k from 4 * q + 1. */
  function SineRow(q: nat): (word, word, word, word)
    requires q < 16
  {
    match q
    case 0 => (0xd76aa478, 0xe8c7b756, 0x242070db, 0xc1bdceee)
    case 1 => (0xf57c0faf, 0x4787c62a, 0xa8304613, 0xfd469501)
    case 2 => (0x698098d8, 0x8b44f7af, 0xffff5bb1, 0x895cd7be)
    case 3 => (0x6b901122, 0xfd987193, 0xa679438e, 0x49b40821)
    case 4 => (0xf61e2562, 0xc040b340, 0x265e5a51, 0xe9b6c7aa)
    case 5 => (0xd62f105d, 0x02441453, 0xd8a1e681, 0xe7d3fbc8)
    case 6 => (0x21e1cde6, 0xc33707d6, 0xf4d50d87, 0x455a14ed)
    case 7 => (0xa9e3e905, 0xfcefa3f8, 0x676f02d9, 0x8d2a4c8a)
    case 8 => (0xfffa3942, 0x8771f681, 0x6d9d6122, 0xfde5380c)
    case 9 => (0xa4beea44, 0x4bdecfa9, 0xf6bb4b60, 0xbebfbc70)
    case 10 => (0x289b7ec6, 0xeaa127fa, 0xd4ef3085, 0x04881d05)
    case 11 => (0xd9d4d039, 0xe6db99e5, 0x1fa27cf8, 0xc4ac5665)
    case 12 => (0xf4292244, 0x432aff97, 0xab9423a7, 0xfc93a039)
    case 13 => (0x655b59c3, 0x8f0ccc92, 0xffeff47d, 0x85845dd1)
    case 14 => (0x6fa87e4f, 0xfe2ce6e0, 0xa3014314, 0x4e0811a1)
    case _ => (0xf7537e82, 0xbd3af235, 0x2ad7d2bb, 0xeb86d391)
  }

  /** T[i + 1]. */
  function Sine(i: nat): word
    requires i < 64
  {
    var row := SineRow(i / 4);
    match i % 4
    case 0 => row.0
    case 1 => row.1
    case 2 => row.2
    case _ => row.3
  }

  /** The message word that step `i` adds. */
  function WordIndex(i: nat): (k: nat)
    requires i < 64
    ensures k < 16
  {
    if i < 16 then i
    else if i < 32 then (5 * i + 1) % 16
    else if i < 48 then (3 * i + 5) % 16
    else (7 * i) % 16
  }

  const S11: bv5 := 7
  const S12: bv5 := 12
  const S13: bv5 := 17
  const S14: bv5 := 22
  const S21: bv5 := 5
  const S22: bv5 := 9
  const S23: bv5 := 14
  const S24: bv5 := 20
  const S31: bv5 := 4
  const S32: bv5 := 11
  const S33: bv5 := 16
  const S34: bv5 := 23
  const S41: bv5 := 6
  const S42: bv5 := 10
  const S43: bv5 := 15
  const S44: bv5 := 21

  /** The rotation of step `i`. */
  function Shift(i: nat): (s: bv5)
    requires i < 64
    ensures 0 < s
  {
    match (i / 16, i % 4)
    case (0, 0) => S11
    case (0, 1) => S12
    case (0, 2) => S13
    case (0, _) => S14
    case (1, 0) => S21
    case (1, 1) => S22
    case (1, 2) => S23
    case (1, _) => S24
    case (2, 0) => S31
    case (2, 1) => S32
    case (2, 2) => S33
    case (2, _) => S34
    case (_, 0) => S41
    case (_, 1) => S42
    case (_, 2) => S43
    case (_, _) => S44
  }

  /** The auxiliary function of the round that step `i` belongs to. */
  function Auxiliary(i: nat, x: word, y: word, z: word): word {
    if i < 16 then F(x, y, z)
    else if i < 32 then G(x, y, z)
    else if i < 48 then H(x, y, z)
    else I(x, y, z)
  }

  function Mix(a: word, f: word, x: word, t: word, s: bv5, b: word): word
    requires 0 < s
  {
    Plus(b, RotateLeft(Plus(Plus(Plus(a, f), x), t), s))
  }

  /** Step `i`: a = b + ((a + f(b, c, d) + X[k] + T[i]) <<< s), after which the registers move on by one. */
  function Step(r: Regs, x: seq<word>, i: nat): Regs
    requires |x| == 16 && i < 64
  {
    Regs(r.d, Mix(r.a, Auxiliary(i, r.b, r.c, r.d), x[WordIndex(i)], Sine(i), Shift(i), r.b), r.b, r.c)
  }

  /** Steps `lo` up to but not including `hi`. */
  function Cascade(r: Regs, x: seq<word>, lo: nat, hi: nat): Regs
    requires |x| == 16 && hi <= 64
    decreases hi
  {
    if hi <= lo then r else Step(Cascade(r, x, lo, hi - 1), x, hi - 1)
  }

  function Add(r: Regs, s: Regs): Regs {
    Regs(Plus(r.a, s.a), Plus(r.b, s.b), Plus(r.c, s.c), Plus(r.d, s.d))
  }

  /** The sixteen words of a block, low-order byte first. */
  function Word(block: seq<byte>, j: nat): word
    requires 4 * j + 4 <= |block|
  {
    block[4 * j] as word
    | (block[4 * j + 1] as word << 8)
    | (block[4 * j + 2] as word << 16)
    | (block[4 * j + 3] as word << 24)
  }

  function Words(block: seq<byte>): (x: seq<word>)
    requires |block| == 64
    ensures |x| == 16
  {
    seq(16, j requires 0 <= j < 16 => Word(block, j))
  }

  /** The whole of section 3.4 for one block. */
  function Compress(r: Regs, block: seq<byte>): Regs
    requires |block| == 64
  {
    Add(r, Cascade(r, Words(block), 0, 64))
  }

  // ----- The unrolled code -----

  function FF(a: word, b: word, c: word, d: word, x: word, s: bv5, ac: word): word
    requires 0 < s
  {
    Plus(RotateLeft(Plus(a, Plus(Plus(F(b, c, d), x), ac)), s), b)
  }

  function GG(a: word, b: word, c: word, d: word, x: word, s: bv5, ac: word): word
    requires 0 < s
  {
    Plus(RotateLeft(Plus(a, Plus(Plus(G(b, c, d), x), ac)), s), b)
  }

  function HH(a: word, b: word, c: word, d: word, x: word, s: bv5, ac: word): word
    requires 0 < s
  {
    Plus(RotateLeft(Plus(a, Plus(Plus(H(b, c, d), x), ac)), s), b)
  }

  function II(a: word, b: word, c: word, d: word, x: word, s: bv5, ac: word): word
    requires 0 < s
  {
    Plus(RotateLeft(Plus(a, Plus(Plus(I(b, c, d), x), ac)), s), b)
  }

  lemma PlusCommutes(x: word, y: word)
    ensures Plus(x, y) == Plus(y, x)
  {
  }

  lemma PlusAssociates(x: word, y: word, z: word)
    ensures Plus(Plus(x, y), z) == Plus(x, Plus(y, z))
  {
    assert Plus(x + y, z) == x + y + z;
    assert Plus(x, y + z) == x + y + z;
  }

  /** The macros add the constant and the word first and `b` last; the standard adds from the left. */
  lemma MacroOrder(a: word, f: word, x: word, ac: word, s: bv5, b: word)
    requires 0 < s
    ensures Plus(RotateLeft(Plus(a, Plus(Plus(f, x), ac)), s), b) == Mix(a, f, x, ac, s, b)
  {
    hide RotateLeft, Plus;
    PlusAssociates(a, f, x);
    PlusAssociates(a, Plus(f, x), ac);
    PlusCommutes(b, RotateLeft(Plus(Plus(Plus(a, f), x), ac), s));
  }

  lemma CascadeNext(r: Regs, x: seq<word>, lo: nat, i: nat)
    requires |x| == 16 && lo <= i < 64
    ensures Cascade(r, x, lo, i + 1) == Step(Cascade(r, x, lo, i), x, i)
  {
    hide Step;
  }

  lemma SinesOfRow(i: nat)
    requires i <= 60 && i % 4 == 0
    ensures
      var row := SineRow(i / 4);
      Sine(i) == row.0 && Sine(i + 1) == row.1 && Sine(i + 2) == row.2 && Sine(i + 3) == row.3
  {
    hide SineRow;
  }

  lemma ShiftsOfRow(i: nat)
    requires i <= 60 && i % 4 == 0
    ensures i < 16 ==> Shift(i) == S11 && Shift(i + 1) == S12 && Shift(i + 2) == S13 && Shift(i + 3) == S14
    ensures 16 <= i < 32 ==> Shift(i) == S21 && Shift(i + 1) == S22 && Shift(i + 2) == S23 && Shift(i + 3) == S24
    ensures 32 <= i < 48 ==> Shift(i) == S31 && Shift(i + 1) == S32 && Shift(i + 2) == S33 && Shift(i + 3) == S34
    ensures 48 <= i ==> Shift(i) == S41 && Shift(i + 1) == S42 && Shift(i + 2) == S43 && Shift(i + 3) == S44
  {
  }

  lemma FFIsMix(a: word, b: word, c: word, d: word, x: word, s: bv5, ac: word)
    requires 0 < s
    ensures FF(a, b, c, d, x, s, ac) == Mix(a, F(b, c, d), x, ac, s, b)
  {
    hide RotateLeft, Plus, F;
    MacroOrder(a, F(b, c, d), x, ac, s, b);
  }

  lemma FFIsStep(r: Regs, x: seq<word>, i: nat)
    requires |x| == 16 && 0 <= i < 16
    ensures Step(r, x, i) == Regs(r.d, FF(r.a, r.b, r.c, r.d, x[WordIndex(i)], Shift(i), Sine(i)), r.b, r.c)
  {
    hide FF, Mix, F, Sine, WordIndex, Shift;
    FFIsMix(r.a, r.b, r.c, r.d, x[WordIndex(i)], Shift(i), Sine(i));
  }

  lemma GGIsMix(a: word, b: word, c: word, d: word, x: word, s: bv5, ac: word)
    requires 0 < s
    ensures GG(a, b, c, d, x, s, ac) == Mix(a, G(b, c, d), x, ac, s, b)
  {
    hide RotateLeft, Plus, G;
    MacroOrder(a, G(b, c, d), x, ac, s, b);
  }

  lemma GGIsStep(r: Regs, x: seq<word>, i: nat)
    requires |x| == 16 && 16 <= i < 32
    ensures Step(r, x, i) == Regs(r.d, GG(r.a, r.b, r.c, r.d, x[WordIndex(i)], Shift(i), Sine(i)), r.b, r.c)
  {
    hide GG, Mix, G, Sine, WordIndex, Shift;
    GGIsMix(r.a, r.b, r.c, r.d, x[WordIndex(i)], Shift(i), Sine(i));
  }

  lemma HHIsMix(a: word, b: word, c: word, d: word, x: word, s: bv5, ac: word)
    requires 0 < s
    ensures HH(a, b, c, d, x, s, ac) == Mix(a, H(b, c, d), x, ac, s, b)
  {
    hide RotateLeft, Plus, H;
    MacroOrder(a, H(b, c, d), x, ac, s, b);
  }

  lemma HHIsStep(r: Regs, x: seq<word>, i: nat)
    requires |x| == 16 && 32 <= i < 48
    ensures Step(r, x, i) == Regs(r.d, HH(r.a, r.b, r.c, r.d, x[WordIndex(i)], Shift(i), Sine(i)), r.b, r.c)
  {
    hide HH, Mix, H, Sine, WordIndex, Shift;
    HHIsMix(r.a, r.b, r.c, r.d, x[WordIndex(i)], Shift(i), Sine(i));
  }

  lemma IIIsMix(a: word, b: word, c: word, d: word, x: word, s: bv5, ac: word)
    requires 0 < s
    ensures II(a, b, c, d, x, s, ac) == Mix(a, I(b, c, d), x, ac, s, b)
  {
    hide RotateLeft, Plus, I;
    MacroOrder(a, I(b, c, d), x, ac, s, b);
  }

  lemma IIIsStep(r: Regs, x: seq<word>, i: nat)
    requires |x| == 16 && 48 <= i < 64
    ensures Step(r, x, i) == Regs(r.d, II(r.a, r.b, r.c, r.d, x[WordIndex(i)], Shift(i), Sine(i)), r.b, r.c)
  {
    hide II, Mix, I, Sine, WordIndex, Shift;
    IIIsMix(r.a, r.b, r.c, r.d, x[WordIndex(i)], Shift(i), Sine(i));
  }

  lemma FFRow(regs: Regs, x: seq<word>, i: nat, at: Regs)
    requires |x| == 16 && 0 <= i <= 12 && i % 4 == 0
    requires Cascade(regs, x, 0, i) == at
    ensures
      var Regs(a, b, c, d) := at;
      var row := SineRow(i / 4);
      var a' := FF(a, b, c, d, x[WordIndex(i)], S11, row.0);
      var d' := FF(d, a', b, c, x[WordIndex(i + 1)], S12, row.1);
      var c' := FF(c, d', a', b, x[WordIndex(i + 2)], S13, row.2);
      var b' := FF(b, c', d', a', x[WordIndex(i + 3)], S14, row.3);
      Cascade(regs, x, 0, i + 4) == Regs(a', b', c', d')
  {
    hide FF, Step, Shift, Sine, SineRow, WordIndex, Cascade;
    SinesOfRow(i);
    ShiftsOfRow(i);
    FFIsStep(at, x, i);
    CascadeNext(regs, x, 0, i);
    var s1 := Cascade(regs, x, 0, i + 1);
    FFIsStep(s1, x, i + 1);
    CascadeNext(regs, x, 0, i + 1);
    var s2 := Cascade(regs, x, 0, i + 2);
    FFIsStep(s2, x, i + 2);
    CascadeNext(regs, x, 0, i + 2);
    var s3 := Cascade(regs, x, 0, i + 3);
    FFIsStep(s3, x, i + 3);
    CascadeNext(regs, x, 0, i + 3);
  }

  lemma GGRow(regs: Regs, x: seq<word>, i: nat, at: Regs)
    requires |x| == 16 && 16 <= i <= 28 && i % 4 == 0
    requires Cascade(regs, x, 16, i) == at
    ensures
      var Regs(a, b, c, d) := at;
      var row := SineRow(i / 4);
      var a' := GG(a, b, c, d, x[WordIndex(i)], S21, row.0);
      var d' := GG(d, a', b, c, x[WordIndex(i + 1)], S22, row.1);
      var c' := GG(c, d', a', b, x[WordIndex(i + 2)], S23, row.2);
      var b' := GG(b, c', d', a', x[WordIndex(i + 3)], S24, row.3);
      Cascade(regs, x, 16, i + 4) == Regs(a', b', c', d')
  {
    hide GG, Step, Shift, Sine, SineRow, WordIndex, Cascade;
    SinesOfRow(i);
    ShiftsOfRow(i);
    GGIsStep(at, x, i);
    CascadeNext(regs, x, 16, i);
    var s1 := Cascade(regs, x, 16, i + 1);
    GGIsStep(s1, x, i + 1);
    CascadeNext(regs, x, 16, i + 1);
    var s2 := Cascade(regs, x, 16, i + 2);
    GGIsStep(s2, x, i + 2);
    CascadeNext(regs, x, 16, i + 2);
    var s3 := Cascade(regs, x, 16, i + 3);
    GGIsStep(s3, x, i + 3);
    CascadeNext(regs, x, 16, i + 3);
  }

  lemma HHRow(regs: Regs, x: seq<word>, i: nat, at: Regs)
    requires |x| == 16 && 32 <= i <= 44 && i % 4 == 0
    requires Cascade(regs, x, 32, i) == at
    ensures
      var Regs(a, b, c, d) := at;
      var row := SineRow(i / 4);
      var a' := HH(a, b, c, d, x[WordIndex(i)], S31, row.0);
      var d' := HH(d, a', b, c, x[WordIndex(i + 1)], S32, row.1);
      var c' := HH(c, d', a', b, x[WordIndex(i + 2)], S33, row.2);
      var b' := HH(b, c', d', a', x[WordIndex(i + 3)], S34, row.3);
      Cascade(regs, x, 32, i + 4) == Regs(a', b', c', d')
  {
    hide HH, Step, Shift, Sine, SineRow, WordIndex, Cascade;
    SinesOfRow(i);
    ShiftsOfRow(i);
    HHIsStep(at, x, i);
    CascadeNext(regs, x, 32, i);
    var s1 := Cascade(regs, x, 32, i + 1);
    HHIsStep(s1, x, i + 1);
    CascadeNext(regs, x, 32, i + 1);
    var s2 := Cascade(regs, x, 32, i + 2);
    HHIsStep(s2, x, i + 2);
    CascadeNext(regs, x, 32, i + 2);
    var s3 := Cascade(regs, x, 32, i + 3);
    HHIsStep(s3, x, i + 3);
    CascadeNext(regs, x, 32, i + 3);
  }

  lemma IIRow(regs: Regs, x: seq<word>, i: nat, at: Regs)
    requires |x| == 16 && 48 <= i <= 60 && i % 4 == 0
    requires Cascade(regs, x, 48, i) == at
    ensures
      var Regs(a, b, c, d) := at;
      var row := SineRow(i / 4);
      var a' := II(a, b, c, d, x[WordIndex(i)], S41, row.0);
      var d' := II(d, a', b, c, x[WordIndex(i + 1)], S42, row.1);
      var c' := II(c, d', a', b, x[WordIndex(i + 2)], S43, row.2);
      var b' := II(b, c', d', a', x[WordIndex(i + 3)], S44, row.3);
      Cascade(regs, x, 48, i + 4) == Regs(a', b', c', d')
  {
    hide II, Step, Shift, Sine, SineRow, WordIndex, Cascade;
    SinesOfRow(i);
    ShiftsOfRow(i);
    IIIsStep(at, x, i);
    CascadeNext(regs, x, 48, i);
    var s1 := Cascade(regs, x, 48, i + 1);
    IIIsStep(s1, x, i + 1);
    CascadeNext(regs, x, 48, i + 1);
    var s2 := Cascade(regs, x, 48, i + 2);
    IIIsStep(s2, x, i + 2);
    CascadeNext(regs, x, 48, i + 2);
    var s3 := Cascade(regs, x, 48, i + 3);
    IIIsStep(s3, x, i + 3);
    CascadeNext(regs, x, 48, i + 3);
  }

  lemma WordOrder2()
    ensures WordIndex(16) == 1 && WordIndex(17) == 6 && WordIndex(18) == 11 && WordIndex(19) == 0
    ensures WordIndex(20) == 5 && WordIndex(21) == 10 && WordIndex(22) == 15 && WordIndex(23) == 4
    ensures WordIndex(24) == 9 && WordIndex(25) == 14 && WordIndex(26) == 3 && WordIndex(27) == 8
    ensures WordIndex(28) == 13 && WordIndex(29) == 2 && WordIndex(30) == 7 && WordIndex(31) == 12
  {
  }

  lemma WordOrder3()
    ensures WordIndex(32) == 5 && WordIndex(33) == 8 && WordIndex(34) == 11 && WordIndex(35) == 14
    ensures WordIndex(36) == 1 && WordIndex(37) == 4 && WordIndex(38) == 7 && WordIndex(39) == 10
    ensures WordIndex(40) == 13 && WordIndex(41) == 0 && WordIndex(42) == 3 && WordIndex(43) == 6
    ensures WordIndex(44) == 9 && WordIndex(45) == 12 && WordIndex(46) == 15 && WordIndex(47) == 2
  {
  }

  lemma WordOrder4()
    ensures WordIndex(48) == 0 && WordIndex(49) == 7 && WordIndex(50) == 14 && WordIndex(51) == 5
    ensures WordIndex(52) == 12 && WordIndex(53) == 3 && WordIndex(54) == 10 && WordIndex(55) == 1
    ensures WordIndex(56) == 8 && WordIndex(57) == 15 && WordIndex(58) == 6 && WordIndex(59) == 13
    ensures WordIndex(60) == 4 && WordIndex(61) == 11 && WordIndex(62) == 2 && WordIndex(63) == 9
  {
  }

  /** Round 1, with its sixteen macro calls written out as the source does. */
  method Round1(regs: Regs, x: seq<word>) returns (regs': Regs)
    requires |x| == 16
    ensures regs' == Cascade(regs, x, 0, 16)
  {
    hide FF, Step;
    var Regs(a, b, c, d) := regs;
    FFRow(regs, x, 0, Regs(a, b, c, d));
    a := FF(a, b, c, d, x[0], S11, 0xd76aa478);
    d := FF(d, a, b, c, x[1], S12, 0xe8c7b756);
    c := FF(c, d, a, b, x[2], S13, 0x242070db);
    b := FF(b, c, d, a, x[3], S14, 0xc1bdceee);
    FFRow(regs, x, 4, Regs(a, b, c, d));
    a := FF(a, b, c, d, x[4], S11, 0xf57c0faf);
    d := FF(d, a, b, c, x[5], S12, 0x4787c62a);
    c := FF(c, d, a, b, x[6], S13, 0xa8304613);
    b := FF(b, c, d, a, x[7], S14, 0xfd469501);
    FFRow(regs, x, 8, Regs(a, b, c, d));
    a := FF(a, b, c, d, x[8], S11, 0x698098d8);
    d := FF(d, a, b, c, x[9], S12, 0x8b44f7af);
    c := FF(c, d, a, b, x[10], S13, 0xffff5bb1);
    b := FF(b, c, d, a, x[11], S14, 0x895cd7be);
    FFRow(regs, x, 12, Regs(a, b, c, d));
    a := FF(a, b, c, d, x[12], S11, 0x6b901122);
    d := FF(d, a, b, c, x[13], S12, 0xfd987193);
    c := FF(c, d, a, b, x[14], S13, 0xa679438e);
    b := FF(b, c, d, a, x[15], S14, 0x49b40821);
    return Regs(a, b, c, d);
  }

  /** Round 2, with its sixteen macro calls written out as the source does. */
  method Round2(regs: Regs, x: seq<word>) returns (regs': Regs)
    requires |x| == 16
    ensures regs' == Cascade(regs, x, 16, 32)
  {
    assert Cascade(regs, x, 16, 16) == regs;
    hide GG, Step, Cascade, WordIndex;
    WordOrder2();
    var Regs(a, b, c, d) := regs;
    GGRow(regs, x, 16, Regs(a, b, c, d));
    a := GG(a, b, c, d, x[1], S21, 0xf61e2562);
    d := GG(d, a, b, c, x[6], S22, 0xc040b340);
    c := GG(c, d, a, b, x[11], S23, 0x265e5a51);
    b := GG(b, c, d, a, x[0], S24, 0xe9b6c7aa);
    GGRow(regs, x, 20, Regs(a, b, c, d));
    a := GG(a, b, c, d, x[5], S21, 0xd62f105d);
    d := GG(d, a, b, c, x[10], S22, 0x2441453);
    c := GG(c, d, a, b, x[15], S23, 0xd8a1e681);
    b := GG(b, c, d, a, x[4], S24, 0xe7d3fbc8);
    GGRow(regs, x, 24, Regs(a, b, c, d));
    a := GG(a, b, c, d, x[9], S21, 0x21e1cde6);
    d := GG(d, a, b, c, x[14], S22, 0xc33707d6);
    c := GG(c, d, a, b, x[3], S23, 0xf4d50d87);
    b := GG(b, c, d, a, x[8], S24, 0x455a14ed);
    GGRow(regs, x, 28, Regs(a, b, c, d));
    a := GG(a, b, c, d, x[13], S21, 0xa9e3e905);
    d := GG(d, a, b, c, x[2], S22, 0xfcefa3f8);
    c := GG(c, d, a, b, x[7], S23, 0x676f02d9);
    b := GG(b, c, d, a, x[12], S24, 0x8d2a4c8a);
    return Regs(a, b, c, d);
  }

  /** Round 3, with its sixteen macro calls written out as the source does. */
  method Round3(regs: Regs, x: seq<word>) returns (regs': Regs)
    requires |x| == 16
    ensures regs' == Cascade(regs, x, 32, 48)
  {
    assert Cascade(regs, x, 32, 32) == regs;
    hide HH, Step, Cascade, WordIndex;
    WordOrder3();
    var Regs(a, b, c, d) := regs;
    HHRow(regs, x, 32, Regs(a, b, c, d));
    a := HH(a, b, c, d, x[5], S31, 0xfffa3942);
    d := HH(d, a, b, c, x[8], S32, 0x8771f681);
    c := HH(c, d, a, b, x[11], S33, 0x6d9d6122);
    b := HH(b, c, d, a, x[14], S34, 0xfde5380c);
    HHRow(regs, x, 36, Regs(a, b, c, d));
    a := HH(a, b, c, d, x[1], S31, 0xa4beea44);
    d := HH(d, a, b, c, x[4], S32, 0x4bdecfa9);
    c := HH(c, d, a, b, x[7], S33, 0xf6bb4b60);
    b := HH(b, c, d, a, x[10], S34, 0xbebfbc70);
    HHRow(regs, x, 40, Regs(a, b, c, d));
    a := HH(a, b, c, d, x[13], S31, 0x289b7ec6);
    d := HH(d, a, b, c, x[0], S32, 0xeaa127fa);
    c := HH(c, d, a, b, x[3], S33, 0xd4ef3085);
    b := HH(b, c, d, a, x[6], S34, 0x4881d05);
    HHRow(regs, x, 44, Regs(a, b, c, d));
    a := HH(a, b, c, d, x[9], S31, 0xd9d4d039);
    d := HH(d, a, b, c, x[12], S32, 0xe6db99e5);
    c := HH(c, d, a, b, x[15], S33, 0x1fa27cf8);
    b := HH(b, c, d, a, x[2], S34, 0xc4ac5665);
    return Regs(a, b, c, d);
  }

  /** Round 4, with its sixteen macro calls written out as the source does. */
  method Round4(regs: Regs, x: seq<word>) returns (regs': Regs)
    requires |x| == 16
    ensures regs' == Cascade(regs, x, 48, 64)
  {
    assert Cascade(regs, x, 48, 48) == regs;
    hide II, Step, Cascade, WordIndex;
    WordOrder4();
    var Regs(a, b, c, d) := regs;
    IIRow(regs, x, 48, Regs(a, b, c, d));
    a := II(a, b, c, d, x[0], S41, 0xf4292244);
    d := II(d, a, b, c, x[7], S42, 0x432aff97);
    c := II(c, d, a, b, x[14], S43, 0xab9423a7);
    b := II(b, c, d, a, x[5], S44, 0xfc93a039);
    IIRow(regs, x, 52, Regs(a, b, c, d));
    a := II(a, b, c, d, x[12], S41, 0x655b59c3);
    d := II(d, a, b, c, x[3], S42, 0x8f0ccc92);
    c := II(c, d, a, b, x[10], S43, 0xffeff47d);
    b := II(b, c, d, a, x[1], S44, 0x85845dd1);
    IIRow(regs, x, 56, Regs(a, b, c, d));
    a := II(a, b, c, d, x[8], S41, 0x6fa87e4f);
    d := II(d, a, b, c, x[15], S42, 0xfe2ce6e0);
    c := II(c, d, a, b, x[6], S43, 0xa3014314);
    b := II(b, c, d, a, x[13], S44, 0x4e0811a1);
    IIRow(regs, x, 60, Regs(a, b, c, d));
    a := II(a, b, c, d, x[4], S41, 0xf7537e82);
    d := II(d, a, b, c, x[11], S42, 0xbd3af235);
    c := II(c, d, a, b, x[2], S43, 0x2ad7d2bb);
    b := II(b, c, d, a, x[9], S44, 0xeb86d391);
    return Regs(a, b, c, d);
  }

  /** Sixteen little-endian words, one per iteration. */
  method Decode(output: array<word>, input: seq<byte>)
    requires output.Length == 16 && |input| == 64
    modifies output
    ensures output[..] == Words(input)
  {
    hide Word;
    var i, j := 0, 0;
    while j < 64
      invariant j == 4 * i && i <= 16
      invariant forall k :: 0 <= k < i ==> output[k] == Word(input, k)
    {
      output[i] := Word(input, i);
      i, j := i + 1, j + 4;
    }
  }

  /** `MD5Transform`: the 64 unrolled steps compute the table-driven compression. */
  method Transform(state: Regs, block: seq<byte>) returns (state': Regs)
    requires |block| == 64
    ensures state' == Compress(state, block)
  {
    hide Step, Add;
    var words := new word[16];
    Decode(words, block);
    var x := words[..];
    var regs := Round1(state, x);
    regs := Round2(regs, x);
    regs := Round3(regs, x);
    regs := Round4(regs, x);
    CascadeCompose(state, x, 0, 16, 32);
    CascadeCompose(state, x, 0, 32, 48);
    CascadeCompose(state, x, 0, 48, 64);
    state' := Add(state, regs);
  }

  lemma {:induction false} CascadeCompose(r: Regs, x: seq<word>, lo: nat, mid: nat, hi: nat)
    requires |x| == 16 && lo <= mid <= hi <= 64
    ensures Cascade(Cascade(r, x, lo, mid), x, mid, hi) == Cascade(r, x, lo, hi)
    decreases hi
  {
    hide Step;
    if mid < hi {
      CascadeCompose(r, x, lo, mid, hi - 1);
    }
  }

  // ----- For a fixed block, the cascade loses nothing -----

  function Unmix(m: word, f: word, x: word, t: word, s: bv5, b: word): word
    requires 0 < s
  {
    Minus(Minus(Minus(RotateRight(Minus(m, b), s), t), x), f)
  }

  /** Step `i` taken back. */
  function Unstep(r: Regs, x: seq<word>, i: nat): Regs
    requires |x| == 16 && i < 64
  {
    Regs(Unmix(r.b, Auxiliary(i, r.c, r.d, r.a), x[WordIndex(i)], Sine(i), Shift(i), r.c), r.c, r.d, r.a)
  }

  function Uncascade(r: Regs, x: seq<word>, lo: nat, hi: nat): Regs
    requires |x| == 16 && hi <= 64
    decreases hi
  {
    if hi <= lo then r else Uncascade(Unstep(r, x, hi - 1), x, lo, hi - 1)
  }

  lemma RotateRightLeft(x: word, n: bv5)
    requires 0 < n
    ensures RotateRight(RotateLeft(x, n), n) == x
  {
    assert RotateRight((x << n) | (x >> (32 - n as bv6)), n) == x;
  }

  lemma RotateLeftRight(x: word, n: bv5)
    requires 0 < n
    ensures RotateLeft(RotateRight(x, n), n) == x
  {
    assert RotateLeft((x >> n) | (x << (32 - n as bv6)), n) == x;
  }

  lemma MinusPlus(x: word, y: word)
    ensures Minus(Plus(x, y), y) == x && Minus(Plus(y, x), y) == x
  {
    assert Minus(x + y, y) == x;
    assert Minus(y + x, y) == x;
  }

  lemma PlusMinus(x: word, y: word)
    ensures Plus(Minus(x, y), y) == x && Plus(y, Minus(x, y)) == x
  {
    assert Plus(x - y, y) == x;
    assert Plus(y, x - y) == x;
  }

  lemma UnmixMix(a: word, f: word, x: word, t: word, s: bv5, b: word)
    requires 0 < s
    ensures Unmix(Mix(a, f, x, t, s, b), f, x, t, s, b) == a
  {
    hide RotateLeft, RotateRight, Plus, Minus;
    var sum := Plus(Plus(Plus(a, f), x), t);
    MinusPlus(RotateLeft(sum, s), b);
    RotateRightLeft(sum, s);
    MinusPlus(Plus(Plus(a, f), x), t);
    MinusPlus(Plus(a, f), x);
    MinusPlus(a, f);
  }

  lemma MixUnmix(m: word, f: word, x: word, t: word, s: bv5, b: word)
    requires 0 < s
    ensures Mix(Unmix(m, f, x, t, s, b), f, x, t, s, b) == m
  {
    hide RotateLeft, RotateRight, Plus, Minus;
    var sum := RotateRight(Minus(m, b), s);
    PlusMinus(Minus(Minus(sum, t), x), f);
    PlusMinus(Minus(sum, t), x);
    PlusMinus(sum, t);
    RotateLeftRight(Minus(m, b), s);
    PlusMinus(m, b);
  }

  lemma StepInverse(r: Regs, x: seq<word>, i: nat)
    requires |x| == 16 && i < 64
    ensures Unstep(Step(r, x, i), x, i) == r
    ensures Step(Unstep(r, x, i), x, i) == r
  {
    hide Mix, Unmix, Auxiliary, Sine, WordIndex, Shift;
    UnmixMix(r.a, Auxiliary(i, r.b, r.c, r.d), x[WordIndex(i)], Sine(i), Shift(i), r.b);
    MixUnmix(r.b, Auxiliary(i, r.c, r.d, r.a), x[WordIndex(i)], Sine(i), Shift(i), r.c);
  }

  /** The cascade before the final additions is a bijection on the four-word state. */
  lemma {:induction false} CascadeIsBijection(r: Regs, x: seq<word>, hi: nat)
    requires |x| == 16 && hi <= 64
    ensures Uncascade(Cascade(r, x, 0, hi), x, 0, hi) == r
    ensures Cascade(Uncascade(r, x, 0, hi), x, 0, hi) == r
    decreases hi
  {
    hide Step, Unstep;
    if hi > 0 {
      StepInverse(Cascade(r, x, 0, hi - 1), x, hi - 1);
      CascadeIsBijection(r, x, hi - 1);
      StepInverse(r, x, hi - 1);
      CascadeIsBijection(Unstep(r, x, hi - 1), x, hi - 1);
    }
  }
}
