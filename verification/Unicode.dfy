/**
 Codepoints one at a time: sections 3 and 4 of RFC 3629 for UTF-8, sections 2.1 and 2.2 of RFC 2781
 for UTF-16.
 */
module Unicode {
  import opened Bytes

  type codepoint = bv32
  type unit = bv16

  /** What a decoder yields for an encoding it does not accept. */
  const REPLACEMENT: codepoint := 0xFFFD

  predicate IsScalar(c: codepoint) {
    c <= 0x10FFFF && !(0xD800 <= c <= 0xDFFF)
  }

  // ----- UTF-8: the octets of a codepoint (section 3 of RFC 3629) -----

  function Utf8Length(c: codepoint): (n: nat)
    ensures 1 <= n <= 4
  {
    if c <= 0x7F then 1
    else if c <= 0x7FF then 2
    else if c <= 0xFFFF then 3
    else 4
  }

  function Tail(c: codepoint): byte { 0x80 | ((c & 0x3F) as byte) }
  function Lead1(c: codepoint): byte { (c & 0x7F) as byte }
  function Lead2(c: codepoint): byte { 0xC0 | (((c >> 6) & 0x1F) as byte) }
  function Lead3(c: codepoint): byte { 0xE0 | (((c >> 12) & 0x0F) as byte) }
  function Lead4(c: codepoint): byte { 0xF0 | (((c >> 18) & 0x07) as byte) }

  function Utf8(c: codepoint): (s: seq<byte>)
    ensures |s| == Utf8Length(c)
  {
    if c <= 0x7F then [Lead1(c)]
    else if c <= 0x7FF then [Lead2(c), Tail(c)]
    else if c <= 0xFFFF then [Lead3(c), Tail(c >> 6), Tail(c)]
    else [Lead4(c), Tail(c >> 12), Tail(c >> 6), Tail(c)]
  }

  /** In numbers: six binary digits go into each octet behind the first. */
  lemma Utf8InNumbers(c: codepoint)
    ensures c < 0x80 ==> Utf8(c) == [c as byte]
    ensures 0x80 <= c < 0x800 ==> Utf8(c) == [(0xC0 + c / 64) as byte, (0x80 + c % 64) as byte]
    ensures 0x800 <= c < 0x1_0000 ==>
      Utf8(c) == [(0xE0 + c / 4096) as byte, (0x80 + c / 64 % 64) as byte, (0x80 + c % 64) as byte]
    ensures 0x1_0000 <= c < 0x11_0000 ==>
      Utf8(c) == [(0xF0 + c / 262144) as byte, (0x80 + c / 4096 % 64) as byte, (0x80 + c / 64 % 64) as byte,
                  (0x80 + c % 64) as byte]
  {
  }

  // ----- UTF-8: the grammar (section 4 of RFC 3629) -----

  predicate IsTail(b: byte) { 0x80 <= b <= 0xBF }
  predicate Grammar1(a: byte) { a <= 0x7F }
  predicate Grammar2(a: byte, b: byte) { 0xC2 <= a <= 0xDF && IsTail(b) }

  predicate Grammar3(a: byte, b: byte, c: byte) {
    && IsTail(c)
    && (|| (a == 0xE0 && 0xA0 <= b <= 0xBF)
        || (0xE1 <= a <= 0xEC && IsTail(b))
        || (a == 0xED && 0x80 <= b <= 0x9F)
        || (0xEE <= a <= 0xEF && IsTail(b)))
  }

  predicate Grammar4(a: byte, b: byte, c: byte, d: byte) {
    && IsTail(c) && IsTail(d)
    && (|| (a == 0xF0 && 0x90 <= b <= 0xBF)
        || (0xF1 <= a <= 0xF3 && IsTail(b))
        || (a == 0xF4 && 0x80 <= b <= 0x8F))
  }

  /** The octet sequences that encode one codepoint. */
  predicate Utf8Char(s: seq<byte>) {
    match |s|
    case 1 => Grammar1(s[0])
    case 2 => Grammar2(s[0], s[1])
    case 3 => Grammar3(s[0], s[1], s[2])
    case 4 => Grammar4(s[0], s[1], s[2], s[3])
    case _ => false
  }

  function Value1(a: byte): codepoint { a as codepoint }

  function Value2(a: byte, b: byte): codepoint {
    (((a & 0x1F) as codepoint) << 6) | ((b & 0x3F) as codepoint)
  }

  function Value3(a: byte, b: byte, c: byte): codepoint {
    (((a & 0x0F) as codepoint) << 12) | (((b & 0x3F) as codepoint) << 6) | ((c & 0x3F) as codepoint)
  }

  function Value4(a: byte, b: byte, c: byte, d: byte): codepoint {
    (((a & 0x07) as codepoint) << 18) | (((b & 0x3F) as codepoint) << 12)
    | (((c & 0x3F) as codepoint) << 6) | ((d & 0x3F) as codepoint)
  }

  function Utf8Value(s: seq<byte>): codepoint
    requires 1 <= |s| <= 4
  {
    match |s|
    case 1 => Value1(s[0])
    case 2 => Value2(s[0], s[1])
    case 3 => Value3(s[0], s[1], s[2])
    case _ => Value4(s[0], s[1], s[2], s[3])
  }

  // Bit-level facts, one each.

  lemma Encoded1(c: codepoint)
    requires c <= 0x7F
    ensures Grammar1(Lead1(c)) && Value1(Lead1(c)) == c
  {
  }

  lemma Encoded2(c: codepoint)
    requires 0x80 <= c <= 0x7FF
    ensures Grammar2(Lead2(c), Tail(c)) && Value2(Lead2(c), Tail(c)) == c
  {
  }

  lemma Encoded3InGrammar(c: codepoint)
    requires 0x800 <= c <= 0xFFFF && IsScalar(c)
    ensures Grammar3(Lead3(c), Tail(c >> 6), Tail(c))
  {
  }

  lemma Encoded3Fields(c: codepoint)
    ensures Value3(Lead3(c), Tail(c >> 6), Tail(c)) == c & 0xFFFF
  {
    assert Value3(0xE0 | (((c >> 12) & 0x0F) as byte), 0x80 | (((c >> 6) & 0x3F) as byte),
                  0x80 | ((c & 0x3F) as byte)) == c & 0xFFFF;
  }

  lemma Encoded3(c: codepoint)
    requires 0x800 <= c <= 0xFFFF && IsScalar(c)
    ensures Grammar3(Lead3(c), Tail(c >> 6), Tail(c)) && Value3(Lead3(c), Tail(c >> 6), Tail(c)) == c
  {
    hide IsScalar, Grammar3, Value3, Lead3, Tail;
    Encoded3InGrammar(c);
    Encoded3Fields(c);
  }

  lemma Encoded4InGrammar(c: codepoint)
    requires 0x10000 <= c <= 0x10FFFF
    ensures Grammar4(Lead4(c), Tail(c >> 12), Tail(c >> 6), Tail(c))
  {
  }

  lemma Encoded4Fields(c: codepoint)
    ensures Value4(Lead4(c), Tail(c >> 12), Tail(c >> 6), Tail(c)) == c & 0x1FFFFF
  {
    assert Value4(0xF0 | (((c >> 18) & 0x07) as byte), 0x80 | (((c >> 12) & 0x3F) as byte),
                  0x80 | (((c >> 6) & 0x3F) as byte), 0x80 | ((c & 0x3F) as byte)) == c & 0x1FFFFF;
  }

  lemma Encoded4(c: codepoint)
    requires 0x10000 <= c <= 0x10FFFF
    ensures
      && Grammar4(Lead4(c), Tail(c >> 12), Tail(c >> 6), Tail(c))
      && Value4(Lead4(c), Tail(c >> 12), Tail(c >> 6), Tail(c)) == c
  {
    hide Grammar4, Value4, Lead4, Tail;
    Encoded4InGrammar(c);
    Encoded4Fields(c);
  }

  lemma Decoded1(a: byte)
    requires Grammar1(a)
    ensures Value1(a) <= 0x7F && Lead1(Value1(a)) == a
  {
  }

  lemma Decoded2(a: byte, b: byte)
    requires Grammar2(a, b)
    ensures var v := Value2(a, b); 0x80 <= v <= 0x7FF && Lead2(v) == a && Tail(v) == b
  {
  }

  lemma Decoded3(a: byte, b: byte, c: byte)
    requires Grammar3(a, b, c)
    ensures
      var v := Value3(a, b, c);
      0x800 <= v <= 0xFFFF && IsScalar(v) && Lead3(v) == a && Tail(v >> 6) == b && Tail(v) == c
  {
  }

  lemma Decoded4(a: byte, b: byte, c: byte, d: byte)
    requires Grammar4(a, b, c, d)
    ensures
      var v := Value4(a, b, c, d);
      0x10000 <= v <= 0x10FFFF && Lead4(v) == a && Tail(v >> 12) == b && Tail(v >> 6) == c && Tail(v) == d
  {
  }

  lemma NarrowScalar(c: codepoint)
    requires c <= 0x7FF || 0x10000 <= c <= 0x10FFFF
    ensures IsScalar(c)
  {
  }

  /** The octets of a scalar are in the grammar and have it as their value. */
  lemma Utf8InGrammar(c: codepoint)
    requires IsScalar(c)
    ensures Utf8Char(Utf8(c)) && Utf8Value(Utf8(c)) == c
  {
    ScalarBound(c);
    hide IsScalar, Lead1, Lead2, Lead3, Lead4, Tail, Value1, Value2, Value3, Value4;
    hide Grammar1, Grammar2, Grammar3, Grammar4;
    if c <= 0x7F {
      Encoded1(c);
    } else if c <= 0x7FF {
      Encoded2(c);
    } else if c <= 0xFFFF {
      Encoded3(c);
    } else {
      Encoded4(c);
    }
  }

  lemma ScalarBound(c: codepoint)
    requires IsScalar(c)
    ensures c <= 0x10FFFF
  {
  }

  lemma Recoded1(a: byte)
    requires Grammar1(a)
    ensures IsScalar(Value1(a)) && Utf8(Value1(a)) == [a]
  {
    hide IsScalar, Grammar1, Value1, Lead1;
    Decoded1(a);
    NarrowScalar(Value1(a));
  }

  lemma Recoded2(a: byte, b: byte)
    requires Grammar2(a, b)
    ensures IsScalar(Value2(a, b)) && Utf8(Value2(a, b)) == [a, b]
  {
    hide IsScalar, Grammar2, Value2, Lead2, Tail;
    Decoded2(a, b);
    NarrowScalar(Value2(a, b));
  }

  lemma Recoded3(a: byte, b: byte, c: byte)
    requires Grammar3(a, b, c)
    ensures IsScalar(Value3(a, b, c)) && Utf8(Value3(a, b, c)) == [a, b, c]
  {
    hide IsScalar, Grammar3, Value3, Lead3, Tail;
    Decoded3(a, b, c);
  }

  lemma Recoded4(a: byte, b: byte, c: byte, d: byte)
    requires Grammar4(a, b, c, d)
    ensures IsScalar(Value4(a, b, c, d)) && Utf8(Value4(a, b, c, d)) == [a, b, c, d]
  {
    hide IsScalar, Grammar4, Value4, Lead4, Tail;
    Decoded4(a, b, c, d);
    NarrowScalar(Value4(a, b, c, d));
  }

  /** Every sequence in the grammar is the octets of the scalar that is its value. */
  lemma GrammarIsUtf8(s: seq<byte>)
    requires Utf8Char(s)
    ensures 1 <= |s| <= 4 && IsScalar(Utf8Value(s)) && Utf8(Utf8Value(s)) == s
  {
    hide IsScalar, Utf8, Value1, Value2, Value3, Value4, Grammar1, Grammar2, Grammar3, Grammar4;
    match |s|
    case 1 => Recoded1(s[0]);
    case 2 => Recoded2(s[0], s[1]);
    case 3 => Recoded3(s[0], s[1], s[2]);
    case 4 => Recoded4(s[0], s[1], s[2], s[3]);
  }

  // ----- UTF-8: what one decoding step takes -----

  /** The length that a leading octet announces; 0 for an octet that cannot lead. */
  function Announced(b: byte): (n: nat)
    ensures n <= 4
  {
    if b <= 0x7F then 1
    else if 0xC0 <= b <= 0xDF then 2
    else if 0xE0 <= b <= 0xEF then 3
    else if 0xF0 <= b <= 0xF7 then 4
    else 0
  }

  /** In numbers: by the binary digits in front of the first zero. */
  lemma AnnouncedInNumbers(b: byte)
    ensures Announced(b) == if b < 128 then 1 else if b / 32 == 6 then 2 else if b / 16 == 14 then 3
                            else if b / 8 == 30 then 4 else 0
    ensures IsTail(b) <==> b / 64 == 2
  {
  }

  /** How many octets at the front of `s` are continuation octets, counting no further than `most`. */
  function Tails(s: seq<byte>, most: nat): (n: nat)
    ensures n <= most && n <= |s|
    ensures forall i :: 0 <= i < n ==> IsTail(s[i])
    ensures n == most || n == |s| || !IsTail(s[n])
  {
    if most == 0 || s == [] || !IsTail(s[0]) then 0 else 1 + Tails(s[1..], most - 1)
  }

  /** One decoding step takes the leading octet and the continuation octets it announces, as far as
      they are there. */
  function Taken(s: seq<byte>): (n: nat)
    requires s != []
    ensures 1 <= n <= 4 && n <= |s|
  {
    var n := Announced(s[0]);
    if n <= 1 then 1 else 1 + Tails(s[1..], n - 1)
  }

  /** What a decoding step yields: the value of what it takes when that is in the grammar. */
  function First(s: seq<byte>): codepoint
    requires s != []
  {
    var t := s[..Taken(s)];
    if Utf8Char(t) then Utf8Value(t) else REPLACEMENT
  }

  lemma AnnouncedInGrammar(a: byte)
    ensures Grammar1(a) ==> Announced(a) == 1
    ensures forall b: byte :: Grammar2(a, b) ==> Announced(a) == 2 && IsTail(b)
    ensures forall b: byte, c: byte :: Grammar3(a, b, c) ==> Announced(a) == 3 && IsTail(b) && IsTail(c)
    ensures forall b: byte, c: byte, d: byte ::
              Grammar4(a, b, c, d) ==> Announced(a) == 4 && IsTail(b) && IsTail(c) && IsTail(d)
  {
  }

  lemma {:induction false} TailsAll(s: seq<byte>, most: nat)
    requires most <= |s| && forall i :: 0 <= i < most ==> IsTail(s[i])
    ensures Tails(s, most) == most
  {
    hide IsTail;
    if most > 0 {
      TailsAll(s[1..], most - 1);
    }
  }

  /** A sequence in the grammar at the front is exactly what the step takes. */
  lemma GrammarIsTaken(s: seq<byte>, k: nat)
    requires k <= |s| && Utf8Char(s[..k])
    ensures 1 <= k <= 4 && Taken(s) == k
  {
    var t := s[..k];
    assert 1 <= |t| <= 4;
    AnnouncedInGrammar(s[0]);
    hide IsTail, Announced, Grammar1, Grammar2, Grammar3, Grammar4;
    assert Announced(s[0]) == k;
    assert forall i :: 1 <= i < k ==> t[i] == s[i] && IsTail(s[i]);
    if k > 1 {
      TailsAll(s[1..], k - 1);
    }
  }

  /** A step yields a scalar and takes exactly its octets when the grammar has a
      sequence at the front, and otherwise yields U+FFFD. */
  lemma ExactAcceptance(s: seq<byte>, k: nat)
    requires s != []
    ensures k <= |s| && Utf8Char(s[..k]) ==> Taken(s) == k && First(s) == Utf8Value(s[..k]) && IsScalar(First(s))
    ensures (forall j :: 0 <= j <= |s| ==> !Utf8Char(s[..j])) ==> First(s) == 0xFFFD
    ensures IsScalar(First(s))
  {
    hide IsScalar, Utf8Char, Utf8Value;
    if k <= |s| && Utf8Char(s[..k]) {
      GrammarIsTaken(s, k);
      GrammarIsUtf8(s[..k]);
    }
    if Utf8Char(s[..Taken(s)]) {
      GrammarIsUtf8(s[..Taken(s)]);
    } else {
      ReplacementIsScalar();
    }
  }

  lemma ReplacementIsScalar()
    ensures IsScalar(REPLACEMENT)
  {
  }

  // ----- UTF-16 (sections 2.1 and 2.2 of RFC 2781) -----

  predicate IsHigh(u: unit) { 0xD800 <= u <= 0xDBFF }
  predicate IsLow(u: unit) { 0xDC00 <= u <= 0xDFFF }

  function HighOf(d: codepoint): unit { 0xD800 | (((d >> 10) & 0x3FF) as unit) }
  function LowOf(d: codepoint): unit { 0xDC00 | ((d & 0x3FF) as unit) }
  function Joined(h: unit, l: unit): codepoint { (((h & 0x3FF) as codepoint) << 10) | ((l & 0x3FF) as codepoint) }

  function Utf16Length(c: codepoint): (n: nat)
    ensures 1 <= n <= 2
  {
    if c <= 0xFFFF then 1 else 2
  }

  function Lone(c: codepoint): unit { (c & 0xFFFF) as unit }

  function Utf16(c: codepoint): (s: seq<unit>)
    ensures |s| == Utf16Length(c)
  {
    if c <= 0xFFFF then [Lone(c)] else [HighOf(Lowered(c)), LowOf(Lowered(c))]
  }

  function Raised(d: codepoint): codepoint { 0x10000 + d }
  function Lowered(c: codepoint): codepoint { c - 0x10000 }
  function PairValue(h: unit, l: unit): codepoint { Raised(Joined(h, l)) }
  function LoneValue(u: unit): codepoint { u as codepoint }

  /** In numbers: ten binary digits come from each half of a pair. */
  lemma PairInNumbers(h: unit, l: unit)
    ensures IsHigh(h) <==> h / 1024 == 54
    ensures IsLow(l) <==> l / 1024 == 55
    ensures IsHigh(h) && IsLow(l) ==>
      PairValue(h, l) == 0x1_0000 + (h % 1024) as codepoint * 1024 + (l % 1024) as codepoint
    ensures LoneValue(h) == h as codepoint && (h as codepoint < 0x1_0000 ==> Lone(h as codepoint) == h)
  {
  }

  predicate PairAt(s: seq<unit>, i: nat) {
    i + 1 < |s| && IsHigh(s[i]) && IsLow(s[i + 1])
  }

  function Taken16(s: seq<unit>): (n: nat)
    requires s != []
    ensures 1 <= n <= 2 && n <= |s|
  {
    if PairAt(s, 0) then 2 else 1
  }

  function First16(s: seq<unit>): codepoint
    requires s != []
  {
    if PairAt(s, 0) then PairValue(s[0], s[1])
    else if IsHigh(s[0]) || IsLow(s[0]) then REPLACEMENT
    else LoneValue(s[0])
  }

  lemma SurrogatesDistinct(u: unit)
    ensures !(IsHigh(u) && IsLow(u))
  {
  }

  lemma HalvesAreSurrogates(d: codepoint)
    ensures IsHigh(HighOf(d)) && IsLow(LowOf(d))
  {
  }

  lemma JoinedHalves(d: codepoint)
    ensures Joined(HighOf(d), LowOf(d)) == d & 0xFFFFF
  {
    assert Joined(0xD800 | (((d >> 10) & 0x3FF) as unit), 0xDC00 | ((d & 0x3FF) as unit)) == d & 0xFFFFF;
  }

  lemma LoweredBits(c: codepoint)
    requires 0x10000 <= c <= 0x10FFFF
    ensures Lowered(c) & 0xFFFFF == Lowered(c)
  {
  }

  lemma RaisedLowered(c: codepoint)
    ensures Raised(Lowered(c)) == c
  {
    assert Raised(c - 0x10000) == c;
  }

  lemma LoweredRaised(d: codepoint)
    ensures Lowered(Raised(d)) == d
  {
    assert Lowered(0x10000 + d) == d;
  }

  lemma HalvesOfJoined(h: unit, l: unit)
    requires IsHigh(h) && IsLow(l)
    ensures HighOf(Joined(h, l)) == h && LowOf(Joined(h, l)) == l
  {
  }

  lemma JoinedBound(h: unit, l: unit)
    ensures Joined(h, l) <= 0xFFFFF
  {
  }

  predicate IsSupplementary(c: codepoint) { 0x10000 <= c <= 0x10FFFF }

  lemma PairBound(d: codepoint)
    requires d <= 0xFFFFF
    ensures IsSupplementary(Raised(d))
  {
  }

  lemma SupplementaryIsScalar(c: codepoint)
    requires IsSupplementary(c)
    ensures IsScalar(c)
  {
  }

  lemma LoneUnit(u: unit)
    requires !IsHigh(u) && !IsLow(u)
    ensures LoneValue(u) <= 0xFFFF && IsScalar(LoneValue(u)) && Lone(LoneValue(u)) == u
  {
  }

  lemma LoneIsNoSurrogate(c: codepoint)
    requires c <= 0xFFFF && IsScalar(c)
    ensures !IsHigh(Lone(c)) && !IsLow(Lone(c))
  {
  }

  lemma LoneBack(c: codepoint)
    requires c <= 0xFFFF
    ensures LoneValue(Lone(c)) == c
  {
  }

  lemma LoneScalar(c: codepoint)
    requires c <= 0xFFFF && IsScalar(c)
    ensures !IsHigh(Lone(c)) && !IsLow(Lone(c)) && LoneValue(Lone(c)) == c
  {
    hide IsScalar, IsHigh, IsLow, Lone, LoneValue;
    LoneIsNoSurrogate(c);
    LoneBack(c);
  }

  /** The units of a scalar, at the front of anything, are read back as that scalar. */
  lemma Utf16First(c: codepoint, rest: seq<unit>)
    requires IsScalar(c)
    ensures First16(Utf16(c) + rest) == c && Taken16(Utf16(c) + rest) == |Utf16(c)|
  {
    var s := Utf16(c) + rest;
    ScalarBound(c);
    if c <= 0xFFFF {
      LoneScalar(c);
      hide IsScalar, Lone, LoneValue, IsHigh, IsLow;
      assert s[0] == Lone(c);
    } else {
      hide IsScalar, HighOf, LowOf, PairValue, IsHigh, IsLow, Lowered;
      HalvesAreSurrogates(Lowered(c));
      PairOfHalves(c);
      assert s[0] == HighOf(Lowered(c)) && s[1] == LowOf(Lowered(c));
    }
  }

  lemma PairOfHalves(c: codepoint)
    requires 0x10000 <= c <= 0x10FFFF
    ensures PairValue(HighOf(Lowered(c)), LowOf(Lowered(c))) == c
  {
    hide HighOf, LowOf, Joined, Raised, Lowered;
    JoinedHalves(Lowered(c));
    LoweredBits(c);
    RaisedLowered(c);
  }

  lemma PairIsScalar(h: unit, l: unit)
    ensures IsSupplementary(PairValue(h, l)) && IsScalar(PairValue(h, l))
  {
    hide Joined, Raised, IsScalar, IsSupplementary;
    JoinedBound(h, l);
    PairBound(Joined(h, l));
    SupplementaryIsScalar(PairValue(h, l));
  }

  /** A pair is read as the scalar whose units it is. */
  lemma HalvesOfPair(h: unit, l: unit)
    requires IsHigh(h) && IsLow(l)
    ensures Utf16(PairValue(h, l)) == [h, l]
  {
    hide HighOf, LowOf, Joined, Raised, Lowered, IsScalar, IsHigh, IsLow;
    HalvesOfJoined(h, l);
    PairIsScalar(h, l);
    LoweredRaised(Joined(h, l));
  }

  lemma First16IsScalar(s: seq<unit>)
    requires s != []
    ensures IsScalar(First16(s))
  {
    if PairAt(s, 0) {
      PairIsScalar(s[0], s[1]);
    } else if !IsHigh(s[0]) && !IsLow(s[0]) {
      LoneUnit(s[0]);
    } else {
      ReplacementIsScalar();
    }
    hide IsScalar, PairValue, LoneValue;
  }
}
