/**
 Whole strings: what the two conversions mean, and the laws that hold of them for every input.
 */
module Transcoding {
  import opened Bytes
  import opened Unicode

  function Decode8(s: seq<byte>): seq<codepoint>
    decreases |s|
  {
    if s == [] then [] else [First(s)] + Decode8(s[Taken(s)..])
  }

  function Encode8(cs: seq<codepoint>): seq<byte> {
    if cs == [] then [] else Utf8(cs[0]) + Encode8(cs[1..])
  }

  function Decode16(s: seq<unit>): seq<codepoint>
    decreases |s|
  {
    if s == [] then [] else [First16(s)] + Decode16(s[Taken16(s)..])
  }

  function Encode16(cs: seq<codepoint>): seq<unit> {
    if cs == [] then [] else Utf16(cs[0]) + Encode16(cs[1..])
  }

  /** The UTF-8 form of a UTF-16 string. */
  function ToUtf8(s: seq<unit>): seq<byte> {
    Encode8(Decode16(s))
  }

  /** The UTF-16 form of a UTF-8 string. */
  function ToUtf16(s: seq<byte>): seq<unit> {
    Encode16(Decode8(s))
  }

  ghost predicate Scalars(cs: seq<codepoint>) {
    forall i :: 0 <= i < |cs| ==> IsScalar(cs[i])
  }

  lemma {:induction false} DecodedScalars8(s: seq<byte>)
    ensures Scalars(Decode8(s))
    decreases |s|
  {
    hide IsScalar, First, Taken;
    if s != [] {
      ExactAcceptance(s, 0);
      DecodedScalars8(s[Taken(s)..]);
    }
  }

  lemma {:induction false} DecodedScalars16(s: seq<unit>)
    ensures Scalars(Decode16(s))
    decreases |s|
  {
    hide IsScalar, First16, Taken16;
    if s != [] {
      First16IsScalar(s);
      DecodedScalars16(s[Taken16(s)..]);
    }
  }

  lemma Utf8First(c: codepoint, rest: seq<byte>)
    requires IsScalar(c)
    ensures First(Utf8(c) + rest) == c && Taken(Utf8(c) + rest) == |Utf8(c)|
  {
    hide IsScalar, First, Taken, Utf8, Utf8Char, Utf8Value;
    var s := Utf8(c) + rest;
    Utf8InGrammar(c);
    assert s[..|Utf8(c)|] == Utf8(c);
    ExactAcceptance(s, |Utf8(c)|);
  }

  /** Decoding inverts encoding. */
  lemma {:induction false} Decode8Encode8(cs: seq<codepoint>)
    requires Scalars(cs)
    ensures Decode8(Encode8(cs)) == cs
  {
    hide IsScalar, First, Taken, Utf8;
    if cs != [] {
      Utf8First(cs[0], Encode8(cs[1..]));
      Decode8Encode8(cs[1..]);
    }
  }

  lemma {:induction false} Decode16Encode16(cs: seq<codepoint>)
    requires Scalars(cs)
    ensures Decode16(Encode16(cs)) == cs
  {
    hide IsScalar, First16, Taken16, Utf16;
    if cs != [] {
      Utf16First(cs[0], Encode16(cs[1..]));
      Decode16Encode16(cs[1..]);
    }
  }

  // ----- Round trips -----

  /** A UTF-8 string in the sense of section 4 of RFC 3629. */
  predicate WellFormed8(s: seq<byte>)
    decreases |s|
  {
    s == [] || exists k :: 1 <= k <= |s| && k <= 4 && Utf8Char(s[..k]) && WellFormed8(s[k..])
  }

  lemma WellFormedStep(s: seq<byte>)
    requires s != []
    ensures WellFormed8(s) <==> Utf8Char(s[..Taken(s)]) && WellFormed8(s[Taken(s)..])
  {
    hide Taken, Utf8Char;
    if WellFormed8(s) {
      var k :| 1 <= k <= |s| && k <= 4 && Utf8Char(s[..k]) && WellFormed8(s[k..]);
      GrammarIsTaken(s, k);
    }
  }

  lemma FirstRecoded(s: seq<byte>)
    requires s != []
    ensures Utf8(First(s)) <= s <==> Utf8Char(s[..Taken(s)])
    ensures Utf8(First(s)) <= s ==> Utf8(First(s)) == s[..Taken(s)]
  {
    hide IsScalar, First, Taken, Utf8, Utf8Char, Utf8Value;
    var e := Utf8(First(s));
    ExactAcceptance(s, Taken(s));
    if Utf8Char(s[..Taken(s)]) {
      GrammarIsUtf8(s[..Taken(s)]);
    }
    if e <= s {
      assert s[..|e|] == e;
      Utf8InGrammar(First(s));
      GrammarIsTaken(s, |e|);
    }
  }

  lemma SplitOff(e: seq<byte>, x: seq<byte>, s: seq<byte>)
    ensures e + x == s <==> e <= s && x == s[|e|..]
  {
    if e <= s && x == s[|e|..] {
      assert e + x == s[..|e|] + s[|e|..];
    }
  }

  /** Encoding what was decoded gives the same octets back exactly when they were well-formed. */
  lemma {:induction false} Encode8Decode8(s: seq<byte>)
    ensures Encode8(Decode8(s)) == s <==> WellFormed8(s)
    decreases |s|
  {
    if s != [] {
      hide First, Taken, Utf8, Utf8Char, WellFormed8;
      var rest := s[Taken(s)..];
      var e := Utf8(First(s));
      Encode8Decode8(rest);
      WellFormedStep(s);
      FirstRecoded(s);
      assert Encode8(Decode8(s)) == e + Encode8(Decode8(rest));
      SplitOff(e, Encode8(Decode8(rest)), s);
    } else {
      assert WellFormed8(s);
    }
  }

  /** The position holds half of a surrogate pair whose other half is not where it belongs. */
  predicate Unpaired(s: seq<unit>, i: nat)
    requires i < |s|
  {
    || (IsHigh(s[i]) && !PairAt(s, i))
    || (IsLow(s[i]) && !(i > 0 && PairAt(s, i - 1)))
  }

  /** The string with U+FFFD in place of every unpaired surrogate. */
  function Repaired(s: seq<unit>): (r: seq<unit>)
    ensures |r| == |s|
  {
    seq(|s|, i requires 0 <= i < |s| => if Unpaired(s, i) then 0xFFFD else s[i])
  }

  lemma Recoded16(s: seq<unit>)
    requires s != []
    ensures Utf16(First16(s)) == Repaired(s)[..Taken16(s)]
  {
    hide IsHigh, IsLow, IsScalar, Lone, LoneValue, PairValue;
    SurrogatesDistinct(s[0]);
    ReplacementUnit();
    if PairAt(s, 0) {
      SurrogatesDistinct(s[1]);
      HalvesOfPair(s[0], s[1]);
    } else if !IsHigh(s[0]) && !IsLow(s[0]) {
      LoneUnit(s[0]);
    }
  }

  lemma ReplacementUnit()
    ensures Utf16(REPLACEMENT) == [0xFFFD]
  {
  }

  lemma RepairedRest(s: seq<unit>)
    requires s != []
    ensures Repaired(s)[Taken16(s)..] == Repaired(s[Taken16(s)..])
  {
    hide IsHigh, IsLow, Lone;
    var n := Taken16(s);
    var rest := s[n..];
    forall i | 0 <= i < |rest|
      ensures Repaired(s)[n + i] == Repaired(rest)[i]
    {
      SurrogatesDistinct(s[n - 1]);
      assert PairAt(rest, i) <==> PairAt(s, n + i);
      if i > 0 {
        assert PairAt(rest, i - 1) <==> PairAt(s, n + i - 1);
      }
    }
  }

  /** Decoding and encoding UTF-16 replaces exactly the unpaired surrogates. */
  lemma {:induction false} Encode16Decode16(s: seq<unit>)
    ensures Encode16(Decode16(s)) == Repaired(s)
    decreases |s|
  {
    if s != [] {
      hide First16, Taken16, Repaired, Utf16;
      Recoded16(s);
      RepairedRest(s);
      Encode16Decode16(s[Taken16(s)..]);
    }
  }

  /** UTF-16 to UTF-8 and back: only unpaired surrogates change. */
  lemma RoundTrip16(s: seq<unit>)
    ensures ToUtf16(ToUtf8(s)) == Repaired(s)
    ensures ToUtf16(ToUtf8(s)) == s <==> forall i :: 0 <= i < |s| ==> !Unpaired(s, i)
  {
    hide Decode8, Encode8, Decode16, Encode16;
    DecodedScalars16(s);
    Decode8Encode8(Decode16(s));
    Encode16Decode16(s);
    RepairedSame(s);
  }

  lemma RepairedSame(s: seq<unit>)
    ensures Repaired(s) == s <==> forall i :: 0 <= i < |s| ==> !Unpaired(s, i)
  {
    hide IsHigh, IsLow, Lone;
    if Repaired(s) == s {
      forall i | 0 <= i < |s|
        ensures !Unpaired(s, i)
      {
        ReplacementNoSurrogate();
        assert Repaired(s)[i] == s[i];
      }
    }
  }

  lemma ReplacementNoSurrogate()
    ensures !IsHigh(0xFFFD) && !IsLow(0xFFFD)
  {
  }

  /** UTF-8 to UTF-16 and back is the identity exactly on well-formed input. */
  lemma RoundTrip8(s: seq<byte>)
    ensures ToUtf8(ToUtf16(s)) == s <==> WellFormed8(s)
  {
    hide Decode8, Encode8, Decode16, Encode16, WellFormed8;
    DecodedScalars8(s);
    Decode16Encode16(Decode8(s));
    Encode8Decode8(s);
  }

  /** Out, back and out again is out once, from either side and for every input. */
  lemma ThirdConversion(u: seq<unit>, s: seq<byte>)
    ensures ToUtf8(ToUtf16(ToUtf8(u))) == ToUtf8(u)
    ensures ToUtf16(ToUtf8(ToUtf16(s))) == ToUtf16(s)
  {
    hide Decode8, Encode8, Decode16, Encode16;
    DecodedScalars16(u);
    Decode8Encode8(Decode16(u));
    Decode16Encode16(Decode16(u));
    DecodedScalars8(s);
    Decode16Encode16(Decode8(s));
    Decode8Encode8(Decode8(s));
  }

  /** The output of a conversion is always well-formed. */
  lemma OutputWellFormed(u: seq<unit>, s: seq<byte>)
    ensures WellFormed8(ToUtf8(u))
    ensures forall i :: 0 <= i < |ToUtf16(s)| ==> !Unpaired(ToUtf16(s), i)
  {
    hide ToUtf8, ToUtf16, WellFormed8, Unpaired;
    ThirdConversion(u, s);
    RoundTrip8(ToUtf8(u));
    RoundTrip16(ToUtf16(s));
  }

  // ----- Self-synchronisation -----

  lemma {:induction false} TailsJoined(p: seq<byte>, s: seq<byte>, most: nat)
    requires s == [] || !IsTail(s[0])
    ensures Tails(p + s, most) == Tails(p, most)
    decreases most
  {
    hide IsTail;
    if p == [] {
      assert p + s == s;
    } else if most > 0 {
      assert (p + s)[1..] == p[1..] + s;
      TailsJoined(p[1..], s, most - 1);
    }
  }

  /** A step that starts before an octet that cannot continue does not look past it. */
  lemma StepJoined(p: seq<byte>, s: seq<byte>)
    requires p != [] && (s == [] || !IsTail(s[0]))
    ensures Taken(p + s) == Taken(p) && First(p + s) == First(p)
  {
    hide IsTail, Announced, Utf8Char, Utf8Value;
    assert (p + s)[1..] == p[1..] + s;
    TailsJoined(p[1..], s, if Announced(p[0]) <= 1 then 0 else Announced(p[0]) - 1);
    assert (p + s)[..Taken(p)] == p[..Taken(p)];
  }

  lemma {:induction false} Decode8Joined(p: seq<byte>, s: seq<byte>)
    requires s == [] || !IsTail(s[0])
    ensures Decode8(p + s) == Decode8(p) + Decode8(s)
    decreases |p|
  {
    hide IsTail, First, Taken;
    if p == [] {
      assert p + s == s;
    } else {
      StepJoined(p, s);
      var n := Taken(p);
      assert (p + s)[n..] == p[n..] + s;
      Decode8Joined(p[n..], s);
    }
  }

  lemma Decode16First(s: seq<unit>)
    requires s != []
    ensures Decode16(s) == [First16(s)] + Decode16(s[Taken16(s)..])
  {
  }

  /** What comes first is the same when more follows, unless that completes a pair. */
  lemma First16Joined(p: seq<unit>, s: seq<unit>)
    requires p != [] && !(s != [] && IsHigh(p[|p| - 1]) && IsLow(s[0]))
    ensures Taken16(p + s) == Taken16(p) && First16(p + s) == First16(p)
    ensures (p + s)[Taken16(p)..] == p[Taken16(p)..] + s
  {
    hide IsHigh, IsLow, LoneValue, PairValue;
    assert PairAt(p + s, 0) <==> PairAt(p, 0);
  }

  lemma {:induction false} Decode16Joined(p: seq<unit>, s: seq<unit>)
    requires !(p != [] && s != [] && IsHigh(p[|p| - 1]) && IsLow(s[0]))
    ensures Decode16(p + s) == Decode16(p) + Decode16(s)
    decreases |p|
  {
    hide IsHigh, IsLow, Taken16, First16, Decode16;
    if p == [] {
      assert p + s == s;
      Decode16Nothing();
    } else {
      var n := Taken16(p);
      First16Joined(p, s);
      Decode16First(p + s);
      Decode16First(p);
      Decode16Joined(p[n..], s);
    }
  }

  lemma Decode16Nothing()
    ensures Decode16([]) == []
  {
  }

  lemma {:induction false} Encode8Joined(a: seq<codepoint>, b: seq<codepoint>)
    ensures Encode8(a + b) == Encode8(a) + Encode8(b)
  {
    hide Utf8;
    if a == [] {
      assert a + b == b;
    } else {
      assert (a + b)[1..] == a[1..] + b;
      Encode8Joined(a[1..], b);
    }
  }

  lemma {:induction false} Encode16Joined(a: seq<codepoint>, b: seq<codepoint>)
    ensures Encode16(a + b) == Encode16(a) + Encode16(b)
  {
    hide Utf16;
    if a == [] {
      assert a + b == b;
    } else {
      assert (a + b)[1..] == a[1..] + b;
      Encode16Joined(a[1..], b);
    }
  }

  /** Whatever precedes an octet that is no continuation octet, valid or not, has no effect on it. */
  lemma SelfSynchronising8(p: seq<byte>, s: seq<byte>)
    requires s == [] || !IsTail(s[0])
    ensures ToUtf16(p + s) == ToUtf16(p) + ToUtf16(s)
  {
    hide Decode8, Encode16, IsTail;
    Decode8Joined(p, s);
    Encode16Joined(Decode8(p), Decode8(s));
  }

  lemma SelfSynchronising16(p: seq<unit>, s: seq<unit>)
    requires !(p != [] && s != [] && IsHigh(p[|p| - 1]) && IsLow(s[0]))
    ensures ToUtf8(p + s) == ToUtf8(p) + ToUtf8(s)
  {
    hide Decode16, Encode8, IsHigh, IsLow;
    Decode16Joined(p, s);
    Encode8Joined(Decode16(p), Decode16(s));
  }

  /** A cut between the halves of a pair, on the other hand, always shows. */
  lemma SeparatedPair(p: seq<unit>, s: seq<unit>)
    requires p != [] && s != [] && IsHigh(p[|p| - 1]) && IsLow(s[0])
    ensures ToUtf8(p + s) != ToUtf8(p) + ToUtf8(s)
  {
    hide ToUtf8, IsHigh, IsLow;
    var h, l := p[|p| - 1], s[0];
    SurrogatesDistinct(h);
    SurrogatesDistinct(l);
    assert p == p[..|p| - 1] + [h];
    assert s == [l] + s[1..];
    assert p + s == p[..|p| - 1] + ([h, l] + s[1..]);
    SelfSynchronising16(p[..|p| - 1], [h, l] + s[1..]);
    SelfSynchronising16([h, l], s[1..]);
    SelfSynchronising16(p[..|p| - 1], [h]);
    SelfSynchronising16([l], s[1..]);
    PairInUtf8(h, l);
  }

  lemma PairInUtf8(h: unit, l: unit)
    requires IsHigh(h) && IsLow(l)
    ensures |ToUtf8([h, l])| == 4 && |ToUtf8([h])| == |ToUtf8([l])| == 3
  {
    SurrogatesDistinct(h);
    SurrogatesDistinct(l);
    hide IsHigh, IsLow, PairValue, LoneValue, Utf8;
    PairInFour(h, l);
    OneCodepoint([h, l]);
    OneCodepoint([h]);
    OneCodepoint([l]);
    assert Utf8Length(REPLACEMENT) == 3;
  }

  lemma OneCodepoint(s: seq<unit>)
    requires s != [] && Taken16(s) == |s|
    ensures ToUtf8(s) == Utf8(First16(s))
  {
    hide Taken16, First16, Utf8;
    var rest := s[Taken16(s)..];
    assert rest == [];
    assert Decode16(s) == [First16(s)] + Decode16(rest);
    assert Encode8([First16(s)]) == Utf8(First16(s)) + Encode8([First16(s)][1..]);
  }

  lemma PairInFour(h: unit, l: unit)
    ensures Utf8Length(PairValue(h, l)) == 4
  {
    hide PairValue, IsScalar;
    PairIsScalar(h, l);
  }

  // ----- Order -----

  /** Octet strings in the order that `memcmp` gives them, a proper prefix first. */
  predicate LessOctets(a: seq<byte>, b: seq<byte>) {
    b != [] && (a == [] || a[0] < b[0] || (a[0] == b[0] && LessOctets(a[1..], b[1..])))
  }

  predicate Smaller(c: codepoint, d: codepoint) { c < d }

  /** Codepoint strings in codepoint order. */
  predicate LessCodepoints(a: seq<codepoint>, b: seq<codepoint>) {
    b != [] && (a == [] || Smaller(a[0], b[0]) || (a[0] == b[0] && LessCodepoints(a[1..], b[1..])))
  }

  /** The strings agree up to an octet that is smaller in the first. */
  ghost predicate Diverges(a: seq<byte>, b: seq<byte>, k: nat) {
    k < |a| && k < |b| && a[..k] == b[..k] && a[k] < b[k]
  }

  lemma {:induction false} DivergingLess(a: seq<byte>, b: seq<byte>, k: nat, x: seq<byte>, y: seq<byte>)
    requires Diverges(a, b, k)
    ensures LessOctets(a + x, b + y) && !LessOctets(b + y, a + x)
  {
    if k > 0 {
      assert a[0] == a[..k][0] == b[..k][0] == b[0];
      assert a[1..][..k - 1] == a[..k][1..] && b[1..][..k - 1] == b[..k][1..];
      DivergingLess(a[1..], b[1..], k - 1, x, y);
      assert (a + x)[1..] == a[1..] + x && (b + y)[1..] == b[1..] + y;
    }
  }

  lemma {:induction false} SamePrefixLess(p: seq<byte>, x: seq<byte>, y: seq<byte>)
    ensures LessOctets(p + x, p + y) <==> LessOctets(x, y)
  {
    if p == [] {
      assert p + x == x && p + y == y;
    } else {
      assert (p + x)[1..] == p[1..] + x && (p + y)[1..] == p[1..] + y;
      SamePrefixLess(p[1..], x, y);
    }
  }

  function Shifted(c: codepoint): codepoint { c >> 6 }

  lemma HighBitsLess(x: codepoint, y: codepoint)
    requires Smaller(Shifted(y), Shifted(x))
    ensures Smaller(y, x)
  {
  }

  lemma LowBitsLess(x: codepoint, y: codepoint)
    requires Smaller(x, y) && Shifted(x) == Shifted(y)
    ensures Tail(x) < Tail(y)
  {
  }

  lemma TailLess(x: codepoint, y: codepoint)
    requires Shifted(x) == Shifted(y) && Tail(x) < Tail(y)
    ensures Smaller(x, y)
  {
  }

  lemma SameBits(x: codepoint, y: codepoint)
    requires Shifted(x) == Shifted(y) && Tail(x) == Tail(y)
    ensures x == y
  {
  }

  predicate Comparable(x: codepoint, y: codepoint) {
    Smaller(x, y) || x == y || Smaller(y, x)
  }

  lemma TrichotomyStep(x: codepoint, y: codepoint)
    requires Comparable(Shifted(x), Shifted(y))
    ensures Comparable(x, y)
  {
    hide Smaller, Shifted, Tail;
    if Smaller(Shifted(x), Shifted(y)) {
      HighBitsLess(y, x);
    } else if Smaller(Shifted(y), Shifted(x)) {
      HighBitsLess(x, y);
    } else if Tail(x) < Tail(y) {
      TailLess(x, y);
    } else if Tail(y) < Tail(x) {
      TailLess(y, x);
    } else {
      SameBits(x, y);
    }
  }

  lemma TrichotomyTop(x: codepoint, y: codepoint)
    ensures Comparable(x >> 24, y >> 24)
  {
  }

  lemma Asymmetry(x: codepoint, y: codepoint)
    ensures !(Smaller(x, y) && Smaller(y, x)) && !Smaller(x, x)
  {
  }

  lemma Shifts(c: codepoint)
    ensures Shifted(c) == c >> 6
    ensures Shifted(c >> 6) == c >> 12
    ensures Shifted(c >> 12) == c >> 18
  {
  }

  lemma TopShift(c: codepoint)
    ensures Shifted(c >> 18) == c >> 24
  {
  }

  lemma Trichotomy(x: codepoint, y: codepoint)
    ensures Comparable(x, y)
  {
    hide Smaller, Shifted, Comparable;
    TrichotomyTop(x, y);
    Shifts(x);
    Shifts(y);
    TopShift(x);
    TopShift(y);
    TrichotomyStep(x >> 18, y >> 18);
    TrichotomyStep(x >> 12, y >> 12);
    TrichotomyStep(x >> 6, y >> 6);
    TrichotomyStep(x, y);
  }

  /** Dropping the last six bits keeps the order, or leaves it to the continuation octet. */
  lemma OrderBySixBits(x: codepoint, y: codepoint)
    requires Smaller(x, y)
    ensures Smaller(Shifted(x), Shifted(y)) || (Shifted(x) == Shifted(y) && Tail(x) < Tail(y))
  {
    hide Tail, Smaller, Shifted;
    Asymmetry(x, y);
    Trichotomy(Shifted(x), Shifted(y));
    if Smaller(Shifted(y), Shifted(x)) {
      HighBitsLess(x, y);
    } else if Shifted(x) == Shifted(y) {
      LowBitsLess(x, y);
    }
  }

  lemma LeadsByLength(c: codepoint, d: codepoint)
    ensures Lead1(c) < Lead2(d) && Lead1(c) < Lead3(d) && Lead1(c) < Lead4(d)
    ensures Lead2(c) < Lead3(d) && Lead2(c) < Lead4(d) && Lead3(c) < Lead4(d)
  {
  }

  lemma LeadOrder1(c: codepoint, d: codepoint)
    requires Smaller(c, d) && d <= 0x7F
    ensures Lead1(c) < Lead1(d)
  {
  }

  lemma LeadOrder2(c: codepoint, d: codepoint)
    requires Smaller(c >> 6, d >> 6) && d <= 0x7FF
    ensures Lead2(c) < Lead2(d)
  {
  }

  lemma LeadOrder3(c: codepoint, d: codepoint)
    requires Smaller(c >> 12, d >> 12) && d <= 0xFFFF
    ensures Lead3(c) < Lead3(d)
  {
  }

  lemma LeadOrder4(c: codepoint, d: codepoint)
    requires Smaller(c >> 18, d >> 18) && d <= 0x10FFFF
    ensures Lead4(c) < Lead4(d)
  {
  }

  lemma SameLead(c: codepoint, d: codepoint)
    ensures c >> 6 == d >> 6 ==> Lead2(c) == Lead2(d)
    ensures c >> 12 == d >> 12 ==> Lead3(c) == Lead3(d)
    ensures c >> 18 == d >> 18 ==> Lead4(c) == Lead4(d)
  {
  }

  lemma LengthsDiffer(c: codepoint, d: codepoint)
    requires Utf8Length(c) < Utf8Length(d)
    ensures Diverges(Utf8(c), Utf8(d), 0)
  {
    hide Lead1, Lead2, Lead3, Lead4, Tail;
    LeadsByLength(c, d);
  }

  lemma LengthsGrow(c: codepoint, d: codepoint)
    requires Smaller(c, d)
    ensures Utf8Length(c) <= Utf8Length(d)
  {
  }

  /** Octet by octet, the smaller codepoint comes first. */
  lemma Utf8Order(c: codepoint, d: codepoint) returns (k: nat)
    requires Smaller(c, d) && d <= 0x10FFFF
    ensures Diverges(Utf8(c), Utf8(d), k)
  {
    hide Lead1, Lead2, Lead3, Lead4, Tail, Smaller;
    LengthsGrow(c, d);
    if Utf8Length(c) < Utf8Length(d) {
      LengthsDiffer(c, d);
      k := 0;
    } else if d <= 0x7F {
      LeadOrder1(c, d);
      k := 0;
    } else if d <= 0x7FF {
      k := Utf8Order2(c, d);
    } else if d <= 0xFFFF {
      k := Utf8Order3(c, d);
    } else {
      k := Utf8Order4(c, d);
    }
  }

  lemma Utf8Order2(c: codepoint, d: codepoint) returns (k: nat)
    requires Smaller(c, d) && d <= 0x7FF
    ensures Diverges([Lead2(c), Tail(c)], [Lead2(d), Tail(d)], k)
  {
    hide Lead2, Lead3, Lead4, Tail, Smaller, Shifted;
    OrderBySixBits(c, d);
    SameLead(c, d);
    Shifts(c);
    Shifts(d);
    if Smaller(Shifted(c), Shifted(d)) {
      LeadOrder2(c, d);
      k := 0;
    } else {
      k := 1;
    }
  }

  lemma Utf8Order3(c: codepoint, d: codepoint) returns (k: nat)
    requires Smaller(c, d) && d <= 0xFFFF
    ensures Diverges([Lead3(c), Tail(c >> 6), Tail(c)], [Lead3(d), Tail(d >> 6), Tail(d)], k)
  {
    hide Lead2, Lead3, Lead4, Tail, Smaller, Shifted;
    OrderBySixBits(c, d);
    SameLead(c, d);
    Shifts(c);
    Shifts(d);
    if Smaller(Shifted(c), Shifted(d)) {
      OrderBySixBits(c >> 6, d >> 6);
      if Smaller(c >> 12, d >> 12) {
        LeadOrder3(c, d);
        k := 0;
      } else {
        k := 1;
      }
    } else {
      k := 2;
    }
  }

  lemma Utf8Order4(c: codepoint, d: codepoint) returns (k: nat)
    requires Smaller(c, d) && d <= 0x10FFFF
    ensures Diverges([Lead4(c), Tail(c >> 12), Tail(c >> 6), Tail(c)],
                     [Lead4(d), Tail(d >> 12), Tail(d >> 6), Tail(d)], k)
  {
    hide Lead2, Lead3, Lead4, Tail, Smaller, Shifted;
    OrderBySixBits(c, d);
    SameLead(c, d);
    Shifts(c);
    Shifts(d);
    if Smaller(Shifted(c), Shifted(d)) {
      OrderBySixBits(c >> 6, d >> 6);
      if Smaller(c >> 12, d >> 12) {
        OrderBySixBits(c >> 12, d >> 12);
        if Smaller(c >> 18, d >> 18) {
          LeadOrder4(c, d);
          k := 0;
        } else {
          k := 1;
        }
      } else {
        k := 2;
      }
    } else {
      k := 3;
    }
  }

  /** The octets of two codepoint strings compare as the strings do. */
  lemma {:induction false} Encode8Order(cs: seq<codepoint>, ds: seq<codepoint>)
    requires Scalars(cs) && Scalars(ds)
    ensures LessOctets(Encode8(cs), Encode8(ds)) <==> LessCodepoints(cs, ds)
  {
    hide Utf8, IsScalar, Smaller;
    if cs != [] && ds != [] {
      var c, d := cs[0], ds[0];
      Trichotomy(c, d);
      Asymmetry(c, d);
      ScalarBound(c);
      ScalarBound(d);
      if c == d {
        SamePrefixLess(Utf8(c), Encode8(cs[1..]), Encode8(ds[1..]));
        Encode8Order(cs[1..], ds[1..]);
      } else if Smaller(c, d) {
        var k := Utf8Order(c, d);
        DivergingLess(Utf8(c), Utf8(d), k, Encode8(cs[1..]), Encode8(ds[1..]));
      } else {
        var k := Utf8Order(d, c);
        DivergingLess(Utf8(d), Utf8(c), k, Encode8(ds[1..]), Encode8(cs[1..]));
      }
    }
  }

  /** Comparing converted strings octet by octet compares what they say, for any two inputs. */
  lemma OrderPreserved(u: seq<unit>, v: seq<unit>)
    ensures LessOctets(ToUtf8(u), ToUtf8(v)) <==> LessCodepoints(Decode16(u), Decode16(v))
    ensures ToUtf8(u) == ToUtf8(v) <==> Decode16(u) == Decode16(v)
  {
    hide Decode8, Encode8, Decode16, LessOctets, LessCodepoints;
    DecodedScalars16(u);
    DecodedScalars16(v);
    Encode8Order(Decode16(u), Decode16(v));
    Decode8Encode8(Decode16(u));
    Decode8Encode8(Decode16(v));
  }

  // ----- Room -----

  /** The codepoints that find room: each is kept exactly when it fits behind those kept before it. */
  function Kept8(cs: seq<codepoint>, room: nat): seq<codepoint> {
    if cs == [] then []
    else
      var kept := Kept8(cs[..|cs| - 1], room);
      var c := cs[|cs| - 1];
      if |Encode8(kept)| + Utf8Length(c) <= room then kept + [c] else kept
  }

  function Kept16(cs: seq<codepoint>, room: nat): seq<codepoint> {
    if cs == [] then []
    else
      var kept := Kept16(cs[..|cs| - 1], room);
      var c := cs[|cs| - 1];
      if |Encode16(kept)| + Utf16Length(c) <= room then kept + [c] else kept
  }

  predicate Subsequence(a: seq<codepoint>, b: seq<codepoint>) {
    || a == []
    || (b != [] && a[|a| - 1] == b[|b| - 1] && Subsequence(a[..|a| - 1], b[..|b| - 1]))
    || (b != [] && Subsequence(a, b[..|b| - 1]))
  }

  lemma Encode8Last(cs: seq<codepoint>, c: codepoint)
    ensures Encode8(cs + [c]) == Encode8(cs) + Utf8(c)
  {
    hide Utf8;
    Encode8Joined(cs, [c]);
    assert Encode8([c]) == Utf8(c);
  }

  lemma Encode16Last(cs: seq<codepoint>, c: codepoint)
    ensures Encode16(cs + [c]) == Encode16(cs) + Utf16(c)
  {
    hide Utf16;
    Encode16Joined(cs, [c]);
    assert Encode16([c]) == Utf16(c);
  }

  /** What is kept is a subsequence that fits, and is everything exactly when everything fits. */
  lemma {:induction false} Kept8Laws(cs: seq<codepoint>, room: nat)
    ensures |Encode8(Kept8(cs, room))| <= room
    ensures Subsequence(Kept8(cs, room), cs)
    ensures |Kept8(cs, room)| <= |cs|
    ensures Kept8(cs, room) == cs <==> |Encode8(cs)| <= room
  {
    hide Utf8, Utf8Length;
    if cs != [] {
      var front, c := cs[..|cs| - 1], cs[|cs| - 1];
      var kept := Kept8(front, room);
      Kept8Laws(front, room);
      Encode8Last(front, c);
      Encode8Last(kept, c);
      assert cs == front + [c];
    }
  }

  lemma {:induction false} Kept16Laws(cs: seq<codepoint>, room: nat)
    ensures |Encode16(Kept16(cs, room))| <= room
    ensures Subsequence(Kept16(cs, room), cs)
    ensures |Kept16(cs, room)| <= |cs|
    ensures Kept16(cs, room) == cs <==> |Encode16(cs)| <= room
  {
    hide Utf16, Utf16Length;
    if cs != [] {
      var front, c := cs[..|cs| - 1], cs[|cs| - 1];
      var kept := Kept16(front, room);
      Kept16Laws(front, room);
      Encode16Last(front, c);
      Encode16Last(kept, c);
      assert cs == front + [c];
    }
  }

  lemma {:induction false} SubsequenceScalars(a: seq<codepoint>, b: seq<codepoint>)
    requires Subsequence(a, b) && Scalars(b)
    ensures Scalars(a)
  {
    hide IsScalar;
    if a != [] {
      var front := b[..|b| - 1];
      if Subsequence(a, front) {
        SubsequenceScalars(a, front);
      } else {
        SubsequenceScalars(a[..|a| - 1], front);
        assert a == a[..|a| - 1] + [b[|b| - 1]];
      }
    }
  }

  /** Whatever the room, a conversion writes a well-formed string. */
  lemma ShortOutputWellFormed(u: seq<unit>, s: seq<byte>, room: nat)
    ensures WellFormed8(Encode8(Kept8(Decode16(u), room)))
    ensures
      var written := Encode16(Kept16(Decode8(s), room));
      forall i :: 0 <= i < |written| ==> !Unpaired(written, i)
  {
    hide Decode8, Decode16, Encode8, Encode16, Kept8, Kept16, WellFormed8, Unpaired, Subsequence, Scalars, Repaired;
    var k8, k16 := Kept8(Decode16(u), room), Kept16(Decode8(s), room);
    Kept8Laws(Decode16(u), room);
    Kept16Laws(Decode8(s), room);
    DecodedScalars16(u);
    DecodedScalars8(s);
    SubsequenceScalars(k8, Decode16(u));
    SubsequenceScalars(k16, Decode8(s));
    Decode8Encode8(k8);
    Encode8Decode8(Encode8(k8));
    Decode16Encode16(k16);
    Encode16Decode16(Encode16(k16));
    RepairedSame(Encode16(k16));
  }
}
