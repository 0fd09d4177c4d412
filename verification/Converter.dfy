/**
 The converter itself (lib/converter.c): decoders that move an index over a buffer, encoders that write
 into one, and the two loops over them.
 */
module Converter {
  import opened Bytes
  import opened Unicode
  import opened Transcoding

  // ----- UTF-16 in -----

  lemma SurrogateMasks(u: unit)
    ensures u & 0xF800 == 0xD800 <==> IsHigh(u) || IsLow(u)
    ensures u & 0xFC00 == 0xD800 <==> IsHigh(u)
    ensures u & 0xFC00 == 0xDC00 <==> IsLow(u)
  {
  }

  lemma PairBits(high: unit, low: unit)
    ensures ((((high & 0x03FF) as codepoint) << 10) | ((low & 0x03FF) as codepoint)) + 0x10000 == PairValue(high, low)
  {
    hide Raised;
    assert Raised((((high & 0x03FF) as codepoint) << 10) | ((low & 0x03FF) as codepoint)) == PairValue(high, low);
    RaisedIsSum((((high & 0x03FF) as codepoint) << 10) | ((low & 0x03FF) as codepoint));
  }

  lemma RaisedIsSum(d: codepoint)
    ensures Raised(d) == d + 0x10000
  {
  }

  /** `decode_utf16`: `index'` is where the last unit of the codepoint is. */
  method DecodeUtf16(utf16: array<unit>, len: nat, index: nat) returns (c: codepoint, index': nat)
    requires index < len <= utf16.Length
    ensures c == First16(utf16[index..len])
    ensures index' + 1 == index + Taken16(utf16[index..len])
  {
    hide IsHigh, IsLow, PairValue;
    index' := index;
    var high := utf16[index];
    SurrogateMasks(high);
    SurrogatesDistinct(high);
    if high & 0xF800 != 0xD800 {
      return LoneValue(high), index';
    }
    if high & 0xFC00 != 0xD800 {
      return REPLACEMENT, index';
    }
    if index == len - 1 {
      return REPLACEMENT, index';
    }
    var low := utf16[index + 1];
    SurrogateMasks(low);
    if low & 0xFC00 != 0xDC00 {
      return REPLACEMENT, index';
    }
    index' := index' + 1;
    c := (high & 0x03FF) as codepoint;
    c := c << 10;
    c := c | ((low & 0x03FF) as codepoint);
    c := c + 0x10000;
    PairBits(high, low);
  }

  // ----- UTF-8 out -----

  datatype Pattern = Pattern(mask: byte, value: byte)

  /** The leading octet of an encoding in `n` octets, as a mask and the value it must leave. */
  function LeadingByte(n: nat): Pattern
    requires 1 <= n <= 4
  {
    match n
    case 1 => Pattern(0x80, 0x00)
    case 2 => Pattern(0xE0, 0xC0)
    case 3 => Pattern(0xF0, 0xE0)
    case _ => Pattern(0xF8, 0xF0)
  }

  /** The low octet of a codepoint, as a store into an octet truncates it. */
  function LowOctet(c: codepoint): byte { (c & 0xFF) as byte }

  function ContinuationOctet(c: codepoint): byte { (LowOctet(c) & !0xC0) | 0x80 }

  function LeadOctet(c: codepoint, n: nat): byte
    requires 1 <= n <= 4
  {
    (LowOctet(c) & !LeadingByte(n).mask) | LeadingByte(n).value
  }

  function ShiftedBy(c: codepoint, n: nat): codepoint {
    if n == 0 then c else Shifted(ShiftedBy(c, n - 1))
  }

  lemma ContinuationIsTail(c: codepoint)
    ensures ContinuationOctet(c) == Tail(c)
  {
  }

  lemma Lead1Octet(c: codepoint)
    ensures LeadOctet(c, 1) == Lead1(c)
  {
  }

  lemma Lead2Octet(c: codepoint)
    ensures LeadOctet(c >> 6, 2) == Lead2(c)
  {
  }

  lemma Lead3Octet(c: codepoint)
    ensures LeadOctet(c >> 12, 3) == Lead3(c)
  {
  }

  lemma Lead4Octet(c: codepoint)
    ensures LeadOctet(c >> 18, 4) == Lead4(c)
  {
  }

  lemma ShiftedByFew(c: codepoint)
    ensures ShiftedBy(c, 0) == c && ShiftedBy(c, 1) == c >> 6
    ensures ShiftedBy(c, 2) == c >> 12 && ShiftedBy(c, 3) == c >> 18
  {
    hide Shifted;
    Shifts(c);
    assert ShiftedBy(c, 1) == Shifted(c);
    assert ShiftedBy(c, 2) == Shifted(Shifted(c));
    assert ShiftedBy(c, 3) == Shifted(Shifted(Shifted(c)));
  }

  /** The octets of a codepoint, as repeated shifting yields them from the last to the first. */
  lemma Utf8ByShifting(c: codepoint)
    ensures
      var n := Utf8Length(c);
      && Utf8(c)[0] == LeadOctet(ShiftedBy(c, n - 1), n)
      && forall k :: 1 <= k < n ==> Utf8(c)[k] == ContinuationOctet(ShiftedBy(c, n - 1 - k))
  {
    ShiftedByFew(c);
    hide ShiftedBy, ContinuationOctet, LeadOctet, Tail, Lead1, Lead2, Lead3, Lead4;
    Lead1Octet(c);
    Lead2Octet(c);
    Lead3Octet(c);
    Lead4Octet(c);
    ContinuationIsTail(c);
    ContinuationIsTail(c >> 6);
    ContinuationIsTail(c >> 12);
  }

  /** `encode_utf8`: writes all of the codepoint or, for lack of room, nothing. */
  method EncodeUtf8(c: codepoint, utf8: array<byte>, len: nat, index: nat) returns (written: nat)
    requires index <= len <= utf8.Length
    modifies utf8
    ensures written == if index + Utf8Length(c) <= len then Utf8Length(c) else 0
    ensures written == 0 ==> utf8[..] == old(utf8[..])
    ensures written != 0 ==> utf8[..] == old(utf8[..index]) + Utf8(c) + old(utf8[index + written..])
  {
    hide LowOctet, LeadingByte, LeadOctet, ContinuationOctet, Utf8, Utf8Length, Shifted, ShiftedBy;
    var size := Utf8Length(c);
    if index + size > len {
      return 0;
    }
    ghost var octets := Utf8(c);
    ghost var before := utf8[..];
    Utf8ByShifting(c);
    ShiftedByStep(c, 0);
    var rest := c;
    var contIndex := size - 1;
    while contIndex > 0
      invariant 0 <= contIndex < size
      invariant rest == ShiftedBy(c, size - 1 - contIndex)
      invariant forall j :: index + contIndex < j < index + size ==> utf8[j] == octets[j - index]
      invariant forall j :: 0 <= j <= index + contIndex ==> utf8[j] == before[j]
      invariant forall j :: index + size <= j < utf8.Length ==> utf8[j] == before[j]
    {
      utf8[index + contIndex] := ContinuationOctet(rest);
      ShiftedByStep(c, size - 1 - contIndex);
      rest := Shifted(rest);
      contIndex := contIndex - 1;
    }
    utf8[index] := LeadOctet(rest, size);
    Written(utf8[..], before, index, octets);
    written := size;
  }

  lemma Written<T>(buffer: seq<T>, before: seq<T>, at: nat, octets: seq<T>)
    requires |buffer| == |before| && at + |octets| <= |buffer|
    requires forall j :: 0 <= j < at ==> buffer[j] == before[j]
    requires forall j :: at <= j < at + |octets| ==> buffer[j] == octets[j - at]
    requires forall j :: at + |octets| <= j < |buffer| ==> buffer[j] == before[j]
    ensures buffer == before[..at] + octets + before[at + |octets|..]
  {
  }

  lemma ShiftedByStep(c: codepoint, n: nat)
    ensures ShiftedBy(c, 0) == c
    ensures ShiftedBy(c, n + 1) == Shifted(ShiftedBy(c, n))
  {
    hide Shifted;
  }

  /** `utf16_to_utf8`. Without a buffer it returns the room needed; with one it returns how much it
      wrote there. */
  method Utf16ToUtf8(utf16: array<unit>, utf16Len: nat, utf8: array?<byte>, utf8Len: nat) returns (n: nat)
    requires utf16Len <= utf16.Length && (utf8 != null ==> utf8Len <= utf8.Length)
    modifies if utf8 != null then {utf8} else {}
    ensures utf8 == null ==> n == |ToUtf8(utf16[..utf16Len])|
    ensures utf8 != null ==> n <= utf8Len
    ensures utf8 != null ==>
      var kept := Encode8(Kept8(Decode16(utf16[..utf16Len]), utf8Len));
      n == |kept| && utf8[..] == kept + old(utf8[n..])
  {
    hide First16, Taken16, Utf8, Utf8Length, Encode8, Decode16, Kept8, Holds8;
    n := 0;
    ghost var s := utf16[..utf16Len];
    ghost var cs: seq<codepoint> := [];
    ghost var original: seq<byte> := if utf8 == null then [] else utf8[..];
    NoCodepoints(utf8Len);
    if utf8 != null {
      HoldsNothing8(original, utf8Len);
    }
    var i := 0;
    while i < utf16Len
      invariant i <= utf16Len
      invariant Decode16(s) == cs + Decode16(s[i..])
      invariant utf8 == null ==> n == |Encode8(cs)|
      invariant utf8 != null ==> n <= utf8Len && Holds8(utf8[..], cs, utf8Len, n, original)
    {
      assert s[i..] == utf16[i..utf16Len];
      var c, last := DecodeUtf16(utf16, utf16Len, i);
      Decode16Step(s, i);
      Onward(Decode16(s), cs, Decode16(s[i..]), c, Decode16(s[last + 1..]));
      Kept8Next(cs, c, utf8Len);
      if utf8 == null {
        n := n + Utf8Length(c);
      } else {
        ghost var before := utf8[..];
        var written := EncodeUtf8(c, utf8, utf8Len, n);
        HoldsNext8(before, utf8[..], cs, c, utf8Len, n, written, original);
        n := n + written;
      }
      cs := cs + [c];
      i := last + 1;
    }
    assert s[i..] == [];
    assert Decode16(s) == cs;
    if utf8 != null {
      HoldsMeans8(utf8[..], cs, utf8Len, n, original);
    }
  }

  /** The buffer holds the codepoints so far that there was room for, and behind them what it held. */
  ghost predicate Holds8(buffer: seq<byte>, cs: seq<codepoint>, room: nat, n: nat, original: seq<byte>) {
    var kept := Encode8(Kept8(cs, room));
    n == |kept| <= room <= |original| && buffer == kept + original[n..]
  }

  lemma HoldsNothing8(original: seq<byte>, room: nat)
    requires room <= |original|
    ensures Holds8(original, [], room, 0, original)
  {
    NoCodepoints(room);
    hide Encode8, Kept8;
    assert [] + original[0..] == original;
  }

  lemma HoldsMeans8(buffer: seq<byte>, cs: seq<codepoint>, room: nat, n: nat, original: seq<byte>)
    requires Holds8(buffer, cs, room, n, original)
    ensures
      var kept := Encode8(Kept8(cs, room));
      n == |kept| <= room <= |original| && buffer == kept + original[n..]
  {
  }

  lemma HoldsNext8(before: seq<byte>, buffer: seq<byte>, cs: seq<codepoint>, c: codepoint, room: nat, n: nat,
                   written: nat, original: seq<byte>)
    requires Holds8(before, cs, room, n, original)
    requires written == if n + Utf8Length(c) <= room then Utf8Length(c) else 0
    requires buffer == if written != 0 then before[..n] + Utf8(c) + before[n + written..] else before
    ensures n + written <= room && Holds8(buffer, cs + [c], room, n + written, original)
  {
    hide Utf8, Utf8Length, Encode8, Kept8;
    Kept8Next(cs, c, room);
    MoreHeld(Encode8(Kept8(cs, room)), Utf8(c), room, n, written, before, buffer, original);
  }

  lemma Onward<T>(whole: seq<T>, front: seq<T>, rest: seq<T>, x: T, more: seq<T>)
    requires whole == front + rest && rest == [x] + more
    ensures whole == front + [x] + more
  {
  }

  lemma MoreHeld<T>(kept: seq<T>, more: seq<T>, room: nat, n: nat, written: nat, before: seq<T>, buffer: seq<T>,
                    original: seq<T>)
    requires n == |kept| <= room <= |original| && before == kept + original[n..] && more != []
    requires written == if n + |more| <= room then |more| else 0
    requires buffer == if written != 0 then before[..n] + more + before[n + written..] else before
    ensures
      var next := if n + |more| <= room then kept + more else kept;
      n + written == |next| <= room && buffer == next + original[n + written..]
  {
    if written != 0 {
      assert before[..n] == kept;
      assert before[n + written..] == original[n + written..];
    }
  }

  lemma NoCodepoints(room: nat)
    ensures Encode8([]) == [] && Encode16([]) == []
    ensures Kept8([], room) == [] && Kept16([], room) == []
    ensures Decode8([]) == [] && Decode16([]) == []
  {
  }

  lemma Decode16Step(s: seq<unit>, i: nat)
    requires i < |s|
    ensures i + Taken16(s[i..]) <= |s|
    ensures Decode16(s[i..]) == [First16(s[i..])] + Decode16(s[i + Taken16(s[i..])..])
  {
    hide First16, Taken16;
    assert s[i..][Taken16(s[i..])..] == s[i + Taken16(s[i..])..];
  }

  /** One more codepoint adds its octets to the full encoding, and to what is kept if there is room. */
  lemma Kept8Next(cs: seq<codepoint>, c: codepoint, room: nat)
    ensures Encode8(cs + [c]) == Encode8(cs) + Utf8(c)
    ensures
      var kept := Encode8(Kept8(cs, room));
      Encode8(Kept8(cs + [c], room)) == if |kept| + Utf8Length(c) <= room then kept + Utf8(c) else kept
  {
    hide Encode8, Utf8Length, Utf8;
    assert (cs + [c])[..|cs|] == cs;
    Encode8Last(cs, c);
    Encode8Last(Kept8(cs, room), c);
  }

  // ----- UTF-8 in -----

  function Matches(b: byte, n: nat): bool
    requires 1 <= n <= 4
  {
    b & LeadingByte(n).mask == LeadingByte(n).value
  }

  lemma MatchesIsAnnounced(b: byte)
    ensures Matches(b, 1) <==> Announced(b) == 1
    ensures Matches(b, 2) <==> Announced(b) == 2
    ensures Matches(b, 3) <==> Announced(b) == 3
    ensures Matches(b, 4) <==> Announced(b) == 4
  {
  }

  lemma ContinuationMask(b: byte)
    ensures b & 0xC0 == 0x80 <==> IsTail(b)
  {
  }

  /** The bits of a leading octet that its pattern leaves to the codepoint. */
  function LeadBits(b: byte, n: nat): codepoint
    requires 1 <= n <= 4
  {
    (b & !LeadingByte(n).mask) as codepoint
  }

  function WithSixBits(c: codepoint, b: byte): codepoint {
    (c << 6) | ((b & !0xC0) as codepoint)
  }

  /** The codepoint as collected from the leading octet and `k` continuation octets. */
  function Collected(s: seq<byte>, n: nat, k: nat): codepoint
    requires 1 <= n <= 4 && k < |s|
  {
    if k == 0 then LeadBits(s[0], n) else WithSixBits(Collected(s, n, k - 1), s[k])
  }

  /** What may come out of the collecting: a scalar, from as few octets as it takes. */
  predicate Accepts(c: codepoint, n: nat) {
    Utf8Length(c) == n && IsScalar(c)
  }

  /** The mask for surrogates looks at the low half only. The comparison with the end of the first plane
      keeps codepoints beyond that from being taken for surrogates. */
  lemma SurrogateTest(c: codepoint)
    ensures c <= 0x10FFFF && !(c < 0xFFFF && c & 0xF800 == 0xD800) <==> IsScalar(c)
  {
  }

  lemma Collected1(a: byte)
    requires Announced(a) == 1
    ensures LeadBits(a, 1) == Value1(a)
    ensures Accepts(Value1(a), 1) && Grammar1(a)
  {
  }

  lemma Collected2(a: byte, b: byte)
    ensures WithSixBits(LeadBits(a, 2), b) == Value2(a, b)
  {
    assert WithSixBits((a & 0x1F) as codepoint, b) == Value2(a, b);
  }

  // The codepoint from the bits of a leading octet and those of one, two or three continuation octets.
  function Six(b: byte): codepoint { (b & 0x3F) as codepoint }
  function Join1(x: codepoint, p: codepoint): codepoint { (x << 6) | p }
  function Join2(x: codepoint, p: codepoint, q: codepoint): codepoint { (x << 12) | (p << 6) | q }
  function Join3(x: codepoint, p: codepoint, q: codepoint, r: codepoint): codepoint {
    (x << 18) | (p << 12) | (q << 6) | r
  }

  lemma OneTail(x: codepoint, b: byte)
    ensures WithSixBits(x, b) == Join1(x, Six(b))
  {
  }

  lemma TwoTails(x: codepoint, p: codepoint, c: byte)
    ensures WithSixBits(Join1(x, p), c) == Join2(x, p, Six(c))
  {
  }

  lemma ThreeTails(x: codepoint, p: codepoint, q: codepoint, d: byte)
    ensures WithSixBits(Join2(x, p, q), d) == Join3(x, p, q, Six(d))
  {
  }

  lemma Value3Joined(a: byte, b: byte, c: byte)
    ensures Value3(a, b, c) == Join2(LeadBits(a, 3), Six(b), Six(c))
  {
    assert LeadBits(a, 3) == (a & 0x0F) as codepoint;
  }

  lemma Value4Joined(a: byte, b: byte, c: byte, d: byte)
    ensures Value4(a, b, c, d) == Join3(LeadBits(a, 4), Six(b), Six(c), Six(d))
  {
    assert LeadBits(a, 4) == (a & 0x07) as codepoint;
  }

  lemma Collected3(a: byte, b: byte, c: byte)
    ensures WithSixBits(WithSixBits(LeadBits(a, 3), b), c) == Value3(a, b, c)
  {
    hide WithSixBits, LeadBits, Value3, Six, Join1, Join2;
    Value3Joined(a, b, c);
    OneTail(LeadBits(a, 3), b);
    TwoTails(LeadBits(a, 3), Six(b), c);
  }

  lemma Collected4(a: byte, b: byte, c: byte, d: byte)
    ensures WithSixBits(WithSixBits(WithSixBits(LeadBits(a, 4), b), c), d) == Value4(a, b, c, d)
  {
    hide WithSixBits, LeadBits, Value4, Six, Join1, Join2, Join3;
    Value4Joined(a, b, c, d);
    OneTail(LeadBits(a, 4), b);
    TwoTails(LeadBits(a, 4), Six(b), c);
    ThreeTails(LeadBits(a, 4), Six(b), Six(c), d);
  }

  lemma Accepted2(a: byte, b: byte)
    requires Announced(a) == 2 && IsTail(b)
    ensures Accepts(Value2(a, b), 2) <==> Grammar2(a, b)
  {
  }

  lemma Accepted3(a: byte, b: byte, c: byte)
    requires Announced(a) == 3 && IsTail(b) && IsTail(c)
    ensures Accepts(Value3(a, b, c), 3) <==> Grammar3(a, b, c)
  {
  }

  lemma Accepted4(a: byte, b: byte, c: byte, d: byte)
    requires Announced(a) == 4 && IsTail(b) && IsTail(c) && IsTail(d)
    ensures Accepts(Value4(a, b, c, d), 4) <==> Grammar4(a, b, c, d)
  {
  }

  /** What the collecting and the tests make of a complete sequence is what the grammar says of it. */
  lemma CollectedAccepted(s: seq<byte>, n: nat)
    requires 1 <= n <= |s| && Announced(s[0]) == n
    requires forall i :: 1 <= i < n ==> IsTail(s[i])
    ensures n <= 4 && Accepts(Collected(s, n, n - 1), n) <==> Utf8Char(s[..n])
    ensures Collected(s, n, n - 1) == Utf8Value(s[..n])
  {
    hide Announced, IsTail, Accepts, LeadBits, WithSixBits, Value1, Value2, Value3, Value4;
    hide Grammar1, Grammar2, Grammar3, Grammar4;
    CollectedFew(s, n);
    match n
    case 1 => Collected1(s[0]);
    case 2 => Collected2(s[0], s[1]); Accepted2(s[0], s[1]);
    case 3 => Collected3(s[0], s[1], s[2]); Accepted3(s[0], s[1], s[2]);
    case 4 => Collected4(s[0], s[1], s[2], s[3]); Accepted4(s[0], s[1], s[2], s[3]);
  }

  lemma CollectedFew(s: seq<byte>, n: nat)
    requires 1 <= n <= 4 && n <= |s|
    ensures Collected(s, n, 0) == LeadBits(s[0], n)
    ensures n > 1 ==> Collected(s, n, 1) == WithSixBits(LeadBits(s[0], n), s[1])
    ensures n > 2 ==> Collected(s, n, 2) == WithSixBits(WithSixBits(LeadBits(s[0], n), s[1]), s[2])
    ensures n > 3 ==>
      Collected(s, n, 3) == WithSixBits(WithSixBits(WithSixBits(LeadBits(s[0], n), s[1]), s[2]), s[3])
  {
    hide LeadBits, WithSixBits;
  }

  lemma {:induction false} TailsAre(s: seq<byte>, most: nat, n: nat)
    requires n <= most && n <= |s|
    requires forall i :: 0 <= i < n ==> IsTail(s[i])
    requires n == most || n == |s| || !IsTail(s[n])
    ensures Tails(s, most) == n
  {
    hide IsTail;
    if n > 0 {
      TailsAre(s[1..], most - 1, n - 1);
    }
  }

  /** `decode_utf8`: `index'` is where the last octet taken for the codepoint is. */
  method DecodeUtf8(utf8: array<byte>, len: nat, index: nat) returns (c: codepoint, index': nat)
    requires index < len <= utf8.Length
    ensures c == First(utf8[index..len])
    ensures index' + 1 == index + Taken(utf8[index..len])
  {
    hide IsTail, Announced, Matches, LeadBits, WithSixBits, Utf8Length, IsScalar, Utf8Char, Utf8Value;
    ghost var s := utf8[index..len];
    index' := index;
    var leading := utf8[index];
    MatchesIsAnnounced(leading);
    var encodingLen := 1;
    var matches := Matches(leading, encodingLen);
    while !matches && encodingLen < 4
      invariant 1 <= encodingLen <= 4
      invariant matches == Matches(leading, encodingLen)
      invariant forall n :: 1 <= n < encodingLen ==> !Matches(leading, n)
    {
      encodingLen := encodingLen + 1;
      matches := Matches(leading, encodingLen);
    }
    if !matches {
      NoLead(s);
      return REPLACEMENT, index';
    }
    assert Announced(s[0]) == encodingLen;

    c := LeadBits(leading, encodingLen);
    var i := 0;
    while i < encodingLen - 1
      invariant 0 <= i < encodingLen && i < |s|
      invariant index' == index + i
      invariant forall k :: 1 <= k <= i ==> IsTail(s[k])
      invariant c == Collected(s, encodingLen, i)
    {
      if index' + 1 >= len {
        CutShort(s, encodingLen, i);
        return REPLACEMENT, index';
      }
      var continuation := utf8[index' + 1];
      assert continuation == s[i + 1];
      ContinuationMask(continuation);
      if continuation & 0xC0 != 0x80 {
        CutShort(s, encodingLen, i);
        return REPLACEMENT, index';
      }
      c := WithSixBits(c, continuation);
      index' := index' + 1;
      i := i + 1;
    }
    TailsAre(s[1..], encodingLen - 1, i);
    assert Taken(s) == encodingLen;
    CollectedAccepted(s, encodingLen);
    var accepted := Acceptable(c, encodingLen);
    if !accepted {
      return REPLACEMENT, index';
    }
  }

  /** The tests that close `decode_utf8`: length, surrogates, range. */
  method Acceptable(c: codepoint, encodingLen: nat) returns (ok: bool)
    ensures ok <==> Utf8Length(c) == encodingLen && IsScalar(c)
  {
    SurrogateTest(c);
    var properLen := Utf8Length(c);
    if properLen != encodingLen {
      return false;
    }
    if c < 0xFFFF && c & 0xF800 == 0xD800 {
      return false;
    }
    if c > 0x10FFFF {
      return false;
    }
    return true;
  }

  lemma NoLead(s: seq<byte>)
    requires s != [] && Announced(s[0]) == 0
    ensures Taken(s) == 1 && First(s) == REPLACEMENT
  {
    AnnouncedInGrammar(s[0]);
    hide IsTail, Announced, Grammar1;
    assert |s[..1]| == 1;
  }

  /** With `n` continuation octets where more were announced there is nothing in the grammar. */
  lemma CutShort(s: seq<byte>, announced: nat, n: nat)
    requires n + 1 < announced && n < |s| && Announced(s[0]) == announced
    requires forall k :: 1 <= k <= n ==> IsTail(s[k])
    requires n + 1 == |s| || !IsTail(s[n + 1])
    ensures Taken(s) == n + 1 && First(s) == REPLACEMENT
  {
    hide IsTail, Announced, Utf8Char, Utf8Value;
    TailsAre(s[1..], announced - 1, n);
    if Utf8Char(s[..n + 1]) {
      GrammarAnnounces(s[..n + 1]);
    }
  }

  lemma GrammarAnnounces(t: seq<byte>)
    requires Utf8Char(t)
    ensures t != [] && Announced(t[0]) == |t|
  {
    AnnouncedInGrammar(t[0]);
    hide IsTail, Announced, Grammar1, Grammar2, Grammar3, Grammar4;
  }

  // ----- UTF-16 out -----

  lemma Surrogates(c: codepoint)
    ensures 0xDC00 | (((c - 0x10000) & 0x03FF) as unit) == LowOf(Lowered(c))
    ensures 0xD800 | ((((c - 0x10000) >> 10) & 0x03FF) as unit) == HighOf(Lowered(c))
  {
    hide HighOf, LowOf;
    LoweredIsDifference(c);
    HalvesByShifting(c - 0x10000);
  }

  lemma LoweredIsDifference(c: codepoint)
    ensures Lowered(c) == c - 0x10000
  {
  }

  lemma HalvesByShifting(d: codepoint)
    ensures LowOf(d) == 0xDC00 | ((d & 0x03FF) as unit)
    ensures HighOf(d) == 0xD800 | (((d >> 10) & 0x03FF) as unit)
  {
  }

  /** `encode_utf16`: writes all of the codepoint or, for lack of room, nothing. */
  method EncodeUtf16(c: codepoint, utf16: array<unit>, len: nat, index: nat) returns (written: nat)
    requires index <= len <= utf16.Length
    modifies utf16
    ensures written == if index + Utf16Length(c) <= len then Utf16Length(c) else 0
    ensures written == 0 ==> utf16[..] == old(utf16[..])
    ensures written != 0 ==> utf16[..] == old(utf16[..index]) + Utf16(c) + old(utf16[index + written..])
  {
    hide HighOf, LowOf, Lowered, Lone;
    ghost var before := utf16[..];
    if index >= len {
      return 0;
    }
    if c <= 0xFFFF {
      utf16[index] := Lone(c);
      Written(utf16[..], before, index, Utf16(c));
      return 1;
    }
    if index + 1 >= len {
      return 0;
    }
    Surrogates(c);
    var rest := c - 0x10000;
    var low := 0xDC00 | ((rest & 0x03FF) as unit);
    rest := rest >> 10;
    var high := 0xD800 | ((rest & 0x03FF) as unit);
    utf16[index] := high;
    utf16[index + 1] := low;
    Written(utf16[..], before, index, Utf16(c));
    return 2;
  }

  /** `utf8_to_utf16`. Without a buffer it returns the room needed; with one it returns how much it
      wrote there. */
  method Utf8ToUtf16(utf8: array<byte>, utf8Len: nat, utf16: array?<unit>, utf16Len: nat) returns (n: nat)
    requires utf8Len <= utf8.Length && (utf16 != null ==> utf16Len <= utf16.Length)
    modifies if utf16 != null then {utf16} else {}
    ensures utf16 == null ==> n == |ToUtf16(utf8[..utf8Len])|
    ensures utf16 != null ==> n <= utf16Len
    ensures utf16 != null ==>
      var kept := Encode16(Kept16(Decode8(utf8[..utf8Len]), utf16Len));
      n == |kept| && utf16[..] == kept + old(utf16[n..])
  {
    hide First, Taken, Utf16, Utf16Length, Encode16, Decode8, Kept16, Holds16;
    n := 0;
    ghost var s := utf8[..utf8Len];
    ghost var cs: seq<codepoint> := [];
    ghost var original: seq<unit> := if utf16 == null then [] else utf16[..];
    NoCodepoints(utf16Len);
    if utf16 != null {
      HoldsNothing16(original, utf16Len);
    }
    var i := 0;
    while i < utf8Len
      invariant i <= utf8Len
      invariant Decode8(s) == cs + Decode8(s[i..])
      invariant utf16 == null ==> n == |Encode16(cs)|
      invariant utf16 != null ==> n <= utf16Len && Holds16(utf16[..], cs, utf16Len, n, original)
    {
      assert s[i..] == utf8[i..utf8Len];
      var c, last := DecodeUtf8(utf8, utf8Len, i);
      Decode8Step(s, i);
      Onward(Decode8(s), cs, Decode8(s[i..]), c, Decode8(s[last + 1..]));
      Kept16Next(cs, c, utf16Len);
      if utf16 == null {
        n := n + Utf16Length(c);
      } else {
        ghost var before := utf16[..];
        var written := EncodeUtf16(c, utf16, utf16Len, n);
        HoldsNext16(before, utf16[..], cs, c, utf16Len, n, written, original);
        n := n + written;
      }
      cs := cs + [c];
      i := last + 1;
    }
    assert s[i..] == [];
    assert Decode8(s) == cs;
    if utf16 != null {
      HoldsMeans16(utf16[..], cs, utf16Len, n, original);
    }
  }

  /** The buffer holds the codepoints so far that there was room for, and behind them what it held. */
  ghost predicate Holds16(buffer: seq<unit>, cs: seq<codepoint>, room: nat, n: nat, original: seq<unit>) {
    var kept := Encode16(Kept16(cs, room));
    n == |kept| <= room <= |original| && buffer == kept + original[n..]
  }

  lemma HoldsNothing16(original: seq<unit>, room: nat)
    requires room <= |original|
    ensures Holds16(original, [], room, 0, original)
  {
    NoCodepoints(room);
    hide Encode16, Kept16;
    assert [] + original[0..] == original;
  }

  lemma HoldsMeans16(buffer: seq<unit>, cs: seq<codepoint>, room: nat, n: nat, original: seq<unit>)
    requires Holds16(buffer, cs, room, n, original)
    ensures
      var kept := Encode16(Kept16(cs, room));
      n == |kept| <= room <= |original| && buffer == kept + original[n..]
  {
  }

  lemma HoldsNext16(before: seq<unit>, buffer: seq<unit>, cs: seq<codepoint>, c: codepoint, room: nat, n: nat,
                   written: nat, original: seq<unit>)
    requires Holds16(before, cs, room, n, original)
    requires written == if n + Utf16Length(c) <= room then Utf16Length(c) else 0
    requires buffer == if written != 0 then before[..n] + Utf16(c) + before[n + written..] else before
    ensures n + written <= room && Holds16(buffer, cs + [c], room, n + written, original)
  {
    hide Utf16, Utf16Length, Encode16, Kept16;
    Kept16Next(cs, c, room);
    MoreHeld(Encode16(Kept16(cs, room)), Utf16(c), room, n, written, before, buffer, original);
  }

  lemma Decode8Step(s: seq<byte>, i: nat)
    requires i < |s|
    ensures i + Taken(s[i..]) <= |s|
    ensures Decode8(s[i..]) == [First(s[i..])] + Decode8(s[i + Taken(s[i..])..])
  {
    hide First, Taken;
    assert s[i..][Taken(s[i..])..] == s[i + Taken(s[i..])..];
  }

  lemma Kept16Next(cs: seq<codepoint>, c: codepoint, room: nat)
    ensures Encode16(cs + [c]) == Encode16(cs) + Utf16(c)
    ensures
      var kept := Encode16(Kept16(cs, room));
      Encode16(Kept16(cs + [c], room)) == if |kept| + Utf16Length(c) <= room then kept + Utf16(c) else kept
  {
    hide Encode16, Utf16Length, Utf16;
    assert (cs + [c])[..|cs|] == cs;
    Encode16Last(cs, c);
    Encode16Last(Kept16(cs, room), c);
  }
}
