/**
 The UTF-8 strings that a header hands out (lib/helper.c): measuring a terminated UTF-16 string, sizing
 a buffer for it, and keeping that buffer on the header's list.
 */
module HeaderStrings {
  import opened Bytes
  import opened Unicode
  import opened Transcoding
  import Converter

  class StringBuffer {
    var next: StringBuffer?
    var text: array<byte>

    constructor (text: array<byte>, next: StringBuffer?)
      ensures this.text == text && this.next == next
    {
      this.text := text;
      this.next := next;
    }
  }

  /** There is a terminator, and a unit that can be read behind it. */
  predicate Terminated(s: seq<unit>, z: nat) {
    z + 1 < |s| && s[z] == 0 && forall i :: 0 <= i < z ==> s[i] != 0
  }

  /** `unshield_strlen_utf16`: the terminator counts. */
  method StrlenUtf16(utf16: array<unit>, ghost z: nat) returns (length: nat)
    requires z < utf16.Length && utf16[z] == 0 && forall i :: 0 <= i < z ==> utf16[i] != 0
    ensures length == z + 1
  {
    var current := 0;
    while utf16[current] != 0
      invariant current <= z
      decreases z - current
    {
      current := current + 1;
    }
    return current + 1;
  }

  /** A buffer as the C string in it: everything before its first zero octet. */
  function CString(s: seq<byte>): seq<byte> {
    if s == [] || s[0] == 0 then [] else [s[0]] + CString(s[1..])
  }

  lemma {:induction false} CStringBefore(p: seq<byte>, s: seq<byte>)
    requires forall i :: 0 <= i < |p| ==> p[i] != 0
    ensures CString(p + [0] + s) == p
  {
    if p != [] {
      assert (p + [0] + s)[1..] == p[1..] + [0] + s;
      CStringBefore(p[1..], s);
    }
  }

  /** No codepoint takes more than three octets a unit. */
  lemma {:induction false} ThreeOctetsAUnit(s: seq<unit>)
    ensures |ToUtf8(s)| <= 3 * |s|
    decreases |s|
  {
    if s != [] {
      FirstInThree(s);
      hide First16, Taken16, Utf8, Utf8Length;
      ThreeOctetsAUnit(s[Taken16(s)..]);
    }
  }

  lemma FirstInThree(s: seq<unit>)
    requires s != []
    ensures Utf8Length(First16(s)) <= 3 * Taken16(s)
  {
    if !PairAt(s, 0) && !IsHigh(s[0]) && !IsLow(s[0]) {
      LoneUnit(s[0]);
    }
    hide PairValue, LoneValue, Lone, IsScalar, IsHigh, IsLow;
  }

  lemma NonzeroValue(u: unit)
    requires u != 0
    ensures LoneValue(u) != 0
  {
  }

  lemma PairNonzero(h: unit, l: unit)
    ensures PairValue(h, l) != 0
  {
    PairIsScalar(h, l);
    hide PairValue, IsScalar;
  }

  lemma FirstNonzero(s: seq<unit>)
    requires s != [] && s[0] != 0
    ensures First16(s) != 0
  {
    NonzeroValue(s[0]);
    hide PairValue, LoneValue;
    if PairAt(s, 0) {
      PairNonzero(s[0], s[1]);
    }
  }

  lemma NoZeroOctet(c: codepoint)
    requires c != 0
    ensures forall i :: 0 <= i < |Utf8(c)| ==> Utf8(c)[i] != 0
  {
    hide Lead1, Lead2, Lead3, Lead4, Tail;
    Lead1Nonzero(c);
    LeadsAndTailsNonzero(c);
    LeadsAndTailsNonzero(c >> 6);
    LeadsAndTailsNonzero(c >> 12);
  }

  lemma Lead1Nonzero(c: codepoint)
    ensures c != 0 && c <= 0x7F ==> Lead1(c) != 0
  {
  }

  lemma LeadsAndTailsNonzero(c: codepoint)
    ensures Lead2(c) != 0 && Lead3(c) != 0 && Lead4(c) != 0 && Tail(c) != 0
  {
  }

  lemma {:induction false} NoZeroOctets(s: seq<unit>)
    requires forall i :: 0 <= i < |s| ==> s[i] != 0
    ensures forall i :: 0 <= i < |ToUtf8(s)| ==> ToUtf8(s)[i] != 0
    decreases |s|
  {
    hide First16, Taken16, Utf8;
    if s != [] {
      FirstNonzero(s);
      NoZeroOctet(First16(s));
      NoZeroOctets(s[Taken16(s)..]);
      assert Decode16(s)[1..] == Decode16(s[Taken16(s)..]);
      assert ToUtf8(s) == Utf8(First16(s)) + ToUtf8(s[Taken16(s)..]);
    }
  }

  /** Up to the terminator and one unit beyond, everything fits in three octets a unit and one more;
      what precedes the first zero octet is the string before the terminator. */
  lemma TerminatedFits(s: seq<unit>, z: nat)
    requires Terminated(s, z)
    ensures |ToUtf8(s[..z + 2])| <= 3 * (z + 1) + 1
    ensures CString(ToUtf8(s[..z + 2])) == ToUtf8(s[..z])
    ensures |ToUtf8(s[..z])| < |ToUtf8(s[..z + 2])| && ToUtf8(s[..z + 2])[|ToUtf8(s[..z])|] == 0
  {
    var p, x := s[..z], s[z + 1];
    assert s[..z + 2] == p + ([0] + [x]);
    ZeroUnit();
    hide ToUtf8, IsHigh, IsLow;
    SelfSynchronising16(p, [0] + [x]);
    SelfSynchronising16([0], [x]);
    ThreeOctetsAUnit(p);
    ThreeOctetsAUnit([x]);
    NoZeroOctets(p);
    assert ToUtf8(s[..z + 2]) == ToUtf8(p) + [0] + ToUtf8([x]);
    CStringBefore(ToUtf8(p), ToUtf8([x]));
  }

  lemma ZeroUnit()
    ensures !IsHigh(0) && !IsLow(0) && ToUtf8([0]) == [0]
  {
    var s: seq<unit> := [0];
    assert s[1..] == [];
    assert Decode16(s) == [0];
    assert Utf8(0) == [0];
  }

  class Header {
    const majorVersion: int
    var stringBuffer: StringBuffer?
    /** The buffers on the list, the latest first. */
    ghost var buffers: seq<StringBuffer>

    ghost predicate Valid()
      reads this, buffers
    {
      && stringBuffer == Following(0)
      && (forall i :: 0 <= i < |buffers| ==> buffers[i].next == Following(i + 1))
      && (forall i, j :: 0 <= i < j < |buffers| ==> buffers[i] != buffers[j])
    }

    ghost function Following(i: nat): StringBuffer?
      reads this
    {
      if i < |buffers| then buffers[i] else null
    }

    constructor (majorVersion: int)
      ensures Valid() && buffers == [] && this.majorVersion == majorVersion
    {
      this.majorVersion := majorVersion;
      stringBuffer := null;
      buffers := [];
    }

    /** `unshield_add_string_buffer`, with the zeroed memory that its caller hangs on it. */
    method AddStringBuffer(size: nat) returns (result: StringBuffer)
      requires Valid()
      modifies this
      ensures Valid() && fresh(result) && fresh(result.text)
      ensures result.text.Length == size && forall i :: 0 <= i < size ==> result.text[i] == 0
      ensures buffers == [result] + old(buffers)
    {
      var text := new byte[size](_ => 0);
      result := new StringBuffer(text, stringBuffer);
      stringBuffer := result;
      buffers := [result] + buffers;
    }

    /** `unshield_utf16_to_utf8`, where three octets a unit and one more come to an `int`: the buffer is large
        enough, and as a C string it holds the UTF-8 form of the units before the terminator. Buffers handed
        out before stay as they are. */
    method Utf16ToUtf8(utf16: array<unit>, ghost z: nat) returns (text: array<byte>)
      requires Valid() && Terminated(utf16[..], z) && 3 * (z + 1) + 1 < 0x8000_0000
      modifies this
      ensures Valid() && fresh(text)
      ensures |buffers| == |old(buffers)| + 1 && buffers[1..] == old(buffers) && buffers[0].text == text
      ensures ToUtf8(utf16[..z + 2]) <= text[..]
      ensures CString(text[..]) == ToUtf8(utf16[..z])
    {
      hide ToUtf8, CString, Decode16, Encode8, Kept8;
      assert forall i :: 0 <= i <= z ==> utf16[..][i] == utf16[i];
      var length := StrlenUtf16(utf16, z);
      var bufferSize := 3 * length + 1;
      var buffer := AddStringBuffer(bufferSize);
      text := buffer.text;
      ghost var s := utf16[..];
      assert s[..z + 2] == utf16[..z + 2] && s[..z] == utf16[..z];
      var n := Converter.Utf16ToUtf8(utf16, length + 1, text, bufferSize);
      TerminatedFits(s, z);
      KeptWhole(s[..z + 2], bufferSize);
      CStringPrefix(ToUtf8(s[..z + 2]), text[..], |ToUtf8(s[..z])|);
    }
  }

  lemma KeptWhole(s: seq<unit>, room: nat)
    requires |ToUtf8(s)| <= room
    ensures Encode8(Kept8(Decode16(s), room)) == ToUtf8(s)
  {
    hide Decode16, Encode8, Kept8;
    Kept8Laws(Decode16(s), room);
  }

  lemma {:induction false} CStringPrefix(p: seq<byte>, s: seq<byte>, at: nat)
    requires p <= s && at < |p| && p[at] == 0
    ensures CString(s) == CString(p)
  {
    if p[0] != 0 {
      CStringPrefix(p[1..], s[1..], at - 1);
    }
  }
}
