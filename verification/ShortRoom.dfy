/**
 What a conversion writes when there is too little room (lib/converter.c): it leaves out what does not fit
 and goes on with what does, so that the output may have a gap.
 */
module ShortRoom {
  import opened Bytes
  import opened Unicode
  import opened Transcoding

  lemma FrontByFirst<T>(s: seq<T>, t: seq<T>)
    requires s != [] && t != []
    ensures s <= t <==> s[0] == t[0] && s[1..] <= t[1..]
  {
    assert s == [s[0]] + s[1..] && t == [t[0]] + t[1..];
  }

  // ----- UTF-8 -----

  /** The first codepoint for which there is no room is at `k`. */
  predicate TooLong8(cs: seq<codepoint>, room: nat, k: nat)
    requires k < |cs|
  {
    |Encode8(cs[..k])| <= room < |Encode8(cs[..k])| + Utf8Length(cs[k])
  }

  /** No codepoint fits behind `used` octets. */
  predicate NoneFits8(cs: seq<codepoint>, used: nat, room: nat) {
    forall j :: 0 <= j < |cs| ==> room < used + Utf8Length(cs[j])
  }

  /** The first codepoint for which there is no room, if there is one, is longer than the room that is left
      then, and so is every codepoint behind it. */
  predicate RunsOut8(cs: seq<codepoint>, room: nat) {
    forall k :: 0 <= k < |cs| && TooLong8(cs, room, k) ==> NoneFits8(cs[k + 1..], |Encode8(cs[..k])|, room)
  }

  /** A conversion with too little room breaks off at the first codepoint that does not fit, or else goes on
      with a later and shorter one. */
  lemma {:induction false} Kept8Behind(p: seq<codepoint>, q: seq<codepoint>, room: nat)
    requires |Encode8(p)| <= room
    ensures p <= Kept8(p + q, room)
    ensures Kept8(p + q, room) == p <==> NoneFits8(q, |Encode8(p)|, room)
    ensures
      var kept := Kept8(p + q, room);
      |kept| > |p| ==> |Encode8(p)| + Utf8Length(kept[|p|]) <= room
    decreases |q|
  {
    hide Utf8, Utf8Length, Encode8;
    if q == [] {
      assert p + q == p;
      Kept8Laws(p, room);
    } else {
      var front, d := q[..|q| - 1], q[|q| - 1];
      Kept8Behind(p, front, room);
      assert (p + q)[..|p + q| - 1] == p + front && (p + q)[|p + q| - 1] == d;
      assert q == front + [d];
      NoneFitsLast8(front, d, |Encode8(p)|, room);
      hide NoneFits8;
    }
  }

  lemma NoneFitsLast8(cs: seq<codepoint>, d: codepoint, used: nat, room: nat)
    ensures NoneFits8(cs + [d], used, room) <==> NoneFits8(cs, used, room) && room < used + Utf8Length(d)
  {
    hide Utf8Length;
    assert forall j :: 0 <= j < |cs| ==> (cs + [d])[j] == cs[j];
    assert (cs + [d])[|cs|] == d;
  }

  /** What does not fit has a first codepoint for which there is no room. */
  lemma {:induction false} FirstTooLong8(cs: seq<codepoint>, room: nat) returns (k: nat)
    requires room < |Encode8(cs)|
    ensures k < |cs| && TooLong8(cs, room, k)
    decreases |cs|
  {
    hide Utf8Length, Utf8;
    var front, d := cs[..|cs| - 1], cs[|cs| - 1];
    assert cs == front + [d];
    Encode8Last(front, d);
    hide Encode8;
    if |Encode8(front)| <= room {
      k := |front|;
    } else {
      k := FirstTooLong8(front, room);
      assert cs[..k] == front[..k];
    }
  }

  lemma LongerTakesMore8(cs: seq<codepoint>, k: nat)
    requires k <= |cs|
    ensures |Encode8(cs[..k])| <= |Encode8(cs)|
  {
    hide Utf8;
    Encode8Joined(cs[..k], cs[k..]);
    assert cs == cs[..k] + cs[k..];
  }

  lemma SameFirst8(c: codepoint, d: codepoint, x: seq<byte>, y: seq<byte>)
    requires IsScalar(c) && IsScalar(d)
    ensures Utf8(c) + x <= Utf8(d) + y <==> c == d && x <= y
  {
    hide Utf8, IsScalar, First, Taken;
    var s, t := Utf8(c) + x, Utf8(d) + y;
    if s <= t {
      var rest := t[|s|..];
      assert t == Utf8(c) + (x + rest);
      Utf8First(c, x + rest);
      Utf8First(d, y);
      assert (Utf8(c) + (x + rest))[|Utf8(c)|..] == x + rest;
      assert (Utf8(d) + y)[|Utf8(d)|..] == y;
    }
  }

  /** One form is the front of another exactly if what it encodes is. */
  lemma {:induction false} EncodedFront8(cs: seq<codepoint>, ds: seq<codepoint>)
    requires Scalars(cs) && Scalars(ds)
    ensures Encode8(cs) <= Encode8(ds) <==> cs <= ds
    decreases |cs|
  {
    hide Utf8, IsScalar;
    if cs != [] && ds != [] {
      EncodedFront8(cs[1..], ds[1..]);
      SameFirst8(cs[0], ds[0], Encode8(cs[1..]), Encode8(ds[1..]));
      FrontByFirst(cs, ds);
    }
  }

  /** What a conversion writes is the front of the whole form exactly when it runs out of room for every
      codepoint at once. */
  lemma ShortIsFront8(cs: seq<codepoint>, room: nat)
    requires Scalars(cs)
    ensures Encode8(Kept8(cs, room)) <= Encode8(cs) <==> RunsOut8(cs, room)
  {
    hide Utf8Length, Encode8, Kept8, Subsequence, Scalars;
    var kept := Kept8(cs, room);
    Kept8Laws(cs, room);
    SubsequenceScalars(kept, cs);
    EncodedFront8(kept, cs);
    if |Encode8(cs)| <= room {
      AllFits8(cs, room);
    } else {
      var k := FirstTooLong8(cs, room);
      OnlyTooLong8(cs, room, k);
      KeptFront8(cs, room, k);
    }
  }

  lemma AllFits8(cs: seq<codepoint>, room: nat)
    requires |Encode8(cs)| <= room
    ensures RunsOut8(cs, room)
  {
    hide Utf8Length, Encode8, NoneFits8;
    forall k | 0 <= k < |cs|
      ensures !TooLong8(cs, room, k)
    {
      UpTo8(cs, k);
    }
  }

  lemma UpTo8(cs: seq<codepoint>, k: nat)
    requires k < |cs|
    ensures |Encode8(cs[..k])| + Utf8Length(cs[k]) == |Encode8(cs[..k + 1])| <= |Encode8(cs)|
  {
    hide Encode8;
    LongerTakesMore8(cs, k + 1);
    assert cs[..k + 1] == cs[..k] + [cs[k]];
    Encode8Last(cs[..k], cs[k]);
  }

  lemma BehindTooLong8(cs: seq<codepoint>, room: nat, k: nat, i: nat)
    requires k < i < |cs| && TooLong8(cs, room, k)
    ensures !TooLong8(cs, room, i)
  {
    hide Utf8Length, Encode8;
    UpTo8(cs[..i], k);
    assert cs[..i][..k] == cs[..k];
  }

  lemma OnlyTooLong8(cs: seq<codepoint>, room: nat, k: nat)
    requires k < |cs| && TooLong8(cs, room, k)
    ensures RunsOut8(cs, room) <==> NoneFits8(cs[k + 1..], |Encode8(cs[..k])|, room)
  {
    hide Utf8Length, Encode8, NoneFits8;
    forall i | 0 <= i < |cs| && TooLong8(cs, room, i)
      ensures i == k
    {
      if i < k {
        BehindTooLong8(cs, room, i, k);
      } else if k < i {
        BehindTooLong8(cs, room, k, i);
      }
    }
  }

  lemma KeptFront8(cs: seq<codepoint>, room: nat, k: nat)
    requires k < |cs| && TooLong8(cs, room, k)
    ensures Kept8(cs, room) <= cs <==> NoneFits8(cs[k + 1..], |Encode8(cs[..k])|, room)
  {
    hide Utf8Length, Encode8, Kept8;
    var p, q := cs[..k], cs[k..];
    assert cs == p + q;
    Kept8Behind(p, q, room);
    assert q == [cs[k]] + cs[k + 1..];
    assert NoneFits8(q, |Encode8(p)|, room) <==> NoneFits8(cs[k + 1..], |Encode8(p)|, room) by {
      var rest := cs[k + 1..];
      assert forall j :: 0 <= j < |rest| ==> q[j + 1] == rest[j];
    }
    hide NoneFits8;
  }

  // ----- UTF-16 -----

  /** The first codepoint for which there is no room is at `k`. */
  predicate TooLong16(cs: seq<codepoint>, room: nat, k: nat)
    requires k < |cs|
  {
    |Encode16(cs[..k])| <= room < |Encode16(cs[..k])| + Utf16Length(cs[k])
  }

  /** No codepoint fits behind `used` units. */
  predicate NoneFits16(cs: seq<codepoint>, used: nat, room: nat) {
    forall j :: 0 <= j < |cs| ==> room < used + Utf16Length(cs[j])
  }

  /** The first codepoint for which there is no room, if there is one, is longer than the room that is left
      then, and so is every codepoint behind it. */
  predicate RunsOut16(cs: seq<codepoint>, room: nat) {
    forall k :: 0 <= k < |cs| && TooLong16(cs, room, k) ==> NoneFits16(cs[k + 1..], |Encode16(cs[..k])|, room)
  }

  /** A conversion with too little room breaks off at the first codepoint that does not fit, or else goes on
      with a later and shorter one. */
  lemma {:induction false} Kept16Behind(p: seq<codepoint>, q: seq<codepoint>, room: nat)
    requires |Encode16(p)| <= room
    ensures p <= Kept16(p + q, room)
    ensures Kept16(p + q, room) == p <==> NoneFits16(q, |Encode16(p)|, room)
    ensures
      var kept := Kept16(p + q, room);
      |kept| > |p| ==> |Encode16(p)| + Utf16Length(kept[|p|]) <= room
    decreases |q|
  {
    hide Utf16, Utf16Length, Encode16;
    if q == [] {
      assert p + q == p;
      Kept16Laws(p, room);
    } else {
      var front, d := q[..|q| - 1], q[|q| - 1];
      Kept16Behind(p, front, room);
      assert (p + q)[..|p + q| - 1] == p + front && (p + q)[|p + q| - 1] == d;
      assert q == front + [d];
      NoneFitsLast16(front, d, |Encode16(p)|, room);
      hide NoneFits16;
    }
  }

  lemma NoneFitsLast16(cs: seq<codepoint>, d: codepoint, used: nat, room: nat)
    ensures NoneFits16(cs + [d], used, room) <==> NoneFits16(cs, used, room) && room < used + Utf16Length(d)
  {
    hide Utf16Length;
    assert forall j :: 0 <= j < |cs| ==> (cs + [d])[j] == cs[j];
    assert (cs + [d])[|cs|] == d;
  }

  /** What does not fit has a first codepoint for which there is no room. */
  lemma {:induction false} FirstTooLong16(cs: seq<codepoint>, room: nat) returns (k: nat)
    requires room < |Encode16(cs)|
    ensures k < |cs| && TooLong16(cs, room, k)
    decreases |cs|
  {
    hide Utf16Length, Utf16;
    var front, d := cs[..|cs| - 1], cs[|cs| - 1];
    assert cs == front + [d];
    Encode16Last(front, d);
    hide Encode16;
    if |Encode16(front)| <= room {
      k := |front|;
    } else {
      k := FirstTooLong16(front, room);
      assert cs[..k] == front[..k];
    }
  }

  lemma LongerTakesMore16(cs: seq<codepoint>, k: nat)
    requires k <= |cs|
    ensures |Encode16(cs[..k])| <= |Encode16(cs)|
  {
    hide Utf16;
    Encode16Joined(cs[..k], cs[k..]);
    assert cs == cs[..k] + cs[k..];
  }

  lemma SameFirst16(c: codepoint, d: codepoint, x: seq<unit>, y: seq<unit>)
    requires IsScalar(c) && IsScalar(d)
    ensures Utf16(c) + x <= Utf16(d) + y <==> c == d && x <= y
  {
    hide Utf16, IsScalar, First16, Taken16;
    var s, t := Utf16(c) + x, Utf16(d) + y;
    if s <= t {
      var rest := t[|s|..];
      assert t == Utf16(c) + (x + rest);
      Utf16First(c, x + rest);
      Utf16First(d, y);
      assert (Utf16(c) + (x + rest))[|Utf16(c)|..] == x + rest;
      assert (Utf16(d) + y)[|Utf16(d)|..] == y;
    }
  }

  /** One form is the front of another exactly if what it encodes is. */
  lemma {:induction false} EncodedFront16(cs: seq<codepoint>, ds: seq<codepoint>)
    requires Scalars(cs) && Scalars(ds)
    ensures Encode16(cs) <= Encode16(ds) <==> cs <= ds
    decreases |cs|
  {
    hide Utf16, IsScalar;
    if cs != [] && ds != [] {
      EncodedFront16(cs[1..], ds[1..]);
      SameFirst16(cs[0], ds[0], Encode16(cs[1..]), Encode16(ds[1..]));
      FrontByFirst(cs, ds);
    }
  }

  /** What a conversion writes is the front of the whole form exactly when it runs out of room for every
      codepoint at once. */
  lemma ShortIsFront16(cs: seq<codepoint>, room: nat)
    requires Scalars(cs)
    ensures Encode16(Kept16(cs, room)) <= Encode16(cs) <==> RunsOut16(cs, room)
  {
    hide Utf16Length, Encode16, Kept16, Subsequence, Scalars;
    var kept := Kept16(cs, room);
    Kept16Laws(cs, room);
    SubsequenceScalars(kept, cs);
    EncodedFront16(kept, cs);
    if |Encode16(cs)| <= room {
      AllFits16(cs, room);
    } else {
      var k := FirstTooLong16(cs, room);
      OnlyTooLong16(cs, room, k);
      KeptFront16(cs, room, k);
    }
  }

  lemma AllFits16(cs: seq<codepoint>, room: nat)
    requires |Encode16(cs)| <= room
    ensures RunsOut16(cs, room)
  {
    hide Utf16Length, Encode16, NoneFits16;
    forall k | 0 <= k < |cs|
      ensures !TooLong16(cs, room, k)
    {
      UpTo16(cs, k);
    }
  }

  lemma UpTo16(cs: seq<codepoint>, k: nat)
    requires k < |cs|
    ensures |Encode16(cs[..k])| + Utf16Length(cs[k]) == |Encode16(cs[..k + 1])| <= |Encode16(cs)|
  {
    hide Encode16;
    LongerTakesMore16(cs, k + 1);
    assert cs[..k + 1] == cs[..k] + [cs[k]];
    Encode16Last(cs[..k], cs[k]);
  }

  lemma BehindTooLong16(cs: seq<codepoint>, room: nat, k: nat, i: nat)
    requires k < i < |cs| && TooLong16(cs, room, k)
    ensures !TooLong16(cs, room, i)
  {
    hide Utf16Length, Encode16;
    UpTo16(cs[..i], k);
    assert cs[..i][..k] == cs[..k];
  }

  lemma OnlyTooLong16(cs: seq<codepoint>, room: nat, k: nat)
    requires k < |cs| && TooLong16(cs, room, k)
    ensures RunsOut16(cs, room) <==> NoneFits16(cs[k + 1..], |Encode16(cs[..k])|, room)
  {
    hide Utf16Length, Encode16, NoneFits16;
    forall i | 0 <= i < |cs| && TooLong16(cs, room, i)
      ensures i == k
    {
      if i < k {
        BehindTooLong16(cs, room, i, k);
      } else if k < i {
        BehindTooLong16(cs, room, k, i);
      }
    }
  }

  lemma KeptFront16(cs: seq<codepoint>, room: nat, k: nat)
    requires k < |cs| && TooLong16(cs, room, k)
    ensures Kept16(cs, room) <= cs <==> NoneFits16(cs[k + 1..], |Encode16(cs[..k])|, room)
  {
    hide Utf16Length, Encode16, Kept16;
    var p, q := cs[..k], cs[k..];
    assert cs == p + q;
    Kept16Behind(p, q, room);
    assert q == [cs[k]] + cs[k + 1..];
    assert NoneFits16(q, |Encode16(p)|, room) <==> NoneFits16(cs[k + 1..], |Encode16(p)|, room) by {
      var rest := cs[k + 1..];
      assert forall j :: 0 <= j < |rest| ==> q[j + 1] == rest[j];
    }
    hide NoneFits16;
  }

  // ----- Conversions -----

  /** With too little room, a conversion writes the front of what it would write with enough, or leaves a
      gap. It leaves no gap exactly when every codepoint behind the first that does not fit does not fit in
      its place either. */
  lemma ShortOutputIsFront(u: seq<unit>, s: seq<byte>, room: nat)
    ensures Encode8(Kept8(Decode16(u), room)) <= ToUtf8(u) <==> RunsOut8(Decode16(u), room)
    ensures Encode16(Kept16(Decode8(s), room)) <= ToUtf16(s) <==> RunsOut16(Decode8(s), room)
  {
    hide Decode8, Decode16, Encode8, Encode16, Kept8, Kept16, RunsOut8, RunsOut16;
    DecodedScalars16(u);
    DecodedScalars8(s);
    ShortIsFront8(Decode16(u), room);
    ShortIsFront16(Decode8(s), room);
  }

  /** A gap in UTF-8: there is no room for a euro sign, but there is for the letter behind it. */
  lemma GapIn8()
    ensures Kept8([0x20AC, 0x61], 2) == [0x61] && !RunsOut8([0x20AC, 0x61], 2)
  {
    var cs: seq<codepoint> := [0x20AC, 0x61];
    assert cs[..1] == [0x20AC] && cs[..0] == [] && cs[1..] == [0x61];
    assert Kept8(cs[..1], 2) == [] && Encode8([]) == [];
    assert TooLong8(cs, 2, 0) && cs[0 + 1..][0] == 0x61;
  }

  /** A gap in UTF-16: there is no room for a surrogate pair, but there is for the letter behind it. */
  lemma GapIn16()
    ensures Kept16([0x1F600, 0x61], 1) == [0x61] && !RunsOut16([0x1F600, 0x61], 1)
  {
    var cs: seq<codepoint> := [0x1F600, 0x61];
    assert cs[..1] == [0x1F600] && cs[..0] == [] && cs[1..] == [0x61];
    assert Kept16(cs[..1], 1) == [] && Encode16([]) == [];
    assert TooLong16(cs, 1, 0) && cs[0 + 1..][0] == 0x61;
  }
}
