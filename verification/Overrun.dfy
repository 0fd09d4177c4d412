/**
 A save that fails, and a second one of the same file that succeeds: reading on into another volume has
 changed what the descriptor says of the file (lib/file.c).
 */
module Overrun {
  import opened Bytes
  import opened Cabinet
  import opened Reader
  import opened SaveLoops
  import opened Outcomes
  import opened Leaves
  import Md5

  /** The flags of a compressed file that is not obfuscated, before and after it is known to be split. */
  const WHOLE: flags := 4
  const SPLIT: flags := 5

  lemma FlagsMean()
    ensures IsCompressed(WHOLE) && !IsSplit(WHOLE) && !IsObfuscated(WHOLE) && !IsInvalid(WHOLE)
    ensures IsCompressed(SPLIT) && IsSplit(SPLIT) && !IsObfuscated(SPLIT) && !IsInvalid(SPLIT)
    ensures WithSplit(WHOLE) == SPLIT
  {
  }

  // The first volume says that the file starts at 64, the descriptor that it starts at 60. The second says
  // that it has the end of the file. Both say that it is compressed to four bytes, but for that end.
  const FIRST_HEADER := VolumeHeader(0, 1, 64, 1, 4, 68, 0, 0)
  const SECOND_HEADER := VolumeHeader(0, 0, 60, 1, 1, 60, 1, 1)

  // At 60, a frame that is longer than the file is said to be. Its payload starts with the bits 111: a last
  // block of the type that section 3.2.3 of RFC 1951 reserves as an error. At 64, a frame that ends where the
  // file does. Its payload, with the zero byte behind it, is one block with fixed codes (section 3.2.6) for
  // the letter a.
  const FIRST_BYTES: seq<byte> := [3, 0, 7, 0, 2, 0, 0x4B, 0x04]
  const SECOND_BYTES: seq<byte> := [8]

  /** What inflating does with the two payloads. */
  ghost predicate Inflates(inflate: Inflater) {
    inflate([7, 0, 8, 0]) == None && inflate([0x4B, 0x04, 0]) == Some([0x61])
  }

  /** Two volumes of version 5, whose data start behind the 60 bytes of their headers. */
  ghost predicate Overrunning(a: Archive) {
    && a.majorVersion == 5 && a.fileCount == 2
    && 0 !in a.volumes && 1 in a.volumes && 2 in a.volumes && 3 !in a.volumes
    && a.volumes[1].header == FIRST_HEADER && a.volumes[2].header == SECOND_HEADER
    && |a.volumes[1].bytes| == 68 && a.volumes[1].bytes[60..] == FIRST_BYTES
    && |a.volumes[2].bytes| == 61 && a.volumes[2].bytes[60..] == SECOND_BYTES
  }

  /** File 0, one byte that is compressed to four. */
  ghost predicate Overrun(d: Descriptor) {
    d.flags == WHOLE && d.volume == 1 && d.compressedSize == 4 && d.dataOffset == 60 && d.expandedSize == 1
  }

  /** There is such a cabinet, whatever bytes the headers were read from. */
  lemma OverrunningExists(first: seq<byte>, second: seq<byte>) returns (a: Archive, d: Descriptor)
    requires |first| == 60 && |second| == 60
    ensures Overrunning(a) && Overrun(d)
    ensures a.volumes[1].bytes[..60] == first && a.volumes[2].bytes[..60] == second
  {
    a := Archive(5, 2, map[1 := Volume(FIRST_HEADER, first + FIRST_BYTES),
                           2 := Volume(SECOND_HEADER, second + SECOND_BYTES)]);
    d := Descriptor(WHOLE, 1, 4, 60, [], 1, 0, 0);
  }

  lemma FirstPlace(a: Archive, d: Descriptor)
    requires Overrunning(a) && Overrun(d)
    ensures ReadHeader(a, 1) == FIRST_HEADER && !ComesLater(a, 0, FIRST_HEADER)
    ensures FlagsAfter(a, 0, d, WHOLE, FIRST_HEADER) == WHOLE && Locate(0, d, WHOLE, FIRST_HEADER) == Place(60, 4)
    ensures FlagsAfter(a, 0, d, SPLIT, FIRST_HEADER) == SPLIT && Locate(0, d, SPLIT, FIRST_HEADER) == Place(64, 4)
    ensures ExtentAt(a.volumes[1].bytes, 60, 4, WHOLE) == Extent([3, 0, 7, 0], 4, WHOLE)
    ensures ExtentAt(a.volumes[1].bytes, 64, 4, SPLIT) == Extent([2, 0, 0x4B, 0x04], 4, SPLIT)
    ensures |a.volumes[1].bytes| == 68
  {
    FlagsMean();
    hide IsSplit, IsCompressed, WithSplit;
  }

  lemma SecondPlace(a: Archive, d: Descriptor, f: flags)
    requires Overrunning(a) && Overrun(d) && (f == WHOLE || f == SPLIT)
    ensures ReadHeader(a, 2) == SECOND_HEADER && FlagsAfter(a, 0, d, f, SECOND_HEADER) == SPLIT
    ensures Locate(0, d, SPLIT, SECOND_HEADER) == Place(60, 1)
    ensures ExtentAt(a.volumes[2].bytes, 60, 1, SPLIT) == Extent([8], 1, SPLIT)
  {
    FlagsMean();
    WithSplitOnly(SPLIT);
    hide IsSplit, IsCompressed, WithSplit;
  }

  lemma NothingFollows(a: Archive, d: Descriptor, v: int)
    requires v !in a.volumes
    ensures Following(a, 0, d, SPLIT, v) == []
  {
  }

  lemma SecondFollows(a: Archive, d: Descriptor, f: flags)
    requires Overrunning(a) && Overrun(d) && (f == WHOLE || f == SPLIT)
    ensures Following(a, 0, d, f, 2) == [Extent([8], 1, SPLIT)]
  {
    SecondPlace(a, d, f);
    NothingFollows(a, d, 3);
    hide FlagsAfter, ReadHeader, Locate, ExtentAt;
  }

  /** What there is to read, before and after the file is known to be split. */
  lemma OverrunBegins(a: Archive, d: Descriptor, f: flags)
    requires Overrunning(a) && Overrun(d) && (f == WHOLE || f == SPLIT)
    ensures Missing(a, 0) && Searched(a, 0, d, f, 1, 0) == (f, 1)
    ensures
      var first: seq<byte> := if f == WHOLE then [3, 0, 7, 0] else [2, 0, 0x4B, 0x04];
      Begin(a, 0, d, f, 1, 0) == Some((Source([Extent(first, 4, f), Extent([8], 1, SPLIT)], 0), f))
  {
    FlagsMean();
    FirstPlace(a, d);
    SecondFollows(a, d, f);
    StartStep(a, 0, d, f, 1, AT_REST, 0);
    var first: seq<byte> := if f == WHOLE then [3, 0, 7, 0] else [2, 0, 0x4B, 0x04];
    assert [Extent(first, 4, f)] + [Extent([8], 1, SPLIT)] == [Extent(first, 4, f), Extent([8], 1, SPLIT)];
    hide IsInvalid, ExtentAt, Start, Searched, Following, FlagsAfter, Locate, ReadHeader, ComesLater;
  }

  lemma Lengths()
    ensures ReadUint16([3, 0]) == 3 && ReadUint16([2, 0]) == 2
    ensures Minus32(Minus32(4, 2), 2) == 0
  {
  }

  /** One round of the loop, for a payload that is not empty. */
  lemma OneRound(s: Source, length: seq<byte>, s1: Source, payload: seq<byte>, s2: Source, left: uint32,
                 inflate: Inflater)
    requires Sound(s) && s.pieces != [] && left != 0 && |length| == 2 && ReadUint16(length) != 0
    requires Take(s, false, 2) == Some((length, s1))
    requires Take(s1, false, ReadUint16(length)) == Some((payload, s2))
    ensures Sound(s2) && s1.pieces != []
    ensures RoundReached(s, false, true, left) == Reached(s1.pieces, ReadUint16(length))
    ensures inflate(payload + [0]).None? ==>
      Frames(s, false, left, inflate) == None && Round(s, false, true, left, inflate) == None
    ensures
      var rest := Frames(s2, false, Minus32(Minus32(left, 2), ReadUint16(length)), inflate);
      inflate(payload + [0]).Some? && rest.Some? ==>
        Frames(s, false, left, inflate) == Some([Frame(length, payload)] + rest.value)
  {
    TakeIsStream(s, false, 2);
    TakeIsStream(s1, false, ReadUint16(length));
    hide Take, Sound, ReadUint16, Minus32, PlainStream, Reached;
  }

  /** A first save reads a payload that goes on in the second volume, and gives up. */
  lemma FirstRound(inflate: Inflater)
    requires Inflates(inflate)
    ensures
      var s := Source([Extent([3, 0, 7, 0], 4, WHOLE), Extent([8], 1, SPLIT)], 0);
      && Sound(s) && Frames(s, false, 4, inflate) == None && Round(s, false, true, 4, inflate) == None
      && RoundReached(s, false, true, 4) == SPLIT
  {
    hide Take, ReadUint16, PlainStream, Minus32, Frames, Round, RoundReached, Reached;
    var s := Source([Extent([3, 0, 7, 0], 4, WHOLE), Extent([8], 1, SPLIT)], 0);
    var s1 := Source([Extent([7, 0], 2, WHOLE), Extent([8], 1, SPLIT)], 0);
    var s2 := Source([Extent([], 0, SPLIT)], 0);
    Lengths();
    FirstTakes();
    ReachedNext(Extent([7, 0], 2, WHOLE), Extent([8], 1, SPLIT));
    OneRound(s, [3, 0], s1, [7, 0, 8], s2, 4, inflate);
    var payload: seq<byte> := [7, 0, 8];
    assert payload + [0] == [7, 0, 8, 0];
  }

  lemma ReachedNext(e: Extent, g: Extent)
    requires e.left == |e.data| == 2 && g.left == |g.data| == 1
    ensures Reached([e, g], 3) == g.flags
  {
    assert [e, g][1..] == [g];
  }

  /** A read within the first of two pieces. */
  lemma TakeFirst(e: Extent, g: Extent, n: nat)
    requires 0 < n <= e.left && n <= |e.data|
    ensures Take(Source([e, g], 0), false, n)
         == Some((e.data[..n], Source([Extent(e.data[n..], e.left - n, e.flags), g], 0)))
  {
    assert [e, g][1..] == [g];
    assert [Extent(e.data[n..], e.left - n, e.flags)] + [g] == [Extent(e.data[n..], e.left - n, e.flags), g];
  }

  /** A read that goes on into the second of two pieces. */
  lemma TakeBoth(e: Extent, g: Extent, n: nat)
    requires 0 < e.left == |e.data| < n && n - e.left <= g.left && n - e.left <= |g.data|
    ensures
      var k := n - e.left;
      Take(Source([e, g], 0), false, n)
      == Some((e.data + g.data[..k], Source([Extent(g.data[k..], g.left - k, g.flags)], 0)))
  {
    var k := n - e.left;
    assert [e, g][1..] == [g] && [g][1..] == [] && e.data[..e.left] == e.data;
    assert [Extent(g.data[k..], g.left - k, g.flags)] + [] == [Extent(g.data[k..], g.left - k, g.flags)];
    assert Deliver([g], k) == Some((g.data[..k], [Extent(g.data[k..], g.left - k, g.flags)]));
  }

  lemma FirstTakes()
    ensures
      var s := Source([Extent([3, 0, 7, 0], 4, WHOLE), Extent([8], 1, SPLIT)], 0);
      var s1 := Source([Extent([7, 0], 2, WHOLE), Extent([8], 1, SPLIT)], 0);
      && Take(s, false, 2) == Some(([3, 0], s1))
      && Take(s1, false, 3) == Some(([7, 0, 8], Source([Extent([], 0, SPLIT)], 0)))
  {
    hide Take;
    var e, g: Extent := Extent([3, 0, 7, 0], 4, WHOLE), Extent([8], 1, SPLIT);
    var e1 := Extent([7, 0], 2, WHOLE);
    TakeFirst(e, g, 2);
    assert e.data[..2] == [3, 0] && e.data[2..] == [7, 0];
    TakeBoth(e1, g, 3);
    assert g.data[..1] == [8] && g.data[1..] == [] && e1.data + [8] == [7, 0, 8];
  }

  lemma SecondTakes()
    ensures
      var s := Source([Extent([2, 0, 0x4B, 0x04], 4, SPLIT), Extent([8], 1, SPLIT)], 0);
      var s1 := Source([Extent([0x4B, 0x04], 2, SPLIT), Extent([8], 1, SPLIT)], 0);
      && Take(s, false, 2) == Some(([2, 0], s1))
      && Take(s1, false, 2) == Some(([0x4B, 0x04], Source([Extent([], 0, SPLIT), Extent([8], 1, SPLIT)], 0)))
  {
    hide Take;
    var e, g: Extent := Extent([2, 0, 0x4B, 0x04], 4, SPLIT), Extent([8], 1, SPLIT);
    var e1 := Extent([0x4B, 0x04], 2, SPLIT);
    TakeFirst(e, g, 2);
    assert e.data[..2] == [2, 0] && e.data[2..] == [0x4B, 0x04];
    TakeFirst(e1, g, 2);
    assert e1.data[..2] == [0x4B, 0x04] && e1.data[2..] == [];
  }

  /** The second save reads the other frame. */
  lemma SecondRound(inflate: Inflater)
    requires Inflates(inflate)
    ensures
      var s := Source([Extent([2, 0, 0x4B, 0x04], 4, SPLIT), Extent([8], 1, SPLIT)], 0);
      Sound(s) && Frames(s, false, 4, inflate) == Some([Frame([2, 0], [0x4B, 0x04])])
  {
    hide Take, ReadUint16, PlainStream, Minus32, Frames;
    var s := Source([Extent([2, 0, 0x4B, 0x04], 4, SPLIT), Extent([8], 1, SPLIT)], 0);
    var s1 := Source([Extent([0x4B, 0x04], 2, SPLIT), Extent([8], 1, SPLIT)], 0);
    var s2 := Source([Extent([], 0, SPLIT), Extent([8], 1, SPLIT)], 0);
    Lengths();
    SecondTakes();
    var payload: seq<byte> := [0x4B, 0x04];
    assert payload + [0] == [0x4B, 0x04, 0];
    OneRound(s, [2, 0], s1, [0x4B, 0x04], s2, 4, inflate);
    NoFrames(s2, false, inflate);
    assert [Frame([2, 0], [0x4B, 0x04])] + [] == [Frame([2, 0], [0x4B, 0x04])];
  }

  lemma OutputOf(inflate: Inflater)
    requires Inflates(inflate)
    ensures SaveLoops.Inflated([Frame([2, 0], [0x4B, 0x04])], inflate) == [0x61]
  {
    var fs := [Frame([2, 0], [0x4B, 0x04])];
    var output: seq<byte> := [0x61];
    assert fs[1..] == [] && fs[0].payload + [0] == [0x4B, 0x04, 0];
    assert output + [] == output;
  }

  lemma SizeIsFour(d: Descriptor)
    requires Overrun(d)
    ensures SizeInVolume(d, WHOLE) == 4 && SizeInVolume(d, SPLIT) == 4
  {
    FlagsMean();
    hide IsCompressed;
  }

  lemma FirstFails(a: Archive, d: Descriptor, inflate: Inflater)
    requires Overrunning(a) && Overrun(d) && Inflates(inflate)
    ensures Missing(a, 0) && SaveOutcome(a, 0, d, WHOLE, 1, 0, inflate) == None
    ensures SaveLeaves(a, 0, d, WHOLE, 1, 0, inflate, Discarded) == (SPLIT, 1)
  {
    FlagsMean();
    OverrunBegins(a, d, WHOLE);
    FirstRound(inflate);
    var s := Source([Extent([3, 0, 7, 0], 4, WHOLE), Extent([8], 1, SPLIT)], 0);
    LoopStep(s, false, true, 4, inflate, None);
    assert d.dataOffset == 60;
    SizeIsFour(d);
    hide Frames, Round, RoundReached, LoopReached, Begin, Searched, IsCompressed, IsObfuscated, IsInvalid, SizeInVolume;
    hide Overrunning, Overrun, Sound, Inflates, SaveLoops.Inflated, Md5.Digest;
  }

  lemma SecondSucceeds(a: Archive, d: Descriptor, inflate: Inflater)
    requires Overrunning(a) && Overrun(d) && Inflates(inflate)
    ensures Missing(a, 0) && SaveOutcome(a, 0, d, SPLIT, 1, 0, inflate) == Some([0x61])
  {
    FlagsMean();
    OverrunBegins(a, d, SPLIT);
    SecondRound(inflate);
    OutputOf(inflate);
    assert a.majorVersion == 5 && d.expandedSize == 1;
    SizeIsFour(d);
    hide Frames, Begin, IsCompressed, IsObfuscated, SizeInVolume;
    hide Overrunning, Overrun, Sound, Inflates, SaveLoops.Inflated, Md5.Digest;
  }

  /** The first save of the file fails and leaves it marked as split; the second, from that entry, reads it
      from somewhere else and succeeds. */
  lemma FirstFailsSecondSucceeds(a: Archive, d: Descriptor, inflate: Inflater)
    requires Overrunning(a) && Overrun(d) && Inflates(inflate)
    ensures Missing(a, 0) && SaveOutcome(a, 0, d, WHOLE, 1, 0, inflate) == None
    ensures SaveLeaves(a, 0, d, WHOLE, 1, 0, inflate, Discarded) == (SPLIT, 1)
    ensures SaveOutcome(a, 0, d, SPLIT, 1, 0, inflate) == Some([0x61])
  {
    FirstFails(a, d, inflate);
    SecondSucceeds(a, d, inflate);
  }
}
