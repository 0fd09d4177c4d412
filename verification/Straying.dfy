/**
 A save that succeeds, and a second one of the same file that fails: the search of the first has gone on to a
 volume that says nothing of the file, and reads there what the volume before was said to have (lib/file.c).
 */
module Straying {
  import opened Bytes
  import opened Cabinet
  import opened Reader
  import opened SaveLoops
  import opened Outcomes
  import opened Leaves
  import opened Boundaries
  import opened SecondSaves

  /** The flags of a file that is not obfuscated and not compressed, before it is known to be split. */
  const PLAIN: flags := 0

  lemma PlainMeans()
    ensures !IsSplit(PLAIN) && !IsObfuscated(PLAIN) && !IsCompressed(PLAIN) && !IsInvalid(PLAIN)
    ensures WithSplit(PLAIN) == SPLIT
  {
  }

  // The first volume ends in file 0. The second ends in file 1, shows that it is split, and has no offset for
  // its end.
  const BEFORE := VolumeHeader(0, 0, 60, 0, 0, 60, 0, 0)
  const NO_PLACE := VolumeHeader(0, 1, 60, 0, 0, 0, 0, 0)

  /** Two volumes of version 5. Behind the 60 bytes of its headers, the second has these contents. */
  ghost predicate Straying(a: Archive, contents: seq<byte>) {
    && a.majorVersion == 5 && a.fileCount == 3
    && 0 !in a.volumes && 1 in a.volumes && 2 in a.volumes && 3 !in a.volumes
    && a.volumes[1].header == BEFORE && a.volumes[2].header == NO_PLACE
    && |a.volumes[2].bytes| == 60 + |contents| && a.volumes[2].bytes[60..] == contents
  }

  /** File 1, of that size, as the descriptor says from byte 60 of the first volume on. */
  ghost predicate Strayed(d: Descriptor, contents: seq<byte>) {
    && d.flags == PLAIN && d.volume == 1 && d.dataOffset == 60
    && d.expandedSize == d.compressedSize == |contents|
  }

  lemma StrayingExists(head1: seq<byte>, head2: seq<byte>, contents: seq<byte>) returns (a: Archive, d: Descriptor)
    requires |head1| == |head2| == 60 && |contents| < 0x1_0000_0000
    ensures Straying(a, contents) && Strayed(d, contents)
    ensures a.volumes[1].bytes == head1 && a.volumes[2].bytes[..60] == head2
  {
    a := Archive(5, 3, map[1 := Volume(BEFORE, head1), 2 := Volume(NO_PLACE, head2 + contents)]);
    d := Descriptor(PLAIN, |contents|, |contents|, 60, [], 1, 0, 0);
  }

  lemma FirstVolume(a: Archive, d: Descriptor, contents: seq<byte>)
    requires Straying(a, contents) && Strayed(d, contents) && |contents| < 0x1_0000_0000
    ensures ReadHeader(a, 1) == BEFORE && ComesLater(a, 1, BEFORE) && FlagsAfter(a, 1, d, PLAIN, BEFORE) == PLAIN
    ensures Opened(a, 1, d, PLAIN, AT_REST, 1) == Cursor(1, a.volumes[1].bytes, 60, BEFORE, |contents|)
  {
    PlainMeans();
    SmallRemainder(|contents|);
    hide IsSplit, IsCompressed, WithSplit;
  }

  lemma SecondVolume(a: Archive, d: Descriptor, contents: seq<byte>, f: flags, c: Cursor)
    requires Straying(a, contents) && Strayed(d, contents) && contents != [] && (f == PLAIN || f == SPLIT)
    ensures
      var h := ReadHeader(a, 2);
      && !ComesLater(a, 1, h) && FlagsAfter(a, 1, d, f, h) == SPLIT && Locate(1, d, SPLIT, h) == Nowhere
      && Opened(a, 1, d, f, c, 2) == c.(data := a.volumes[2].bytes, pos := 60, header := h)
  {
    PlainMeans();
    SplitOnly();
    WithSplitOnly(SPLIT);
    hide IsSplit, IsCompressed, WithSplit;
  }

  lemma NowhereFollows(a: Archive, d: Descriptor, contents: seq<byte>)
    requires Straying(a, contents) && Strayed(d, contents) && contents != []
    ensures Following(a, 1, d, SPLIT, 2) == [Extent([], 0, SPLIT)]
  {
    SecondVolume(a, d, contents, SPLIT, AT_REST);
    hide FlagsAfter, ReadHeader, Locate, ComesLater;
  }

  /** The search goes on from the first volume to the second and has strayed. */
  lemma SearchStrays(a: Archive, d: Descriptor, contents: seq<byte>)
    requires Straying(a, contents) && Strayed(d, contents) && 0 < |contents| < 0x1_0000_0000
    ensures Missing(a, 0) && Searched(a, 1, d, PLAIN, 1, 0) == (SPLIT, 2) && Strays(a, 1, d, PLAIN, 1, 0)
    ensures
      Start(a, 1, d, PLAIN, 1, AT_REST, 0)
      == Some((SPLIT, 2, Cursor(1, a.volumes[2].bytes, 60, ReadHeader(a, 2), |contents|)))
  {
    FirstVolume(a, d, contents);
    StartStep(a, 1, d, PLAIN, 1, AT_REST, 0);
    var c := Cursor(1, a.volumes[1].bytes, 60, BEFORE, |contents|);
    SecondVolume(a, d, contents, PLAIN, c);
    assert NextVolume(1) == 2;
    StartStep(a, 1, d, PLAIN, 2, c, 0);
    hide FlagsAfter, ReadHeader, Locate, ComesLater, Opened, Start, Searched, NextVolume;
  }

  lemma StrayingBegins(a: Archive, d: Descriptor, contents: seq<byte>)
    requires Straying(a, contents) && Strayed(d, contents) && 0 < |contents| < 0x1_0000_0000
    ensures
      && Missing(a, 0)
      && Begin(a, 1, d, PLAIN, 1, 0)
         == Some((Source([Extent(contents, |contents|, SPLIT), Extent([], 0, SPLIT)], 0), SPLIT))
  {
    PlainMeans();
    SearchStrays(a, d, contents);
    NowhereFollows(a, d, contents);
    ContentsThere(a.volumes[2].bytes, contents);
    hide IsInvalid, Start, Searched, Following, Strays, ReadHeader, ExtentAt;
    var e, g: Extent := Extent(contents, |contents|, SPLIT), Extent([], 0, SPLIT);
    assert [e] + [g] == [e, g];
  }

  lemma ContentsThere(bytes: seq<byte>, contents: seq<byte>)
    requires |bytes| == 60 + |contents| && bytes[60..] == contents
    ensures ExtentAt(bytes, 60, |contents|, SPLIT) == Extent(contents, |contents|, SPLIT)
  {
    assert bytes[60..60 + |contents|] == bytes[60..];
  }

  lemma PieceStream(e: Extent, g: Extent)
    requires e.left == |e.data| && g.left == 0
    ensures PlainStream(Source([e, g], 0), false) == e.data
  {
    assert e.data + [] == e.data;
  }

  lemma PieceFits(e: Extent, g: Extent)
    ensures CopyFits([e, g], e.left)
  {
  }

  lemma BothSplit(e: Extent, g: Extent)
    requires e.flags == g.flags == SPLIT && WellFormed(e) && WellFormed(g)
    ensures AllFlags([e, g], SPLIT) && AllWellFormed([e, g])
  {
  }

  /** The piece is copied, and the loop opens nothing that changes the flags. */
  lemma PieceCopied(contents: seq<byte>, inflate: Inflater)
    requires |contents| < 0x1_0000_0000
    ensures
      var s := Source([Extent(contents, |contents|, SPLIT), Extent([], 0, SPLIT)], 0);
      && Sound(s) && Copied(s, false, |contents|) == Some(contents)
      && LoopReached(s, false, false, |contents|, inflate, None) == SPLIT
  {
    var e, g: Extent := Extent(contents, |contents|, SPLIT), Extent([], 0, SPLIT);
    var s := Source([e, g], 0);
    PieceStream(e, g);
    PieceFits(e, g);
    BothSplit(e, g);
    hide PlainStream, CopyFits, Copied, LoopReached, AllFlags, AllWellFormed;
    LoopFlags(s, false, false, |contents|, inflate, None, SPLIT);
    CopiedExactly(s, false, |contents|);
    CopiedIsStream(s, false, |contents|);
    assert contents[..|contents|] == contents;
  }

  /** The first save of the file writes the contents, and the second, from the entry that the first has left,
      fails. */
  lemma FirstSucceedsSecondFails(a: Archive, d: Descriptor, contents: seq<byte>, inflate: Inflater)
    requires Straying(a, contents) && Strayed(d, contents) && 0 < |contents| < 0x1_0000_0000
    ensures Missing(a, 0) && SaveOutcome(a, 1, d, PLAIN, 1, 0, inflate) == Some(contents)
    ensures SaveLeaves(a, 1, d, PLAIN, 1, 0, inflate, Discarded) == (SPLIT, 2)
    ensures SaveOutcome(a, 1, d, SPLIT, 2, 0, inflate) == None
  {
    PlainMeans();
    SplitOnly();
    SearchStrays(a, d, contents);
    StrayingBegins(a, d, contents);
    PieceCopied(contents, inflate);
    SizesAre(d, contents);
    assert a.majorVersion == 5 && d.dataOffset == 60;
    hide IsInvalid, IsCompressed, IsObfuscated, IsSplit, Begin, Start, Strays, Searched, Copied, LoopReached;
    hide SizeInVolume, Straying, Strayed;
    SavesFromSearched(a, 1, d, PLAIN, 1, 0, inflate, Discarded);
  }

  lemma SizesAre(d: Descriptor, contents: seq<byte>)
    requires Strayed(d, contents) && |contents| < 0x1_0000_0000
    ensures SizeInVolume(d, PLAIN) == SizeInVolume(d, SPLIT) == |contents|
    ensures |contents| % 0x1_0000_0000_0000_0000 == d.expandedSize
  {
    PlainMeans();
    SplitOnly();
    SmallRemainder(|contents|);
    hide IsCompressed;
  }
}
