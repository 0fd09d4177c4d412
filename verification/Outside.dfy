/**
 Files outside of the cabinet: the volume where the search ends is as long as the offset that the descriptor
 gives, and the file is on its own. Only old saves read it (lib/file.c).
 */
module Outside {
  import opened Bytes
  import opened Cabinet
  import opened Reader
  import opened SaveLoops
  import opened Outcomes
  import opened OldChunks
  import opened Unpacking
  import opened OldSaves
  import opened Packing

  ghost predicate LiesOutside(a: Archive, index: nat, d: Descriptor, v: uint16) {
    && d.flags / 8 % 2 == 0 && StartsIn(a, index, d.volume, v) && |a.volumes[v].bytes| == d.dataOffset != 0
  }

  /** Of all that the descriptor counts, the file has all, perhaps with more behind; or, where it is compressed,
      all but up to four bytes of the marker at the end. */
  predicate Kept(d: Descriptor, contents: seq<byte>, whole: seq<byte>) {
    && |whole| == (if Compressed(d.flags) then d.compressedSize else d.expandedSize) < 0x1_0000_0000
    && |contents| < 0x8000_0000_0000_0000
    && (|| whole <= contents
        || (&& Compressed(d.flags) && |contents| < |whole| <= |contents| + 4
            && whole == contents + [0x00, 0x00, 0xFF, 0xFF][4 - (|whole| - |contents|)..]))
  }

  /** The only piece of such a file. */
  function PieceOf(whole: seq<byte>): seq<Part> {
    if whole == [] then [] else [Part([], whole, [])]
  }

  lemma OnlyPiece(whole: seq<byte>)
    ensures Together(PieceOf(whole)) == whole
  {
    if whole != [] {
      OnePart(PieceOf(whole));
    }
  }

  lemma ReadAsKept(d: Descriptor, contents: seq<byte>, whole: seq<byte>, g: flags)
    requires Kept(d, contents, whole) && (IsCompressed(g) <==> Compressed(d.flags))
    ensures
      var c := External(d, g, contents);
      c.volume == 0 && ExtentAt(c.data, c.pos, c.left, g) == Extent(whole, |whole|, g)
  {
    FlagsInNumbers(g);
    ExternalExactly(d, g, contents);
    hide IsCompressed, External;
    SmallRemainder(|whole|);
    var n := Added(d, g, |contents|);
    var data := contents + [0x00, 0x00, 0xFF, 0xFF][4 - n..];
    if whole <= contents {
      assert n == 0 && data[..|whole|] == whole;
    } else {
      assert n == |whole| - |contents| && data == whole;
    }
    if whole != [] {
      assert data[0..|whole|] == whole;
    }
  }

  /** The search ends there, and what there is to read for an old save, and for no other, is the file. */
  lemma OutsideBegins(a: Archive, index: nat, d: Descriptor, v: uint16, contents: seq<byte>, whole: seq<byte>,
                      gap: nat)
    returns (s: Source, g: flags)
    requires Missing(a, gap) && LiesOutside(a, index, d, v) && Kept(d, contents, whole)
    ensures OldBegin(a, index, d, d.flags, d.volume, gap, Some(contents)) == Some((s, g))
    ensures OldBegin(a, index, d, d.flags, d.volume, gap, None) == None
    ensures Begin(a, index, d, d.flags, d.volume, gap) == None
    ensures Sound(s) && InPieces(s.pieces, PieceOf(whole)) && s.seed == 0
    ensures IsObfuscated(g) == (d.flags / 2 % 2 == 1) && IsCompressed(g) == Compressed(d.flags)
  {
    hide Start, ReadHeader, FlagsAfter, ExtentAt, Following, InPieces, ShowsMore, External, Kept, ComesLater;
    hide IsSplit, IsCompressed, IsObfuscated, IsInvalid, Compressed, WithSplit;
    var f2, c2 := Forward(a, index, d, d.flags, d.volume, v, AT_REST, gap);
    StartStep(a, index, d, f2, v, c2, gap);
    SameShown(a, index, d, v);
    EndsThere(a, index, v);
    FlagsThere(a, index, d, d.flags, f2, v);
    g := FlagsAfter(a, index, d, f2, ReadHeader(a, v));
    ReadAsKept(d, contents, whole, g);
    AsPiece(whole, g, Following(a, index, d, g, 1));
    s := Source(PiecesFrom(a, index, d, g, External(d, g, contents)), 0);
  }

  lemma EndsThere(a: Archive, index: nat, v: uint16)
    requires v in a.volumes && (a.majorVersion <= 5 ==> index <= a.volumes[v].header.lastFileIndex < 0x8000_0000)
    ensures !ComesLater(a, index, ReadHeader(a, v))
  {
  }

  lemma AsPiece(whole: seq<byte>, g: flags, es: seq<Extent>)
    ensures InPieces([Extent(whole, |whole|, g)] + es, PieceOf(whole))
  {
  }

  /** A file outside of the cabinet that is not compressed is written by an old save as it is. */
  lemma OldOfOutside(a: Archive, index: nat, d: Descriptor, v: uint16, contents: seq<byte>, plain: seq<byte>,
                     gap: nat, inflate: OldInflater)
    requires Missing(a, gap) && LiesOutside(a, index, d, v) && !Compressed(d.flags)
    requires Kept(d, contents, Stored(d.flags, plain, 0))
    ensures OldOutcome(a, index, d, d.flags, d.volume, gap, Some(contents), inflate) == Some(plain)
  {
    var whole := Stored(d.flags, plain, 0);
    var s, g := OutsideBegins(a, index, d, v, contents, whole, gap);
    var parts := PieceOf(whole);
    OnlyPiece(whole);
    assert |plain| == d.expandedSize < 0x1_0000_0000;
    hide OldBegin, OldSaved, InPieces, Together, Stored, IsObfuscated, IsCompressed, Sound, LiesOutside, Kept;
    hide Compressed, PlainStream, PieceOf;
    StoredBack(s, d.flags, IsObfuscated(g), parts, plain);
    SmallRemainder(|plain|);
    Packing.SmallRemainder64(|plain|);
    OldCopies(s, IsObfuscated(g), |plain|, inflate);
    FrontOf(plain, PlainStream(s, IsObfuscated(g)));
  }

  /** One that is compressed, in a row of chunks that can be told apart, is written as what they unpack to, also
      where it is short of up to four bytes of the last marker. */
  lemma OldOfOutsideChunks(a: Archive, index: nat, d: Descriptor, v: uint16, contents: seq<byte>, cs: seq<seq<byte>>,
                           gap: nat, inflate: OldInflater)
    requires Missing(a, gap) && LiesOutside(a, index, d, v) && Compressed(d.flags)
    requires Kept(d, contents, Stored(d.flags, Chunked(cs), 0)) && cs != [] && Separable(cs)
    requires AllInflate(cs, inflate) && |Unpacking.Inflated(cs, inflate)| == d.expandedSize < 0x1_0000_0000
    ensures OldReadable(a, index, d, d.flags, d.volume, gap, Some(contents), inflate)
    ensures OldOutcome(a, index, d, d.flags, d.volume, gap, Some(contents), inflate)
         == Some(Unpacking.Inflated(cs, inflate))
  {
    var whole := Stored(d.flags, Chunked(cs), 0);
    var s, g := OutsideBegins(a, index, d, v, contents, whole, gap);
    var parts := PieceOf(whole);
    OnlyPiece(whole);
    assert |whole| == d.compressedSize < 0x1_0000_0000 && whole != [] && parts == [Part([], whole, [])];
    OneRow(cs);
    RowIn(cs, d.flags);
    hide OldBegin, OldOutcome, OldReadable, InPieces, Together, Stored, Chunked, IsObfuscated, IsCompressed, Sound;
    hide Kept, LiesOutside, Compressed, PieceOf, Holds, ChunksIn, Separable, AllInflate, Unpacking.Inflated, Flatten;
    ChunksHeld(s, d.flags, IsObfuscated(g), parts, [cs]);
    ReadyAtOnce(s, parts);
    HeldFileIsSaved(a, index, d, d.flags, d.volume, gap, Some(contents), inflate, [cs]);
  }

  lemma OneRow(cs: seq<seq<byte>>)
    ensures Flatten([cs]) == cs
  {
    assert Flatten([cs][1..]) == [];
  }

  lemma RowIn(cs: seq<seq<byte>>, f: flags)
    requires cs != [] && Separable(cs)
    ensures ChunksIn([Part([], Stored(f, Chunked(cs), 0), [])], [cs], f, 0)
  {
    hide Separable, Stored, Chunked;
    assert ChunksIn([], [], f, |Stored(f, Chunked(cs), 0)|);
  }

  /** Saves and raw saves write nothing of a file outside of the cabinet; and no save writes anything of one that
      is invalid, that has no offset, or whose first volume is not there. */
  lemma NotSaved(a: Archive, index: nat, d: Descriptor, v: uint16, gap: nat, inflate: Inflater, oldInflate: OldInflater,
                 external: Option<seq<byte>>)
    requires Missing(a, gap)
    ensures LiesOutside(a, index, d, v) ==>
      && SaveOutcome(a, index, d, d.flags, d.volume, gap, inflate) == None
      && RawOutcome(a, index, d, d.flags, d.volume, gap) == None
      && OldOutcome(a, index, d, d.flags, d.volume, gap, None, oldInflate) == None
    ensures d.flags / 8 % 2 == 1 || d.dataOffset == 0 || d.volume !in a.volumes ==>
      && SaveOutcome(a, index, d, d.flags, d.volume, gap, inflate) == None
      && RawOutcome(a, index, d, d.flags, d.volume, gap) == None
      && OldOutcome(a, index, d, d.flags, d.volume, gap, external, oldInflate) == None
  {
    FlagsInNumbers(d.flags);
    StartStep(a, index, d, d.flags, d.volume, AT_REST, gap);
    hide IsInvalid, Start, IsCompressed, IsObfuscated;
    if LiesOutside(a, index, d, v) {
      OutsideFails(a, index, d, v, gap);
    }
  }

  lemma OutsideFails(a: Archive, index: nat, d: Descriptor, v: uint16, gap: nat)
    requires Missing(a, gap) && LiesOutside(a, index, d, v)
    ensures Begin(a, index, d, d.flags, d.volume, gap) == None
    ensures OldBegin(a, index, d, d.flags, d.volume, gap, None) == None
  {
    hide Start, ReadHeader, FlagsAfter, ShowsMore, ComesLater, IsInvalid, WithSplit;
    var f2, c2 := Forward(a, index, d, d.flags, d.volume, v, AT_REST, gap);
    StartStep(a, index, d, f2, v, c2, gap);
    SameShown(a, index, d, v);
    EndsThere(a, index, v);
  }
}
