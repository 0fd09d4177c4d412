/**
 Cabinets that are laid out as a file is packed: where its bytes are put in the volumes, and what the headers
 and the descriptor say of them, byte by byte. What saves make of such cabinets is said without any function
 that reading goes through (lib/file.c, lib/cabfile.h).
 */
module Packing {
  import opened Bytes
  import opened Cabinet
  import opened Reader
  import opened SaveLoops
  import opened Outcomes
  import opened OldChunks
  import opened Unpacking
  import opened OldSaves
  import opened Boundaries
  import Md5
  import Obfuscation

  // ----- What is put into volumes -----

  /** A byte of an obfuscated file, where its position is `i`. */
  function HiddenByte(b: byte, i: nat): byte {
    var t := b + (i % 71) as byte;
    (4 * t + t / 64) ^ 0xD5
  }

  /** Contents of a file, from position `at` on, as its volumes hold them. */
  function Hidden(contents: seq<byte>, at: nat): (s: seq<byte>)
    ensures |s| == |contents|
  {
    seq(|contents|, i requires 0 <= i < |contents| => HiddenByte(contents[i], at + i))
  }

  function Stored(f: flags, contents: seq<byte>, at: nat): (s: seq<byte>)
    ensures |s| == |contents|
  {
    if f / 2 % 2 == 1 then Hidden(contents, at) else contents
  }

  predicate Compressed(f: flags) { f / 4 % 2 == 1 }

  /** What one volume has of the file, with all that is in front and behind. */
  datatype Part = Part(front: seq<byte>, bytes: seq<byte>, back: seq<byte>)

  function Together(parts: seq<Part>): seq<byte> {
    if parts == [] then [] else parts[0].bytes + Together(parts[1..])
  }

  /** In old cabinets, no offset for the last file stands for a very large one. */
  predicate NoOffset(majorVersion: int, offset: uint32) {
    offset == 0x7FFF_FFFF || (offset == 0 && (majorVersion == 0 || majorVersion == 5))
  }

  /** The header names the file as the last of the volume, or else as the first. */
  predicate Names(majorVersion: int, h: VolumeHeader, index: nat, f: flags, p: Part) {
    if h.lastFileIndex == index && !NoOffset(majorVersion, h.lastFileOffset) then
      && h.lastFileOffset == |p.front|
      && (if Compressed(f) then h.lastFileSizeCompressed else h.lastFileSizeExpanded) == |p.bytes|
    else
      && h.firstFileIndex == index && h.firstFileOffset == |p.front|
      && (if Compressed(f) then h.firstFileSizeCompressed else h.firstFileSizeExpanded) == |p.bytes|
  }

  predicate IsIn(volume: Volume, p: Part) {
    volume.bytes == p.front + p.bytes + p.back && p.bytes != []
  }

  ghost predicate PartIn(a: Archive, index: nat, f: flags, v: int, p: Part) {
    v in a.volumes && IsIn(a.volumes[v], p) && Names(a.majorVersion, a.volumes[v].header, index, f, p)
  }

  ghost predicate AreIn(a: Archive, index: nat, f: flags, v: int, parts: seq<Part>) {
    forall k {:trigger parts[k]} :: 0 <= k < |parts| ==> PartIn(a, index, f, v + k, parts[k])
  }

  /** The header shows, in version 5, that the file goes on in another volume. */
  predicate ShowsMore(a: Archive, index: nat, d: Descriptor, h: VolumeHeader) {
    && a.majorVersion == 5
    && (|| (index < (a.fileCount - 1) % 0x1_0000_0000 && h.lastFileIndex == index
            && h.lastFileSizeCompressed != d.compressedSize)
        || (0 < index && h.firstFileIndex == index && h.firstFileSizeCompressed != d.compressedSize))
  }

  /** From 2^31 on, the last index of a volume counts as negative. */
  predicate EndsBefore(h: VolumeHeader, index: nat) {
    h.lastFileIndex < index || h.lastFileIndex >= 0x8000_0000
  }

  /** The volumes in front, of an old cabinet, end before the file; the one where it starts does not. */
  ghost predicate StartsIn(a: Archive, index: nat, v0: int, v: uint16) {
    && 0 <= v0 <= v && index < 0x8000_0000
    && (forall k :: v0 <= k < v ==> k in a.volumes && a.majorVersion <= 5 && EndsBefore(a.volumes[k].header, index))
    && v in a.volumes && (a.majorVersion <= 5 ==> index <= a.volumes[v].header.lastFileIndex < 0x8000_0000)
  }

  /** A file in these parts: it is known to be split, or lies whole where the descriptor says. */
  ghost predicate Packed(a: Archive, index: nat, d: Descriptor, v: uint16, parts: seq<Part>) {
    && d.flags / 8 % 2 == 0 && parts != [] && StartsIn(a, index, d.volume, v)
    && d.dataOffset != 0 && |a.volumes[v].bytes| != d.dataOffset
    && |Together(parts)| == (if Compressed(d.flags) then d.compressedSize else d.expandedSize) < 0x1_0000_0000
    && (if d.flags % 2 == 1 || ShowsMore(a, index, d, a.volumes[v].header) then AreIn(a, index, d.flags, v, parts)
        else
          && |parts| == 1 && IsIn(a.volumes[v], parts[0]) && |parts[0].front| == d.dataOffset
          && forall k :: d.volume <= k < v ==> !ShowsMore(a, index, d, a.volumes[k].header))
  }

  // ----- Where reading starts -----

  lemma SameShown(a: Archive, index: nat, d: Descriptor, v: int)
    requires v in a.volumes
    ensures ShowsSplit(a, index, d, ReadHeader(a, v)) <==> ShowsMore(a, index, d, a.volumes[v].header)
    ensures ReadHeader(a, v).lastFileIndex == a.volumes[v].header.lastFileIndex
  {
  }

  /** The search goes through the volumes in front, and at most learns on the way that the file is split. */
  lemma {:induction false} Forward(a: Archive, index: nat, d: Descriptor, f: flags, v0: uint16, v: uint16, c: Cursor,
                                   gap: nat)
    returns (f2: flags, c2: Cursor)
    requires Missing(a, gap) && StartsIn(a, index, v0, v)
    ensures Start(a, index, d, f, v0, c, gap) == Start(a, index, d, f2, v, c2, gap)
    ensures f2 == f || f2 == WithSplit(f)
    ensures (forall k :: v0 <= k < v ==> !ShowsMore(a, index, d, a.volumes[k].header)) ==> f2 == f
    decreases v - v0
  {
    hide Start, WithSplit, ShowsMore, ShowsSplit, ReadHeader, Opened;
    if v0 == v {
      f2, c2 := f, c;
    } else {
      SameShown(a, index, d, v0);
      StartStep(a, index, d, f, v0, c, gap);
      var f1 := FlagsAfter(a, index, d, f, ReadHeader(a, v0));
      WithSplitTwice(f);
      assert NextVolume(v0) == v0 + 1;
      f2, c2 := Forward(a, index, d, f1, v0 + 1, v, Opened(a, index, d, f, c, v0), gap);
    }
  }

  lemma WithSplitTwice(f: flags)
    ensures WithSplit(WithSplit(f)) == WithSplit(f)
  {
  }

  /** The flags at the start, whatever was learned on the way. */
  lemma FlagsThere(a: Archive, index: nat, d: Descriptor, f: flags, f2: flags, v: int)
    requires v in a.volumes && (f2 == f || f2 == WithSplit(f))
    ensures
      var g := FlagsAfter(a, index, d, f2, ReadHeader(a, v));
      && IsObfuscated(g) == (f / 2 % 2 == 1) && IsCompressed(g) == Compressed(f) && IsInvalid(f) == (f / 8 % 2 == 1)
      && (f % 2 == 1 || ShowsMore(a, index, d, a.volumes[v].header) ==> IsSplit(g))
      && (f % 2 == 0 && f2 == f && !ShowsMore(a, index, d, a.volumes[v].header) ==> g == f && !IsSplit(g))
  {
    SameShown(a, index, d, v);
    hide ShowsSplit, ShowsMore, ReadHeader, IsSplit, IsObfuscated, IsCompressed, IsInvalid, WithSplit, Compressed;
    WithSplitTwice(f);
    WithSplitOnly(f);
    FlagsOfSplit(f);
  }

  lemma FlagsOfSplit(f: flags)
    ensures IsObfuscated(WithSplit(f)) == IsObfuscated(f) == (f / 2 % 2 == 1)
    ensures IsCompressed(WithSplit(f)) == IsCompressed(f) == Compressed(f)
    ensures IsInvalid(f) == (f / 8 % 2 == 1)
    ensures IsSplit(f) == (f % 2 == 1) && (f % 2 == 0 || f % 2 == 1)
  {
  }

  lemma PlacedThere(a: Archive, index: nat, d: Descriptor, f: flags, g: flags, v: int, p: Part)
    requires v in a.volumes && Names(a.majorVersion, a.volumes[v].header, index, f, p) && IsSplit(g)
    requires IsCompressed(g) == Compressed(f)
    ensures Locate(index, d, g, ReadHeader(a, v)) == Place(|p.front|, |p.bytes|)
  {
    hide IsSplit, IsCompressed, Compressed;
  }

  /** The volume has no place for a file that is split. */
  predicate NoPlace(a: Archive, index: nat, v: int)
    requires v in a.volumes
  {
    var h := a.volumes[v].header;
    h.firstFileIndex != index && (h.lastFileIndex == index ==> NoOffset(a.majorVersion, h.lastFileOffset))
  }

  /** Such a volume is open behind its headers, 60 bytes of them in old cabinets and 84 in others, with the count
      that there was; reading that goes on there finds nothing. */
  lemma PastHeaders(a: Archive, index: nat, d: Descriptor, f: flags, c: Cursor, v: int)
    requires v in a.volumes && f % 2 == 1 && NoPlace(a, index, v)
    ensures
      var there := Opened(a, index, d, f, c, v);
      && there.volume == c.volume && there.left == c.left && there.data == a.volumes[v].bytes
      && there.pos == if a.majorVersion == 0 || a.majorVersion == 5 then 60 else 84
    ensures Following(a, index, d, f, v) == [Extent([], 0, f)]
  {
    FlagsInNumbers(f);
    FlagsAfterEvolve(a, index, d, f, ReadHeader(a, v));
    hide IsSplit, FlagsAfter;
  }

  lemma CutOut(p: Part, f: flags)
    requires p.bytes != []
    ensures ExtentAt(p.front + p.bytes + p.back, |p.front|, |p.bytes|, f) == Extent(p.bytes, |p.bytes|, f)
  {
    var all := p.front + p.bytes + p.back;
    assert all[|p.front|..|p.front| + |p.bytes|] == p.bytes;
  }

  /** The pieces are these parts, and perhaps more. */
  ghost predicate InPieces(es: seq<Extent>, parts: seq<Part>) {
    |parts| <= |es|
    && forall k :: 0 <= k < |parts| ==> es[k].data == parts[k].bytes && es[k].left == |parts[k].bytes| > 0
  }

  lemma FirstInPieces(e: Extent, es: seq<Extent>, parts: seq<Part>)
    requires parts != [] && e.data == parts[0].bytes && e.left == |e.data| > 0 && InPieces(es, parts[1..])
    ensures InPieces([e] + es, parts)
  {
    var all, rest := [e] + es, parts[1..];
    forall k | 0 <= k < |parts|
      ensures all[k].data == parts[k].bytes && all[k].left == |parts[k].bytes| > 0
    {
      if k > 0 {
        assert all[k] == es[k - 1] && parts[k] == rest[k - 1];
      }
    }
  }

  lemma RestAreIn(a: Archive, index: nat, f: flags, v: int, parts: seq<Part>)
    requires parts != [] && AreIn(a, index, f, v, parts)
    ensures v in a.volumes && IsIn(a.volumes[v], parts[0])
    ensures Names(a.majorVersion, a.volumes[v].header, index, f, parts[0]) && AreIn(a, index, f, v + 1, parts[1..])
  {
    assert PartIn(a, index, f, v + 0, parts[0]);
    var rest := parts[1..];
    forall k | 0 <= k < |rest|
      ensures PartIn(a, index, f, v + 1 + k, rest[k])
    {
      assert rest[k] == parts[k + 1] && PartIn(a, index, f, v + (k + 1), parts[k + 1]);
      assert v + (k + 1) == v + 1 + k;
    }
  }

  lemma {:induction false} PartsFollow(a: Archive, index: nat, d: Descriptor, f: flags, g: flags, v: int,
                                       parts: seq<Part>)
    requires AreIn(a, index, f, v, parts) && IsSplit(g) && IsCompressed(g) == Compressed(f)
    ensures InPieces(Following(a, index, d, g, v), parts)
    decreases |parts|
  {
    hide IsSplit, IsCompressed, Compressed, InPieces, AreIn, Names, Locate, ReadHeader, FlagsAfter, ExtentAt;
    if parts == [] {
      NoParts(Following(a, index, d, g, v));
    } else {
      RestAreIn(a, index, f, v, parts);
      PartsFollow(a, index, d, f, g, v + 1, parts[1..]);
      PlacedThere(a, index, d, f, g, v, parts[0]);
      FlagsAfterEvolve(a, index, d, g, ReadHeader(a, v));
      CutOut(parts[0], g);
      FirstInPieces(Extent(parts[0].bytes, |parts[0].bytes|, g), Following(a, index, d, g, v + 1), parts);
    }
  }

  lemma NoParts(es: seq<Extent>)
    ensures InPieces(es, [])
  {
  }

  /** The first part, in the volume where the search ends. */
  lemma FirstPart(a: Archive, index: nat, d: Descriptor, v: uint16, parts: seq<Part>, f2: flags, c2: Cursor)
    requires Packed(a, index, d, v, parts) && (f2 == d.flags || f2 == WithSplit(d.flags))
    requires (forall k :: d.volume <= k < v ==> !ShowsMore(a, index, d, a.volumes[k].header)) ==> f2 == d.flags
    ensures
      var g, p, h := FlagsAfter(a, index, d, f2, ReadHeader(a, v)), parts[0], ReadHeader(a, v);
      && !ComesLater(a, index, h)
      && Opened(a, index, d, f2, c2, v) == Cursor(v, a.volumes[v].bytes, |p.front|, h, |p.bytes|)
      && IsIn(a.volumes[v], p) && SizeInVolume(d, g) == |Together(parts)|
      && IsObfuscated(g) == (d.flags / 2 % 2 == 1) && IsCompressed(g) == Compressed(d.flags) && !IsInvalid(d.flags)
      && (IsSplit(g) ==> AreIn(a, index, d.flags, v, parts)) && (!IsSplit(g) ==> |parts| == 1)
  {
    var g, h := FlagsAfter(a, index, d, f2, ReadHeader(a, v)), ReadHeader(a, v);
    SameShown(a, index, d, v);
    FlagsThere(a, index, d, d.flags, f2, v);
    PackedSize(d, g, parts);
    hide ReadHeader, FlagsAfter, IsSplit, IsCompressed, IsObfuscated, IsInvalid, Compressed, WithSplit, ShowsMore;
    hide SizeInVolume, IsIn, Names;
    FlagParity(d.flags);
    if d.flags % 2 == 1 || ShowsMore(a, index, d, a.volumes[v].header) {
      RestAreIn(a, index, d.flags, v, parts);
      PlacedThere(a, index, d, d.flags, g, v, parts[0]);
    } else {
      OnePart(parts);
    }
    hide AreIn;
  }

  lemma FlagParity(f: flags)
    ensures f % 2 == 0 || f % 2 == 1
  {
  }

  lemma PartsBehind(a: Archive, index: nat, d: Descriptor, g: flags, v: uint16, parts: seq<Part>)
    requires parts != [] && IsCompressed(g) == Compressed(d.flags)
    requires (IsSplit(g) ==> AreIn(a, index, d.flags, v, parts)) && (!IsSplit(g) ==> |parts| == 1)
    ensures InPieces(Following(a, index, d, g, v + 1), parts[1..])
  {
    hide IsSplit, IsCompressed, Compressed, InPieces, AreIn, Following;
    if IsSplit(g) {
      RestAreIn(a, index, d.flags, v, parts);
      PartsFollow(a, index, d, d.flags, g, v + 1, parts[1..]);
    } else {
      NoParts(Following(a, index, d, g, v + 1));
      assert parts[1..] == [];
    }
  }

  /** What there is to read of a file that is packed. */
  lemma PackedBegins(a: Archive, index: nat, d: Descriptor, v: uint16, parts: seq<Part>, gap: nat)
    returns (s: Source, g: flags)
    requires Missing(a, gap) && Packed(a, index, d, v, parts)
    ensures Begin(a, index, d, d.flags, d.volume, gap) == Some((s, g))
    ensures Sound(s) && InPieces(s.pieces, parts) && s.seed == 0 && SizeInVolume(d, g) == |Together(parts)|
    ensures IsObfuscated(g) == (d.flags / 2 % 2 == 1) && IsCompressed(g) == Compressed(d.flags)
  {
    hide Start, Opened, ReadHeader, FlagsAfter, ExtentAt, Following, InPieces, ShowsMore, SizeInVolume, ComesLater;
    hide IsSplit, IsCompressed, IsObfuscated, IsInvalid, Compressed, AreIn, StartsIn, WithSplit;
    VolumeThere(a, index, d, v, parts);
    var f2, c2 := Forward(a, index, d, d.flags, d.volume, v, AT_REST, gap);
    StartStep(a, index, d, f2, v, c2, gap);
    FirstPart(a, index, d, v, parts, f2, c2);
    var p, h := parts[0], ReadHeader(a, v);
    g := FlagsAfter(a, index, d, f2, h);
    PartsBehind(a, index, d, g, v, parts);
    CutOut(p, g);
    FirstInPieces(Extent(p.bytes, |p.bytes|, g), Following(a, index, d, g, v + 1), parts);
    s := Source(PiecesFrom(a, index, d, g, Cursor(v, a.volumes[v].bytes, |p.front|, h, |p.bytes|)), 0);
  }

  lemma VolumeThere(a: Archive, index: nat, d: Descriptor, v: uint16, parts: seq<Part>)
    requires Packed(a, index, d, v, parts)
    ensures v in a.volumes && StartsIn(a, index, d.volume, v)
  {
  }

  lemma OnePart(parts: seq<Part>)
    requires |parts| == 1
    ensures Together(parts) == parts[0].bytes
  {
    assert Together(parts[1..]) == [];
  }

  lemma PackedSize(d: Descriptor, g: flags, parts: seq<Part>)
    requires IsCompressed(g) == Compressed(d.flags)
    requires |Together(parts)| == (if Compressed(d.flags) then d.compressedSize else d.expandedSize) < 0x1_0000_0000
    ensures SizeInVolume(d, g) == |Together(parts)|
  {
    hide IsCompressed, Compressed;
    SmallRemainder(|Together(parts)|);
  }

  // ----- The plain contents -----

  lemma HiddenBack(contents: seq<byte>, at: uint32)
    requires at + |contents| < 0x1_0000_0000
    ensures Obfuscation.Plain(Hidden(contents, at), at) == contents
  {
    hide Obfuscation.PlainByte, Obfuscation.ObfuscatedByte, HiddenByte;
    forall i | 0 <= i < |contents|
      ensures Obfuscation.Plain(Hidden(contents, at), at)[i] == contents[i]
    {
      SmallRemainder(at + i);
      HiddenByteBack(contents[i], at + i);
    }
  }

  lemma HiddenByteBack(b: byte, i: uint32)
    ensures Obfuscation.PlainByte(HiddenByte(b, i), i) == b
  {
    Obfuscation.BytesInNumbers(b, i);
    Obfuscation.ByteInverse(b, i);
    hide Obfuscation.PlainByte, Obfuscation.ObfuscatedByte;
  }

  lemma {:induction false} PartsStream(es: seq<Extent>, parts: seq<Part>)
    requires InPieces(es, parts)
    ensures Together(parts) <= Stream(es)
    decreases |parts|
  {
    if |parts| == 1 {
      OnePart(parts);
    } else if |parts| > 1 {
      RestInPieces(es, parts);
      PartsStream(es[1..], parts[1..]);
    }
  }

  lemma RestInPieces(es: seq<Extent>, parts: seq<Part>)
    requires parts != [] && InPieces(es, parts)
    ensures es != [] && es[0].data == parts[0].bytes && es[0].left == |parts[0].bytes| > 0
    ensures InPieces(es[1..], parts[1..])
  {
  }

  lemma StoredBack(s: Source, f: flags, obfuscated: bool, parts: seq<Part>, contents: seq<byte>)
    requires InPieces(s.pieces, parts) && s.seed == 0 && obfuscated == (f / 2 % 2 == 1)
    requires Together(parts) == Stored(f, contents, 0) && |contents| < 0x1_0000_0000
    ensures contents <= PlainStream(s, obfuscated)
  {
    hide Stream, Obfuscation.Plain, InPieces, Hidden, Together;
    PartsStream(s.pieces, parts);
    if obfuscated {
      var all := Stream(s.pieces);
      PlainCut(all, |contents|, 0);
      assert all[..|contents|] == Hidden(contents, 0);
      HiddenBack(contents, 0);
    }
  }

  // ----- Where volumes end -----

  /** One of the parts but the last ends `m` bytes into the file. */
  predicate Edge(parts: seq<Part>, m: nat) {
    |parts| > 1 && (m == |parts[0].bytes| || (m > |parts[0].bytes| && Edge(parts[1..], m - |parts[0].bytes|)))
  }

  lemma {:induction false} EdgesAreEnds(es: seq<Extent>, parts: seq<Part>, m: nat)
    requires InPieces(es, parts) && m < |Together(parts)|
    ensures PieceEnd(es, m) <==> Edge(parts, m)
    decreases |parts|
  {
    if parts != [] {
      RestInPieces(es, parts);
      if |parts| == 1 {
        OnePart(parts);
      } else if m > |parts[0].bytes| {
        EdgesAreEnds(es[1..], parts[1..], m - |parts[0].bytes|);
      }
    }
  }

  /** No volume ends at a multiple of 64 KiB of the first `n` bytes. */
  ghost predicate BuffersClear(parts: seq<Part>, n: nat) {
    forall m :: 0 <= m < n && m % 0x1_0000 == 0 ==> !Edge(parts, m)
  }

  lemma BuffersFit(es: seq<Extent>, parts: seq<Part>)
    requires InPieces(es, parts)
    ensures CopyFits(es, |Together(parts)|) <==> BuffersClear(parts, |Together(parts)|)
  {
    hide PieceEnd, Edge, InPieces, Together;
    var n := |Together(parts)|;
    if CopyFits(es, n) {
      forall m | 0 <= m < n && m % 0x1_0000 == 0
        ensures !Edge(parts, m)
      {
        assert BufferStart(m / 0x1_0000) == m;
        EdgesAreEnds(es, parts, m);
      }
    }
    if BuffersClear(parts, n) {
      forall k | 0 <= k && BufferStart(k) < n
        ensures !PieceEnd(es, BufferStart(k))
      {
        MultipleOf(k);
        EdgesAreEnds(es, parts, BufferStart(k));
      }
    }
  }

  lemma MultipleOf(k: nat)
    ensures BufferStart(k) % 0x1_0000 == 0
  {
  }

  // ----- Saves of uncompressed files, and raw saves -----

  lemma FrontOf(s: seq<byte>, t: seq<byte>)
    requires s <= t
    ensures t[..|s|] == s
  {
  }

  lemma CopiedPacked(s: Source, f: flags, obfuscated: bool, parts: seq<Part>, contents: seq<byte>)
    requires Sound(s) && InPieces(s.pieces, parts) && s.seed == 0 && obfuscated == (f / 2 % 2 == 1)
    requires Together(parts) == Stored(f, contents, 0) && |contents| < 0x1_0000_0000
    ensures Copied(s, obfuscated, |contents|) == if BuffersClear(parts, |contents|) then Some(contents) else None
  {
    hide Copied, PlainStream, InPieces, Together, CopyFits, BuffersClear, Sound;
    StoredBack(s, f, obfuscated, parts, contents);
    CopiedExactly(s, obfuscated, |contents|);
    BuffersFit(s.pieces, parts);
    assert |Together(parts)| == |contents|;
    if Copied(s, obfuscated, |contents|).Some? {
      CopiedIsStream(s, obfuscated, |contents|);
      FrontOf(contents, PlainStream(s, obfuscated));
    }
  }

  /** A raw save of a packed file writes what was packed, unless a volume ends where a buffer starts. */
  lemma RawOfPacked(a: Archive, index: nat, d: Descriptor, v: uint16, parts: seq<Part>, contents: seq<byte>, gap: nat)
    requires Missing(a, gap) && Packed(a, index, d, v, parts) && Together(parts) == Stored(d.flags, contents, 0)
    ensures RawOutcome(a, index, d, d.flags, d.volume, gap)
         == if BuffersClear(parts, |contents|) then Some(contents) else None
  {
    var s, g := PackedBegins(a, index, d, v, parts, gap);
    hide Begin, Copied, InPieces, Together, Stored, BuffersClear, IsObfuscated, IsCompressed, SizeInVolume, Sound;
    hide StartsIn, AreIn;
    PackedLength(a, index, d, v, parts);
    CopiedPacked(s, d.flags, IsObfuscated(g), parts, contents);
  }

  lemma PackedLength(a: Archive, index: nat, d: Descriptor, v: uint16, parts: seq<Part>)
    requires Packed(a, index, d, v, parts)
    ensures |Together(parts)| == (if Compressed(d.flags) then d.compressedSize else d.expandedSize) < 0x1_0000_0000
  {
  }

  /** A save of a packed file that is not compressed does so too, provided that the digest is right. */
  lemma SaveOfPacked(a: Archive, index: nat, d: Descriptor, v: uint16, parts: seq<Part>, contents: seq<byte>, gap: nat,
                     inflate: Inflater)
    requires Missing(a, gap) && Packed(a, index, d, v, parts) && Together(parts) == Stored(d.flags, contents, 0)
    requires !Compressed(d.flags)
    ensures SaveOutcome(a, index, d, d.flags, d.volume, gap, inflate)
         == if BuffersClear(parts, |contents|) && (a.majorVersion >= 6 ==> Md5.Digest(contents) == d.md5)
            then Some(contents) else None
  {
    var s, g := PackedBegins(a, index, d, v, parts, gap);
    PackedLength(a, index, d, v, parts);
    hide Begin, Copied, InPieces, Together, Stored, BuffersClear, IsObfuscated, IsCompressed, SizeInVolume, Sound;
    hide StartsIn, AreIn, Compressed, Packed, Md5.Digest, Checks, SaveOutcome;
    CopiedPacked(s, d.flags, IsObfuscated(g), parts, contents);
    SmallRemainder64(|contents|);
    ChecksOf(a.majorVersion, d, contents);
    CopiedOutcome(a, index, d, gap, inflate, s, g);
  }

  lemma ChecksOf(majorVersion: int, d: Descriptor, output: seq<byte>)
    requires |output| % 0x1_0000_0000_0000_0000 == |output| == d.expandedSize
    ensures Checks(majorVersion, d, output) <==> (majorVersion >= 6 ==> Md5.Digest(output) == d.md5)
  {
    hide Md5.Digest;
  }

  lemma CopiedOutcome(a: Archive, index: nat, d: Descriptor, gap: nat, inflate: Inflater, s: Source, g: flags)
    requires Missing(a, gap) && Begin(a, index, d, d.flags, d.volume, gap) == Some((s, g)) && !IsCompressed(g)
    ensures
      SaveOutcome(a, index, d, d.flags, d.volume, gap, inflate)
      == match Copied(s, IsObfuscated(g), SizeInVolume(d, g))
         case None => None
         case Some(output) => if Checks(a.majorVersion, d, output) then Some(output) else None
  {
    hide Begin, Checks, Copied, IsCompressed, IsObfuscated, SizeInVolume;
  }

  lemma SmallRemainder64(n: nat)
    requires n < 0x1_0000_0000
    ensures n % 0x1_0000_0000_0000_0000 == n
  {
  }

  // ----- Saves of compressed files -----

  /** No volume ends where a length or a payload starts. */
  predicate FramesClear(fs: seq<Frame>, parts: seq<Part>, at: nat) {
    fs == [] || (!Edge(parts, at) && !Edge(parts, at + 2) && FramesClear(fs[1..], parts, at + 2 + |fs[0].payload|))
  }

  lemma {:induction false} ClearFramesFit(fs: seq<Frame>, es: seq<Extent>, parts: seq<Part>, at: nat)
    requires InPieces(es, parts) && at + |Joined(fs)| == |Together(parts)| < 0x1_0000_0000
    requires forall i :: 0 <= i < |fs| ==> ValidFrame(fs[i])
    ensures FramesFit(fs, es, at, |Joined(fs)|) <==> FramesClear(fs, parts, at)
    decreases |fs|
  {
    hide ValidFrame, InPieces, PieceEnd, Edge, Together, Minus32;
    if fs != [] {
      assert ValidFrame(fs[0]);
      FrameIsLong(fs[0]);
      LessInOrder(|Joined(fs)|, |fs[0].payload|);
      EdgesAreEnds(es, parts, at);
      EdgesAreEnds(es, parts, at + 2);
      ClearFramesFit(fs[1..], es, parts, at + 2 + |fs[0].payload|);
    }
  }

  lemma LessInOrder(left: uint32, n: nat)
    requires 2 + n <= left
    ensures Minus32(Minus32(left, 2), n) == left - 2 - n
  {
    SmallRemainder(left - 2);
    SmallRemainder(left - 2 - n);
  }

  lemma LengthInFront(f: Frame, x: seq<byte>, rest: seq<byte>)
    requires |f.length| == 2 && x == f.length + f.payload + rest
    ensures f.length == x[..2] && f.payload == x[2..2 + |f.payload|]
  {
  }

  lemma FrontsNested<T>(s: seq<T>, t: seq<T>)
    requires s != [] && t != [] && s[0] == t[0] && (s[1..] <= t[1..] || t[1..] <= s[1..])
    ensures s <= t || t <= s
  {
    assert s == [s[0]] + s[1..] && t == [t[0]] + t[1..];
  }

  lemma SameLength<T>(s: seq<T>, t: seq<T>)
    requires |s| == |t| && (s <= t || t <= s)
    ensures s == t
  {
  }

  /** Frames from the front of the same bytes are the same, as far as there are both. */
  lemma {:induction false} FramesNested(fs: seq<Frame>, gs: seq<Frame>, x: seq<byte>)
    requires forall i :: 0 <= i < |fs| ==> ValidFrame(fs[i])
    requires forall i :: 0 <= i < |gs| ==> ValidFrame(gs[i])
    requires Joined(fs) <= x && Joined(gs) <= x
    ensures fs <= gs || gs <= fs
  {
    if fs != [] && gs != [] {
      var f, g := fs[0], gs[0];
      FrontFrame(fs, x);
      FrontFrame(gs, x);
      LengthRead(f);
      LengthRead(g);
      hide ValidFrame, Joined, ReadUint16;
      LengthInFront(f, x, x[2 + |f.payload|..]);
      LengthInFront(g, x, x[2 + |g.payload|..]);
      assert |f.payload| == |g.payload|;
      FramesNested(fs[1..], gs[1..], x[2 + |f.payload|..]);
      FrontsNested(fs, gs);
    }
  }

  lemma {:induction false} JoinedOfFront(fs: seq<Frame>, k: nat)
    requires k < |fs| && forall i :: 0 <= i < |fs| ==> ValidFrame(fs[i])
    ensures |Joined(fs[..k])| < |Joined(fs)|
    decreases |fs|
  {
    hide ValidFrame;
    assert ValidFrame(fs[0]);
    FrameIsLong(fs[0]);
    if k > 0 {
      JoinedOfFront(fs[1..], k - 1);
      assert fs[..k][1..] == fs[1..][..k - 1];
    }
  }

  lemma FrameIsLong(f: Frame)
    requires ValidFrame(f)
    ensures |f.length| == 2 && |f.payload| > 0
  {
  }

  /** The framing loop reads no other frames than those that are there. */
  lemma FramesOnly(s: Source, obfuscated: bool, left: uint32, inflate: Inflater, fs: seq<Frame>)
    requires Sound(s) && ValidFrames(fs, inflate) && Joined(fs) <= PlainStream(s, obfuscated) && |Joined(fs)| == left
    ensures Frames(s, obfuscated, left, inflate).Some? ==> Frames(s, obfuscated, left, inflate) == Some(fs)
  {
    hide Frames, PlainStream, Sound, ValidFrame, Joined;
    if Frames(s, obfuscated, left, inflate).Some? {
      var gs := Frames(s, obfuscated, left, inflate).value;
      FramesAreStream(s, obfuscated, left, inflate);
      FramesNested(fs, gs, PlainStream(s, obfuscated));
      if |fs| < |gs| {
        FramesStopFirst(s, obfuscated, left, inflate, |fs|);
        assert gs[..|fs|] == fs;
        SmallRemainder(left);
      } else if |gs| < |fs| {
        JoinedOfFront(fs, |gs|);
        assert fs[..|gs|] == gs;
        SmallRemainder(|Joined(gs)|);
      } else {
        SameLength(fs, gs);
      }
    }
  }

  lemma FramesPacked(s: Source, f: flags, obfuscated: bool, parts: seq<Part>, fs: seq<Frame>, inflate: Inflater)
    requires Sound(s) && InPieces(s.pieces, parts) && s.seed == 0 && obfuscated == (f / 2 % 2 == 1)
    requires ValidFrames(fs, inflate) && Together(parts) == Stored(f, Joined(fs), 0) && |Joined(fs)| < 0x1_0000_0000
    ensures Frames(s, obfuscated, |Joined(fs)|, inflate) == if FramesClear(fs, parts, 0) then Some(fs) else None
  {
    hide Frames, PlainStream, InPieces, Together, Sound, Joined, ValidFrame;
    var contents := Joined(fs);
    StoredBack(s, f, obfuscated, parts, contents);
    ClearFramesFit(fs, s.pieces, parts, 0);
    FramesExactly(s, obfuscated, |contents|, inflate, fs);
    FramesOnly(s, obfuscated, |contents|, inflate, fs);
  }

  /** A save of a compressed file that is packed writes what its payloads inflate to, each of them not empty
      and behind its length in two bytes, if size and digest are right and no volume ends where a length or a
      payload starts; and it fails otherwise. */
  lemma SaveOfFramed(a: Archive, index: nat, d: Descriptor, v: uint16, parts: seq<Part>, fs: seq<Frame>, gap: nat,
                     inflate: Inflater)
    requires Missing(a, gap) && Packed(a, index, d, v, parts) && Compressed(d.flags) && ValidFrames(fs, inflate)
    requires Together(parts) == Stored(d.flags, Joined(fs), 0)
    ensures
      var output := SaveLoops.Inflated(fs, inflate);
      SaveOutcome(a, index, d, d.flags, d.volume, gap, inflate)
      == if && FramesClear(fs, parts, 0) && |output| % 0x1_0000_0000_0000_0000 == d.expandedSize
            && (a.majorVersion >= 6 ==> Md5.Digest(output) == d.md5)
         then Some(output) else None
  {
    var s, g := PackedBegins(a, index, d, v, parts, gap);
    PackedLength(a, index, d, v, parts);
    hide Begin, Frames, InPieces, Together, Stored, IsObfuscated, IsCompressed, SizeInVolume, Sound, StartsIn, Joined;
    hide AreIn, Compressed, Packed, Md5.Digest, ValidFrames, FramesClear, SaveLoops.Inflated;
    FramesPacked(s, d.flags, IsObfuscated(g), parts, fs, inflate);
  }

  // ----- Old saves -----

  /** An old save of a packed file that is not compressed writes what was packed, wherever volumes end. */
  lemma OldOfPacked(a: Archive, index: nat, d: Descriptor, v: uint16, parts: seq<Part>, contents: seq<byte>, gap: nat,
                    external: Option<seq<byte>>, inflate: OldInflater)
    requires Missing(a, gap) && Packed(a, index, d, v, parts) && Together(parts) == Stored(d.flags, contents, 0)
    requires !Compressed(d.flags)
    ensures OldOutcome(a, index, d, d.flags, d.volume, gap, external, inflate) == Some(contents)
  {
    var s, g := PackedBegins(a, index, d, v, parts, gap);
    PackedLength(a, index, d, v, parts);
    hide Begin, OldBegin, OldSaved, InPieces, Together, Stored, IsObfuscated, IsCompressed, SizeInVolume, Sound;
    hide StartsIn, AreIn, Compressed, Packed, PlainStream;
    OldBeginInside(a, index, d, d.flags, d.volume, gap, external);
    StoredBack(s, d.flags, IsObfuscated(g), parts, contents);
    SmallRemainder(|contents|);
    SmallRemainder64(|contents|);
    OldCopies(s, IsObfuscated(g), |contents|, inflate);
    FrontOf(contents, PlainStream(s, IsObfuscated(g)));
  }

  /** A row of chunks, each with the marker behind it. */
  function Chunked(cs: seq<seq<byte>>): seq<byte> {
    if cs == [] then [] else cs[0] + [0x00, 0x00, 0xFF, 0xFF] + Chunked(cs[1..])
  }

  lemma {:induction false} ChunkedIsJoined(cs: seq<seq<byte>>)
    ensures Chunked(cs) == JoinedChunks(cs)
  {
    if cs != [] {
      ChunkedIsJoined(cs[1..]);
    }
  }

  /** Every part is a row of chunks that can be told apart. */
  ghost predicate ChunksIn(parts: seq<Part>, css: seq<seq<seq<byte>>>, f: flags, at: nat) {
    && |parts| == |css|
    && (css != [] ==>
          && css[0] != [] && Separable(css[0]) && parts[0].bytes == Stored(f, Chunked(css[0]), at)
          && ChunksIn(parts[1..], css[1..], f, at + |parts[0].bytes|))
  }

  lemma {:induction false} ChunksHeld(s: Source, f: flags, obfuscated: bool, parts: seq<Part>,
                                      css: seq<seq<seq<byte>>>)
    requires Sound(s) && InPieces(s.pieces, parts) && ChunksIn(parts, css, f, s.seed)
    requires obfuscated == (f / 2 % 2 == 1) && s.seed + |Together(parts)| < 0x1_0000_0000
    ensures Holds(s, obfuscated, css)
    decreases |css|
  {
    hide InPieces, Hidden, Separable, Chunked, JoinedChunks, Obfuscation.Plain, Begins, Sound;
    if css != [] {
      RestInPieces(s.pieces, parts);
      ChunkedIsJoined(css[0]);
      HiddenBack(Chunked(css[0]), s.seed);
      NothingBegins();
      SoundBehind(s, obfuscated);
      var plain := PlainPiece(s, obfuscated);
      assert plain == Chunked(css[0]) && plain[|plain|..] == [];
      var next := Behind(s, obfuscated);
      SmallRemainder(s.seed + |parts[0].bytes|);
      if obfuscated {
        ChunksHeld(next, f, obfuscated, parts[1..], css[1..]);
      } else {
        StoredAnywhere(parts[1..], css[1..], f, s.seed + |parts[0].bytes|, s.seed);
        ChunksHeld(next, f, obfuscated, parts[1..], css[1..]);
      }
    }
  }

  lemma SoundBehind(s: Source, obfuscated: bool)
    requires Sound(s) && s.pieces != []
    ensures Sound(Behind(s, obfuscated))
  {
  }

  lemma NothingBegins()
    ensures Begins([])
  {
  }

  lemma {:induction false} StoredAnywhere(parts: seq<Part>, css: seq<seq<seq<byte>>>, f: flags, at: nat, at2: nat)
    requires ChunksIn(parts, css, f, at) && f / 2 % 2 != 1
    ensures ChunksIn(parts, css, f, at2)
    decreases |css|
  {
    hide Separable, Chunked, Hidden;
    if css != [] {
      StoredAnywhere(parts[1..], css[1..], f, at + |parts[0].bytes|, at2 + |parts[0].bytes|);
    }
  }

  /** An old save of a compressed file that is packed, in rows of chunks that can be told apart, writes what
      all of them unpack to. */
  lemma OldOfChunks(a: Archive, index: nat, d: Descriptor, v: uint16, parts: seq<Part>, css: seq<seq<seq<byte>>>,
                    gap: nat, external: Option<seq<byte>>, inflate: OldInflater)
    requires Missing(a, gap) && Packed(a, index, d, v, parts) && Compressed(d.flags) && ChunksIn(parts, css, d.flags, 0)
    requires AllInflate(Flatten(css), inflate)
    requires |Unpacking.Inflated(Flatten(css), inflate)| == d.expandedSize < 0x1_0000_0000
    ensures OldReadable(a, index, d, d.flags, d.volume, gap, external, inflate)
    ensures OldOutcome(a, index, d, d.flags, d.volume, gap, external, inflate)
         == Some(Unpacking.Inflated(Flatten(css), inflate))
  {
    var s, g := PackedBegins(a, index, d, v, parts, gap);
    PackedLength(a, index, d, v, parts);
    hide Begin, OldBegin, InPieces, Together, Stored, IsObfuscated, IsCompressed, SizeInVolume, Sound, StartsIn, Holds;
    hide AreIn, Compressed, Packed, ChunksIn, AllInflate, Unpacking.Inflated, Flatten, OldReadable, OldOutcome;
    OldBeginInside(a, index, d, d.flags, d.volume, gap, external);
    ChunksHeld(s, d.flags, IsObfuscated(g), parts, css);
    ReadyAtOnce(s, parts);
    HeldFileIsSaved(a, index, d, d.flags, d.volume, gap, external, inflate, css);
  }

  lemma ReadyAtOnce(s: Source, parts: seq<Part>)
    requires InPieces(s.pieces, parts) && parts != []
    ensures Reopened(s) == s
  {
  }

  // ----- A file across the edge of two volumes -----

  predicate TwoParts(front: Part, back: Part) {
    && |front.front| >= 84 && |back.front| == 84 && front.back == [] && front.bytes != [] && back.bytes != []
    && |front.front| + |front.bytes| < 0x7FFF_FFFF && 84 + |back.bytes| + |back.back| < 0x7FFF_FFFF
  }

  /** Two volumes of version 6: headers, file 0 and the first part of file 1; headers, the second part of file 1,
      and file 2. */
  ghost predicate AcrossEdge(a: Archive, front: Part, back: Part) {
    && a.majorVersion == 6 && a.fileCount == 3 && 1 in a.volumes && 2 in a.volumes && 0 !in a.volumes
    && TwoParts(front, back)
    && a.volumes[1].bytes == front.front + front.bytes && a.volumes[2].bytes == back.front + back.bytes + back.back
    && a.volumes[1].header
       == VolumeHeader(0, 1, 84, |front.front| - 84, |front.front| - 84, |front.front|, |front.bytes|, |front.bytes|)
    && a.volumes[2].header
       == VolumeHeader(1, 2, 84, |back.bytes|, |back.bytes|, 84 + |back.bytes|, |back.back|, |back.back|)
  }

  lemma AcrossEdgeExists(front: Part, back: Part) returns (a: Archive)
    requires TwoParts(front, back)
    ensures AcrossEdge(a, front, back)
  {
    var first := VolumeHeader(0, 1, 84, |front.front| - 84, |front.front| - 84, |front.front|, |front.bytes|,
                              |front.bytes|);
    var second := VolumeHeader(1, 2, 84, |back.bytes|, |back.bytes|, 84 + |back.bytes|, |back.back|, |back.back|);
    a := Archive(6, 3, map[1 := Volume(first, front.front + front.bytes),
                           2 := Volume(second, back.front + back.bytes + back.back)]);
  }

  lemma EdgePacked(a: Archive, d: Descriptor, front: Part, back: Part)
    requires AcrossEdge(a, front, back)
    requires d.flags == 1 && d.volume == 1 && d.dataOffset == |front.front|
    requires |front.bytes| + |back.bytes| == d.expandedSize < 0x1_0000_0000
    ensures Packed(a, 1, d, 1, [front, back]) && Together([front, back]) == front.bytes + back.bytes
    ensures Stored(d.flags, front.bytes + back.bytes, 0) == front.bytes + back.bytes
    ensures BuffersClear([front, back], d.expandedSize) <==> |front.bytes| % 0x1_0000 != 0
  {
    FlagsOfOne();
    assert front.front + front.bytes + [] == front.front + front.bytes;
    var parts := [front, back];
    assert parts[1..] == [back];
    OnePart([back]);
    assert PartIn(a, 1, 1, 1 + 0, front) && PartIn(a, 1, 1, 1 + 1, back);
    EdgeOfTwo(front, back);
    assert Edge([front, back], |front.bytes|);
  }

  lemma FlagsOfOne()
    ensures var f: flags := 1; f % 2 == 1 && f / 2 % 2 == 0 && f / 4 % 2 == 0 && f / 8 % 2 == 0
  {
  }

  lemma EdgeOfTwo(front: Part, back: Part)
    ensures forall m :: Edge([front, back], m) <==> m == |front.bytes|
  {
    assert [front, back][1..] == [back];
  }

  /** A raw save reads the first part from where the last file of its volume starts, and the second from where
      the first file of the next one does. */
  lemma RawAcrossEdge(a: Archive, d: Descriptor, front: Part, back: Part)
    requires AcrossEdge(a, front, back)
    requires d.flags == 1 && d.volume == 1 && d.dataOffset == |front.front|
    requires |front.bytes| + |back.bytes| == d.expandedSize < 0x1_0000_0000
    ensures Missing(a, 0)
    ensures RawOutcome(a, 1, d, 1, 1, 0)
         == if |front.bytes| % 0x1_0000 != 0 then Some(front.bytes + back.bytes) else None
  {
    EdgePacked(a, d, front, back);
    hide Packed, BuffersClear, Together, Stored, RawOutcome;
    RawOfPacked(a, 1, d, 1, [front, back], front.bytes + back.bytes, 0);
  }

  // ----- Files that their volume says nothing of -----

  /** The file is known to be split, and the volume of its descriptor has no place for it. */
  ghost predicate Unplaced(a: Archive, index: nat, d: Descriptor) {
    && a.majorVersion >= 6 && d.flags % 2 == 1 && d.flags / 8 % 2 == 0
    && d.volume in a.volumes && NoPlace(a, index, d.volume)
    && d.dataOffset != 0 && |a.volumes[d.volume].bytes| != d.dataOffset
  }

  lemma UnplacedBegins(a: Archive, index: nat, d: Descriptor, gap: nat)
    requires Missing(a, gap) && Unplaced(a, index, d)
    ensures
      var pieces := [Extent([], 0, d.flags)] + Following(a, index, d, d.flags, 1);
      Begin(a, index, d, d.flags, d.volume, gap) == Some((Source(pieces, 0), d.flags))
  {
    var v := d.volume;
    FlagsInNumbers(d.flags);
    PastHeaders(a, index, d, d.flags, AT_REST, v);
    FlagsAfterEvolve(a, index, d, d.flags, ReadHeader(a, v));
    hide ReadHeader, FlagsAfter, Following, Opened, IsSplit, IsInvalid, NoPlace, Start;
    StartStep(a, index, d, d.flags, v, AT_REST, gap);
  }

  /** Saves of such a file fail, unless there is nothing to save. */
  lemma UnplacedNotSaved(a: Archive, index: nat, d: Descriptor, gap: nat, inflate: Inflater)
    requires Missing(a, gap) && Unplaced(a, index, d)
    requires (if Compressed(d.flags) then d.compressedSize else d.expandedSize) % 0x1_0000_0000 != 0
    ensures SaveOutcome(a, index, d, d.flags, d.volume, gap, inflate) == None
    ensures RawOutcome(a, index, d, d.flags, d.volume, gap) == None
  {
    FlagsInNumbers(d.flags);
    hide Following, Begin, IsObfuscated, IsSplit, IsInvalid, Unplaced, NoPlace, IsCompressed;
    UnplacedBegins(a, index, d, gap);
  }

  /** An old save goes on from there with the first volume, wherever it was. */
  lemma UnplacedOld(a: Archive, index: nat, d: Descriptor, parts: seq<Part>, contents: seq<byte>, gap: nat,
                    external: Option<seq<byte>>, inflate: OldInflater)
    requires Missing(a, gap) && Unplaced(a, index, d) && parts != [] && AreIn(a, index, d.flags, 1, parts)
    requires !Compressed(d.flags) && Together(parts) == Stored(d.flags, contents, 0)
    requires |contents| == d.expandedSize < 0x1_0000_0000
    ensures OldOutcome(a, index, d, d.flags, d.volume, gap, external, inflate) == Some(contents)
  {
    var f := d.flags;
    FlagsInNumbers(f);
    UnplacedBegins(a, index, d, gap);
    hide Following, Begin, OldBegin, OldSaved, IsObfuscated, IsCompressed, IsSplit, IsInvalid, Unplaced, NoPlace, AreIn;
    hide InPieces, Together, Stored, Compressed, PlainStream, Sound;
    OldBeginInside(a, index, d, f, d.volume, gap, external);
    PartsFollow(a, index, d, f, f, 1, parts);
    var es := Following(a, index, d, f, 1);
    var s, t := Source([Extent([], 0, f)] + es, 0), Source(es, 0);
    EmptyInFront(s, t, IsObfuscated(f), parts);
    StoredBack(t, f, IsObfuscated(f), parts, contents);
    SmallRemainder(|contents|);
    SmallRemainder64(|contents|);
    OldCopies(s, IsObfuscated(f), |contents|, inflate);
    FrontOf(contents, PlainStream(s, IsObfuscated(f)));
  }

  lemma EmptyInFront(s: Source, t: Source, obfuscated: bool, parts: seq<Part>)
    requires InPieces(t.pieces, parts) && parts != [] && s.seed == t.seed
    requires exists f: flags :: s.pieces == [Extent([], 0, f)] + t.pieces
    ensures PlainStream(s, obfuscated) == PlainStream(t, obfuscated)
  {
    assert s.pieces[1..] == t.pieces;
    assert [] + Stream(t.pieces) == Stream(t.pieces);
    hide Obfuscation.Plain;
  }
}
