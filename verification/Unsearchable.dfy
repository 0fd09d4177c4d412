/**
 Pieces of old data for which the search for the marker reads on behind them (lib/file.c).
 */
module Unsearchable {
  import opened Bytes
  import opened Cabinet
  import opened OldChunks
  import opened Search
  import opened Unpacking
  import opened Reader
  import opened OldSaves

  /** The flags of a file that is compressed, and neither obfuscated nor split. */
  const COMPRESSED: flags := 4

  lemma CompressedOnly()
    ensures IsCompressed(COMPRESSED) && !IsSplit(COMPRESSED) && !IsObfuscated(COMPRESSED) && !IsInvalid(COMPRESSED)
  {
  }

  /** A cabinet of version 6 with one file in one volume: the 84 bytes of its headers, and one piece. */
  function OneVolume(header: VolumeHeader, head: seq<byte>, piece: seq<byte>): Archive {
    Archive(6, 1, map[1 := Volume(header, head + piece)])
  }

  function FileInOne(piece: seq<byte>, size: uint32): Descriptor
    requires |piece| < 0x1_0000_0000
  {
    Descriptor(COMPRESSED, size, |piece|, 84, [], 1, 0, 0)
  }

  /** What there is to read of that file. */
  lemma OneVolumeBegins(header: VolumeHeader, head: seq<byte>, piece: seq<byte>, size: uint32)
    requires |head| == 84 && 0 < |piece| < 0x1_0000_0000
    ensures
      var a, d := OneVolume(header, head, piece), FileInOne(piece, size);
      && Missing(a, 0)
      && OldBegin(a, 0, d, COMPRESSED, 1, 0, None)
         == Some((Source([Extent(piece, |piece|, COMPRESSED)], 0), COMPRESSED))
  {
    CompressedOnly();
    var a, d := OneVolume(header, head, piece), FileInOne(piece, size);
    StartStep(a, 0, d, COMPRESSED, 1, AT_REST, 0);
    SmallRemainder(|piece|);
    hide IsInvalid, IsSplit, IsCompressed, Start, SizeInVolume;
    var all := head + piece;
    assert all[84..84 + |piece|] == piece;
    assert SizeInVolume(d, COMPRESSED) == |piece| by {
      assert d.compressedSize == |piece|;
      PieceSize(d);
    }
    assert Following(a, 0, d, COMPRESSED, 2) == [];
    var e := Extent(piece, |piece|, COMPRESSED);
    assert [e] + [] == [e];
  }

  lemma PieceSize(d: Descriptor)
    requires d.compressedSize < 0x1_0000_0000
    ensures SizeInVolume(d, COMPRESSED) == d.compressedSize
  {
    CompressedOnly();
    SmallRemainder(d.compressedSize);
    hide IsCompressed;
  }

  /** One piece is read at once, and nothing comes behind it. */
  lemma OnePieceReadable(piece: seq<byte>, left: uint32, inflate: OldInflater)
    requires piece != []
    ensures
      var s := Source([Extent(piece, |piece|, COMPRESSED)], 0);
      Sound(s) && (Readable(s, false, true, left, inflate) <==> Searchable(piece, left, inflate))
  {
    var e := Extent(piece, |piece|, COMPRESSED);
    var s, t := Source([e], 0), Source([Extent([], 0, COMPRESSED)], 0);
    assert piece[..|piece|] == piece && piece[|piece|..] == [];
    assert [Extent([], 0, COMPRESSED)] + [e][1..] == t.pieces;
    assert Take(s, false, |piece|) == Some((piece, t));
    hide Searchable, Unpacked, Take;
    assert OldRead(s, false, true, left) == Some((piece, t));
    assert t.pieces[1..] == [];
    NothingReadable(t, inflate);
    hide OldRead;
  }

  /** At the end of the last piece there is nothing more to search. */
  lemma NothingReadable(t: Source, inflate: OldInflater)
    requires Sound(t) && t.pieces != [] && t.pieces[0].left == 0 && t.pieces[1..] == []
    ensures forall left: uint32 :: Readable(t, false, true, left, inflate)
  {
    NotReady(Reopened(t));
    forall left: uint32
      ensures Readable(t, false, true, left, inflate)
    {
      NothingToRead(Reopened(t), false, true, left);
    }
  }

  /** An old save of that file reads nothing but the piece exactly when the searches in the piece do not. */
  lemma OneVolumeReadable(header: VolumeHeader, head: seq<byte>, piece: seq<byte>, size: uint32, inflate: OldInflater)
    requires |head| == 84 && 0 < |piece| < 0x1_0000_0000
    ensures
      var a, d := OneVolume(header, head, piece), FileInOne(piece, size);
      && Missing(a, 0)
      && (OldReadable(a, 0, d, COMPRESSED, 1, 0, None, inflate) <==> Searchable(piece, size, inflate))
  {
    CompressedOnly();
    OneVolumeBegins(header, head, piece, size);
    OnePieceReadable(piece, size, inflate);
    SmallRemainder(size);
    hide OldBegin, IsCompressed, IsObfuscated, Readable, Searchable, OneVolume;
  }

  /** For a piece without the marker, in which a zero byte comes behind another byte where the marker would
      still have room, the first search reads on, whatever is inflated. */
  lemma SearchLeavesPiece(header: VolumeHeader, head: seq<byte>, piece: seq<byte>, size: uint32, inflate: OldInflater)
    requires |head| == 84 && |piece| < 0x1_0000_0000 && size != 0
    requires !Occurs(piece, END_OF_CHUNK) && !Orderly(piece, END_OF_CHUNK)
    ensures
      var a, d := OneVolume(header, head, piece), FileInOne(piece, size);
      && Missing(a, 0) && !OldReadable(a, 0, d, COMPRESSED, 1, 0, None, inflate)
  {
    StaysExactly(piece, END_OF_CHUNK);
    assert piece[0..] == piece;
    OneVolumeReadable(header, head, piece, size, inflate);
    hide OldReadable, Occurs, Orderly, StaysInside, OneVolume;
  }

  /** There are such pieces. */
  lemma FiveBytesLeave(header: VolumeHeader, head: seq<byte>, inflate: OldInflater)
    requires |head| == 84
    ensures
      var a, d := OneVolume(header, head, [1, 0, 1, 1, 1]), FileInOne([1, 0, 1, 1, 1], 1);
      && Missing(a, 0) && !OldReadable(a, 0, d, COMPRESSED, 1, 0, None, inflate)
  {
    var piece: seq<byte> := [1, 0, 1, 1, 1];
    assert piece[0..] == piece;
    forall at: nat
      ensures !OccursAt(piece, END_OF_CHUNK, at)
    {
      OccursIsMarker(piece, 0, at);
    }
    assert piece[0] != 0 && piece[1] == 0;
    SearchLeavesPiece(header, head, piece, 1, inflate);
  }
}
