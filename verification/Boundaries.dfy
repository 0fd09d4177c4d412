/**
 Where the ends of volumes make a save fail: exactly when the loops of `unshield_file_save` and
 `unshield_file_save_raw` succeed, for a file in any number of volumes (lib/file.c).
 */
module Boundaries {
  import opened Bytes
  import opened Cabinet
  import opened SaveLoops
  import opened Reader
  import opened Outcomes
  import Md5
  import OldSaves
  import Unpacking

  // ----- Where a read may start -----

  /** `n` bytes on, the end of a piece is reached, or of all of them. A read that starts there fails. */
  predicate PieceEnd(es: seq<Extent>, n: nat) {
    es == [] || n == es[0].left || (n > es[0].left && PieceEnd(es[1..], n - es[0].left))
  }

  /** What a read leaves ends where the pieces end that it was made from. */
  lemma {:induction false} DeliverEnds(es: seq<Extent>, n: nat, m: nat)
    requires AllWellFormed(es) && Deliver(es, n).Some?
    ensures PieceEnd(Deliver(es, n).value.1, m) <==> PieceEnd(es, n + m)
  {
    var e := es[0];
    if n <= e.left {
      var es' := [Extent(e.data[n..], e.left - n, e.flags)] + es[1..];
      assert es'[1..] == es[1..];
    } else {
      DeliverEnds(es[1..], n - e.left, m);
    }
  }

  lemma TakeEnds(s: Source, obfuscated: bool, n: nat, m: nat)
    requires Sound(s) && Take(s, obfuscated, n).Some?
    ensures PieceEnd(Take(s, obfuscated, n).value.1.pieces, m) <==> PieceEnd(s.pieces, n + m)
  {
    hide PieceEnd;
    DeliverEnds(s.pieces, n, m);
  }

  lemma ReadyHere(s: Source)
    ensures Ready(s) <==> !PieceEnd(s.pieces, 0)
  {
  }

  // ----- Copying -----

  function BufferStart(k: nat): nat {
    0x1_0000 * k
  }

  /** No buffer that is needed for `left` bytes starts at the end of a piece. */
  ghost predicate CopyFits(es: seq<Extent>, left: nat) {
    forall k :: 0 <= k && BufferStart(k) < left ==> !PieceEnd(es, BufferStart(k))
  }

  lemma CopyFitsStep(s: Source, obfuscated: bool, left: nat)
    requires Sound(s) && 0 < left && Take(s, obfuscated, Min(left, 0x1_0000)).Some?
    ensures
      var n := Min(left, 0x1_0000);
      CopyFits(s.pieces, left) <==> CopyFits(Take(s, obfuscated, n).value.1.pieces, left - n)
  {
    hide Take, PieceEnd, Sound;
    var n := Min(left, 0x1_0000);
    var s' := Take(s, obfuscated, n).value.1;
    TakeIsStream(s, obfuscated, n);
    ReadyHere(s);
    if CopyFits(s.pieces, left) {
      forall k | 0 <= k && BufferStart(k) < left - n
        ensures !PieceEnd(s'.pieces, BufferStart(k))
      {
        TakeEnds(s, obfuscated, n, BufferStart(k));
        assert BufferStart(k + 1) == n + BufferStart(k);
      }
    }
    if CopyFits(s'.pieces, left - n) {
      forall k | 0 <= k && BufferStart(k) < left
        ensures !PieceEnd(s.pieces, BufferStart(k))
      {
        if k > 0 {
          TakeEnds(s, obfuscated, n, BufferStart(k - 1));
          assert BufferStart(k) == n + BufferStart(k - 1);
        }
      }
    }
  }

  /** The copying loop succeeds exactly when the stream is long enough and no buffer starts at the end of
      a piece. */
  lemma {:induction false} CopiedExactly(s: Source, obfuscated: bool, left: nat)
    requires Sound(s)
    ensures Copied(s, obfuscated, left).Some? <==> left <= |PlainStream(s, obfuscated)| && CopyFits(s.pieces, left)
    decreases left
  {
    hide Take, PlainStream, Sound, PieceEnd, CopyFits;
    if left == 0 {
      NothingToFit(s.pieces);
    } else {
      var n := Min(left, 0x1_0000);
      TakeIsStream(s, obfuscated, n);
      if Take(s, obfuscated, n).Some? {
        CopyFitsStep(s, obfuscated, left);
        CopiedExactly(Take(s, obfuscated, n).value.1, obfuscated, left - n);
      } else {
        FitsAtFirst(s, left);
      }
    }
  }

  lemma NothingToFit(es: seq<Extent>)
    ensures CopyFits(es, 0)
  {
  }

  lemma FitsAtFirst(s: Source, left: nat)
    requires 0 < left
    ensures CopyFits(s.pieces, left) ==> Ready(s)
  {
    hide PieceEnd;
    ReadyHere(s);
    assert BufferStart(0) == 0;
  }

  /** 64 KiB in one piece and more in the next. */
  lemma FullBufferStops(first: Extent, second: Extent, seed: uint32, obfuscated: bool, inflate: Unpacking.OldInflater)
    requires |first.data| == first.left == 0x1_0000 && 0 < |second.data| == second.left < 0x1_0000
    ensures
      var s := Source([first, second], seed);
      var left := 0x1_0000 + second.left;
      && left == |PlainStream(s, obfuscated)|
      && Copied(s, obfuscated, left) == None
      && OldSaves.OldSaved(s, obfuscated, false, left, inflate) == Some(PlainStream(s, obfuscated))
  {
    var s := Source([first, second], seed);
    var left := 0x1_0000 + second.left;
    assert s.pieces[1..] == [second];
    assert Stream([second]) == second.data;
    assert Stream(s.pieces) == first.data + second.data;
    assert PieceEnd(s.pieces, BufferStart(1));
    hide Stream, PieceEnd, PlainStream;
    CopiedExactly(s, obfuscated, left);
    OldSaves.OldCopies(s, obfuscated, left, inflate);
    assert PlainStream(s, obfuscated)[..left] == PlainStream(s, obfuscated);
  }

  // ----- Frames -----

  /** Counted down by the frames, the counter comes to zero behind the last of them and not before, and
      no length and no payload starts at the end of a piece. */
  predicate FramesFit(fs: seq<Frame>, es: seq<Extent>, at: nat, left: uint32) {
    if fs == [] then left == 0
    else
      var n := |fs[0].payload|;
      && left != 0
      && !PieceEnd(es, at) && !PieceEnd(es, at + 2)
      && FramesFit(fs[1..], es, at + 2 + n, Minus32(Minus32(left, 2), n))
  }

  lemma {:induction false} FramesFitBehind(fs: seq<Frame>, s: Source, obfuscated: bool, n: nat, at: nat, left: uint32)
    requires Sound(s) && Take(s, obfuscated, n).Some?
    ensures FramesFit(fs, Take(s, obfuscated, n).value.1.pieces, at, left) <==> FramesFit(fs, s.pieces, n + at, left)
    decreases |fs|
  {
    hide Take, PieceEnd, Sound, Minus32;
    if fs != [] {
      var k := |fs[0].payload|;
      TakeEnds(s, obfuscated, n, at);
      TakeEnds(s, obfuscated, n, at + 2);
      FramesFitBehind(fs[1..], s, obfuscated, n, at + 2 + k, Minus32(Minus32(left, 2), k));
    }
  }

  /** Where the frame `f` is in front and no volume ends at either of its starts, it is what a round of
      the loop reads. */
  lemma FrameRead(s: Source, obfuscated: bool, f: Frame, rest: seq<byte>) returns (s1: Source, s2: Source)
    requires Sound(s) && ValidFrame(f) && PlainStream(s, obfuscated) == f.length + f.payload + rest
    requires !PieceEnd(s.pieces, 0) && !PieceEnd(s.pieces, 2)
    ensures Take(s, obfuscated, 2) == Some((f.length, s1)) && Sound(s1)
    ensures Take(s1, obfuscated, |f.payload|) == Some((f.payload, s2)) && Sound(s2)
    ensures PlainStream(s2, obfuscated) == rest
  {
    hide Take, PieceEnd, PlainStream, Sound, Ready, ReadUint16;
    var stream := PlainStream(s, obfuscated);
    ReadyHere(s);
    TakeIsStream(s, obfuscated, 2);
    assert stream[..2] == f.length && stream[2..] == f.payload + rest;
    s1 := Take(s, obfuscated, 2).value.1;
    TakeEnds(s, obfuscated, 2, 0);
    ReadyHere(s1);
    TakeIsStream(s1, obfuscated, |f.payload|);
    s2 := Take(s1, obfuscated, |f.payload|).value.1;
  }

  /** One round forward: what the loop reads is the frame in front, from starts where no piece ends. */
  lemma FrameReads(s: Source, obfuscated: bool, left: uint32, inflate: Inflater)
    returns (f: Frame, s1: Source, s2: Source)
    requires Sound(s) && left != 0 && Frames(s, obfuscated, left, inflate).Some?
    ensures Take(s, obfuscated, 2) == Some((f.length, s1)) && Sound(s1)
    ensures Take(s1, obfuscated, |f.payload|) == Some((f.payload, s2)) && Sound(s2)
    ensures ValidFrame(f) && inflate(f.payload + [0]).Some?
    ensures PlainStream(s, obfuscated) == f.length + f.payload + PlainStream(s2, obfuscated)
    ensures !PieceEnd(s.pieces, 0) && !PieceEnd(s.pieces, 2)
    ensures
      var more := Frames(s2, obfuscated, Minus32(Minus32(left, 2), |f.payload|), inflate);
      more.Some? && Frames(s, obfuscated, left, inflate) == Some([f] + more.value)
  {
    hide Take, PieceEnd, PlainStream, Sound, Ready, ReadUint16, ValidFrame;
    ReadyHere(s);
    TakeIsStream(s, obfuscated, 2);
    var length: seq<byte>;
    length, s1 := Take(s, obfuscated, 2).value.0, Take(s, obfuscated, 2).value.1;
    var n := ReadUint16(length);
    TakeEnds(s, obfuscated, 2, 0);
    ReadyHere(s1);
    TakeIsStream(s1, obfuscated, n);
    f, s2 := Frame(length, Take(s1, obfuscated, n).value.0), Take(s1, obfuscated, n).value.1;
    LengthRead(f);
    var stream := PlainStream(s, obfuscated);
    assert stream == stream[..2] + (stream[2..][..n] + stream[2..][n..]);
  }

  lemma FramesFitOn(fs: seq<Frame>, s: Source, obfuscated: bool, s1: Source, n: nat, s2: Source, left: uint32)
    requires Sound(s) && Take(s, obfuscated, 2).Some? && Take(s, obfuscated, 2).value.1 == s1
    requires Sound(s1) && Take(s1, obfuscated, n).Some? && Take(s1, obfuscated, n).value.1 == s2
    ensures FramesFit(fs, s2.pieces, 0, left) <==> FramesFit(fs, s.pieces, 0 + 2 + n, left)
  {
    hide Take, Sound, FramesFit;
    FramesFitBehind(fs, s1, obfuscated, n, 0, left);
    FramesFitBehind(fs, s, obfuscated, 2, n, left);
  }

  lemma {:induction false} FramesFitRead(s: Source, obfuscated: bool, left: uint32, inflate: Inflater, fs: seq<Frame>)
    requires Sound(s) && Frames(s, obfuscated, left, inflate) == Some(fs)
    ensures FramesFit(fs, s.pieces, 0, left)
    decreases |PlainStream(s, obfuscated)|
  {
    hide Take, PieceEnd, PlainStream, Sound, ReadUint16, Minus32, Frames;
    if left == 0 {
      NoFrames(s, obfuscated, inflate);
    } else {
      var f, s1, s2 := FrameReads(s, obfuscated, left, inflate);
      var n := |f.payload|;
      var left2 := Minus32(Minus32(left, 2), n);
      var rest := Frames(s2, obfuscated, left2, inflate).value;
      FramesFitRead(s2, obfuscated, left2, inflate, rest);
      FramesFitOn(rest, s, obfuscated, s1, n, s2, left2);
      assert fs[1..] == rest;
    }
  }

  lemma {:induction false} FramesAreRead(s: Source, obfuscated: bool, left: uint32, inflate: Inflater, fs: seq<Frame>)
    requires Sound(s) && ValidFrames(fs, inflate) && Joined(fs) <= PlainStream(s, obfuscated)
    requires FramesFit(fs, s.pieces, 0, left)
    ensures Frames(s, obfuscated, left, inflate) == Some(fs)
    decreases |fs|
  {
    if fs == [] {
      NoFrames(s, obfuscated, inflate);
    } else {
      hide Take, PieceEnd, PlainStream, Sound, Minus32;
      var f, stream := fs[0], PlainStream(s, obfuscated);
      var n := |f.payload|;
      var left2 := Minus32(Minus32(left, 2), n);
      var rest := stream[2 + n..];
      FrontFrame(fs, stream);
      assert ValidFrame(f) && ValidFrames(fs[1..], inflate);
      hide ReadUint16, Joined, Frames;
      var s1, s2 := FrameRead(s, obfuscated, f, rest);
      FramesFitOn(fs[1..], s, obfuscated, s1, n, s2, left2);
      FramesAreRead(s2, obfuscated, left2, inflate, fs[1..]);
      FramesByRound(s, obfuscated, left, inflate, f, s1, s2);
      assert fs == [f] + fs[1..];
    }
  }

  /** One round of the framing loop that succeeds. */
  lemma FramesByRound(s: Source, obfuscated: bool, left: uint32, inflate: Inflater, f: Frame, s1: Source, s2: Source)
    requires Sound(s) && left != 0 && ValidFrame(f) && inflate(f.payload + [0]).Some?
    requires Take(s, obfuscated, 2) == Some((f.length, s1)) && Sound(s1)
    requires Take(s1, obfuscated, |f.payload|) == Some((f.payload, s2)) && Sound(s2)
    ensures
      var more := Frames(s2, obfuscated, Minus32(Minus32(left, 2), |f.payload|), inflate);
      Frames(s, obfuscated, left, inflate) == if more.Some? then Some([f] + more.value) else None
  {
    LengthRead(f);
    hide Take, PlainStream, Sound, Minus32, ReadUint16, ValidFrame;
  }

  /** The framing loop reads the frames `fs` exactly when they are valid, make up the front of the stream,
      and fit. */
  lemma FramesExactly(s: Source, obfuscated: bool, left: uint32, inflate: Inflater, fs: seq<Frame>)
    requires Sound(s)
    ensures Frames(s, obfuscated, left, inflate) == Some(fs)
       <==> && ValidFrames(fs, inflate) && Joined(fs) <= PlainStream(s, obfuscated)
            && FramesFit(fs, s.pieces, 0, left)
  {
    hide Frames, PlainStream, Sound, ValidFrames, FramesFit, Joined;
    if Frames(s, obfuscated, left, inflate) == Some(fs) {
      FramesAreStream(s, obfuscated, left, inflate);
      FramesFitRead(s, obfuscated, left, inflate, fs);
    } else if ValidFrames(fs, inflate) && Joined(fs) <= PlainStream(s, obfuscated) && FramesFit(fs, s.pieces, 0, left) {
      FramesAreRead(s, obfuscated, left, inflate, fs);
    }
  }

  // ----- Saves -----

  /** What is in the pieces makes a save write `output`. */
  ghost predicate Saves(s: Source, obfuscated: bool, compressed: bool, left: uint32, inflate: Inflater,
                        output: seq<byte>)
  {
    var stream := PlainStream(s, obfuscated);
    if compressed then
      exists fs ::
        && ValidFrames(fs, inflate) && Joined(fs) <= stream && FramesFit(fs, s.pieces, 0, left)
        && output == SaveLoops.Inflated(fs, inflate)
    else
      left <= |stream| && CopyFits(s.pieces, left) && output == stream[..left]
  }

  lemma SavedExactly(s: Source, obfuscated: bool, compressed: bool, left: uint32, inflate: Inflater, output: seq<byte>)
    requires Sound(s)
    ensures Saved(s, obfuscated, compressed, left, inflate) == Some(output)
       <==> Saves(s, obfuscated, compressed, left, inflate, output)
  {
    hide Frames, PlainStream, Sound, ValidFrames, FramesFit, Joined, Copied, CopyFits;
    if compressed {
      if Saved(s, obfuscated, compressed, left, inflate) == Some(output) {
        FramesExactly(s, obfuscated, left, inflate, Frames(s, obfuscated, left, inflate).value);
      }
      if Saves(s, obfuscated, compressed, left, inflate, output) {
        var fs :|
          && ValidFrames(fs, inflate) && Joined(fs) <= PlainStream(s, obfuscated)
          && FramesFit(fs, s.pieces, 0, left) && output == SaveLoops.Inflated(fs, inflate);
        FramesExactly(s, obfuscated, left, inflate, fs);
      }
    } else {
      CopiedExactly(s, obfuscated, left);
      if Copied(s, obfuscated, left).Some? {
        CopiedIsStream(s, obfuscated, left);
      }
    }
  }

  /** `unshield_file_save` of a file that is not linked writes `output` and succeeds exactly when the
      reader finds the file, its pieces hold that output without a boundary where a read starts, and the
      size and the digest are right. */
  lemma SaveExactly(a: Archive, index: nat, d: Descriptor, f: flags, v: uint16, gap: nat, inflate: Inflater,
                    output: seq<byte>)
    requires Missing(a, gap)
    ensures SaveOutcome(a, index, d, f, v, gap, inflate) == Some(output)
       <==> && Checks(a.majorVersion, d, output)
            && match Begin(a, index, d, f, v, gap)
               case None => false
               case Some((s, f')) =>
                 Saves(s, IsObfuscated(f'), IsCompressed(f'), SizeInVolume(d, f'), inflate, output)
  {
    hide Begin, Checks, Saved, Saves, IsObfuscated, IsCompressed, SizeInVolume;
    if Begin(a, index, d, f, v, gap).Some? {
      var (s, f') := Begin(a, index, d, f, v, gap).value;
      SavedExactly(s, IsObfuscated(f'), IsCompressed(f'), SizeInVolume(d, f'), inflate, output);
    }
  }

  /** The same for `unshield_file_save_raw`, which checks nothing. */
  lemma RawExactly(a: Archive, index: nat, d: Descriptor, f: flags, v: uint16, gap: nat, output: seq<byte>)
    requires Missing(a, gap)
    ensures RawOutcome(a, index, d, f, v, gap) == Some(output)
       <==> match Begin(a, index, d, f, v, gap)
            case None => false
            case Some((s, f')) =>
              var stream, left := PlainStream(s, IsObfuscated(f')), SizeInVolume(d, f');
              left <= |stream| && CopyFits(s.pieces, left) && output == stream[..left]
  {
    hide Begin, Copied, CopyFits, PlainStream, IsObfuscated, IsCompressed, SizeInVolume;
    if Begin(a, index, d, f, v, gap).Some? {
      var (s, f') := Begin(a, index, d, f, v, gap).value;
      CopiedExactly(s, IsObfuscated(f'), SizeInVolume(d, f'));
      if Copied(s, IsObfuscated(f'), SizeInVolume(d, f')).Some? {
        CopiedIsStream(s, IsObfuscated(f'), SizeInVolume(d, f'));
      }
    }
  }

  /** An uncompressed file that `unshield_file_save` writes, `unshield_file_save_old` writes as well. */
  lemma SaveThenOld(a: Archive, index: nat, d: Descriptor, f: flags, v: uint16, gap: nat, external: Option<seq<byte>>,
                    inflate: Inflater, output: seq<byte>)
    requires Missing(a, gap) && !IsCompressed(f) && SaveOutcome(a, index, d, f, v, gap, inflate) == Some(output)
    ensures OldSaves.OldReadable(a, index, d, f, v, gap, external, inflate)
    ensures OldSaves.OldOutcome(a, index, d, f, v, gap, external, inflate) == Some(output)
  {
    hide IsObfuscated, IsCompressed, IsInvalid, Start, Evolves, PlainStream, Copied, Md5.Digest, OldSaves.OldBegin;
    hide OldSaves.OldSaved, PiecesFrom;
    StartEvolves(a, index, d, f, v, AT_REST, gap);
    var (s, f') := Begin(a, index, d, f, v, gap).value;
    EvolvedFlags(f, f');
    OldSaves.OldBeginInside(a, index, d, f, v, gap, external);
    var left := SizeInVolume(d, f');
    CopiedIsStream(s, IsObfuscated(f'), left);
    OldSaves.OldCopies(s, IsObfuscated(f'), left, inflate);
  }

  // ----- A cabinet that is lost -----

  /** The flags of a file that is split, and neither obfuscated nor compressed. */
  const SPLIT: flags := 1

  lemma SplitOnly()
    ensures IsSplit(SPLIT) && !IsObfuscated(SPLIT) && !IsCompressed(SPLIT) && !IsInvalid(SPLIT)
  {
  }

  /** The headers of a volume that has `n` bytes of file 0 behind them, and nothing else. */
  function HeaderOf(n: uint32): VolumeHeader {
    VolumeHeader(0, 0, 84, n, 0, 84, n, 0)
  }

  /** A volume of version 6, with whatever 84 bytes its headers were read from. */
  function VolumeOf(head: seq<byte>, bytes: seq<byte>): Volume
    requires |bytes| < 0x1_0000_0000
  {
    Volume(HeaderOf(|bytes|), head + bytes)
  }

  /** A cabinet of version 6 with one file, in two volumes. */
  function TwoVolumes(head1: seq<byte>, first: seq<byte>, head2: seq<byte>, second: seq<byte>): Archive
    requires |first| < 0x1_0000_0000 && |second| < 0x1_0000_0000
  {
    Archive(6, 1, map[1 := VolumeOf(head1, first), 2 := VolumeOf(head2, second)])
  }

  /** The descriptor of that file, with the right size and the right digest. */
  function FileInTwo(first: seq<byte>, second: seq<byte>): Descriptor
    requires |first| + |second| < 0x1_0000_0000
  {
    Descriptor(SPLIT, |first| + |second|, 0, 84, Md5.Digest(first + second), 1, 0, 0)
  }

  ghost predicate IsVolumeOf(volume: Volume, bytes: seq<byte>)
    requires |bytes| < 0x1_0000_0000
  {
    volume.header == HeaderOf(|bytes|) && |volume.bytes| == 84 + |bytes| && volume.bytes[84..] == bytes
  }

  lemma VolumeHas(a: Archive, d: Descriptor, v: int, bytes: seq<byte>)
    requires a.majorVersion == 6 && v in a.volumes && |bytes| < 0x1_0000_0000 && IsVolumeOf(a.volumes[v], bytes)
    ensures ReadHeader(a, v) == HeaderOf(|bytes|) && FlagsAfter(a, 0, d, SPLIT, HeaderOf(|bytes|)) == SPLIT
    ensures Locate(0, d, SPLIT, HeaderOf(|bytes|)) == Place(84, |bytes|)
    ensures ExtentAt(a.volumes[v].bytes, 84, |bytes|, SPLIT) == Extent(bytes, |bytes|, SPLIT)
  {
    SplitOnly();
    hide IsSplit, IsCompressed;
    var all := a.volumes[v].bytes;
    assert all[84..84 + |bytes|] == all[84..];
  }

  ghost predicate HasTwo(a: Archive, first: seq<byte>, second: seq<byte>)
    requires |first| < 0x1_0000_0000 && |second| < 0x1_0000_0000
  {
    && a.majorVersion == 6 && 0 !in a.volumes && 3 !in a.volumes && 1 in a.volumes && 2 in a.volumes
    && IsVolumeOf(a.volumes[1], first) && IsVolumeOf(a.volumes[2], second)
  }

  lemma TwoVolumesAre(head1: seq<byte>, first: seq<byte>, head2: seq<byte>, second: seq<byte>)
    requires |head1| == |head2| == 84 && |first| < 0x1_0000_0000 && |second| < 0x1_0000_0000
    ensures HasTwo(TwoVolumes(head1, first, head2, second), first, second)
  {
    IsVolume(head1, first);
    IsVolume(head2, second);
    hide VolumeOf, IsVolumeOf;
  }

  lemma IsVolume(head: seq<byte>, bytes: seq<byte>)
    requires |head| == 84 && |bytes| < 0x1_0000_0000
    ensures IsVolumeOf(VolumeOf(head, bytes), bytes)
  {
  }

  lemma TwoVolumesFollow(a: Archive, d: Descriptor, first: seq<byte>, second: seq<byte>)
    requires |first| < 0x1_0000_0000 && |second| < 0x1_0000_0000 && HasTwo(a, first, second)
    ensures Following(a, 0, d, SPLIT, 2) == [Extent(second, |second|, SPLIT)]
  {
    hide IsVolumeOf, HeaderOf;
    VolumeHas(a, d, 2, second);
    hide FlagsAfter, ReadHeader, Locate, ExtentAt, HasTwo;
    NothingFollows(a, d, 3);
    OneFollows(a, d, 2, Extent(second, |second|, SPLIT));
  }

  lemma NothingFollows(a: Archive, d: Descriptor, v: int)
    requires v !in a.volumes
    ensures Following(a, 0, d, SPLIT, v) == []
  {
  }

  lemma OneFollows(a: Archive, d: Descriptor, v: int, e: Extent)
    requires v in a.volumes && Following(a, 0, d, SPLIT, v + 1) == []
    requires
      var h := ReadHeader(a, v);
      && FlagsAfter(a, 0, d, SPLIT, h) == SPLIT
      && match Locate(0, d, SPLIT, h)
         case Nowhere => false
         case Place(offset, left) => ExtentAt(a.volumes[v].bytes, offset, left, SPLIT) == e
    ensures Following(a, 0, d, SPLIT, v) == [e]
  {
    hide FlagsAfter, ReadHeader, Locate, ExtentAt;
    assert [e] + [] == [e];
  }

  lemma TwoVolumesStart(a: Archive, d: Descriptor, first: seq<byte>, second: seq<byte>)
    requires |first| < 0x1_0000_0000 && |second| < 0x1_0000_0000 && HasTwo(a, first, second)
    ensures Missing(a, 0)
    ensures
      var c := Cursor(1, a.volumes[1].bytes, 84, HeaderOf(|first|), |first|);
      && Start(a, 0, d, SPLIT, 1, AT_REST, 0) == Some((SPLIT, 1, c))
      && ExtentAt(c.data, c.pos, c.left, SPLIT) == Extent(first, |first|, SPLIT)
  {
    hide IsVolumeOf, HeaderOf, Start;
    VolumeHas(a, d, 1, first);
    StartStep(a, 0, d, SPLIT, 1, AT_REST, 0);
    hide FlagsAfter, ReadHeader, Locate, ExtentAt;
  }

  lemma TwoVolumesBegin(a: Archive, d: Descriptor, first: seq<byte>, second: seq<byte>)
    requires |first| < 0x1_0000_0000 && |second| < 0x1_0000_0000 && HasTwo(a, first, second)
    requires first != [] && d.dataOffset == 84
    ensures
      && Missing(a, 0)
      && Begin(a, 0, d, SPLIT, 1, 0)
         == Some((Source([Extent(first, |first|, SPLIT), Extent(second, |second|, SPLIT)], 0), SPLIT))
  {
    SplitOnly();
    assert |a.volumes[1].bytes| == 84 + |first|;
    hide IsInvalid, ExtentAt, Start, HeaderOf, IsVolumeOf, Following;
    TwoVolumesStart(a, d, first, second);
    TwoVolumesFollow(a, d, first, second);
    var e, g := Extent(first, |first|, SPLIT), Extent(second, |second|, SPLIT);
    assert [e] + [g] == [e, g];
  }

  lemma SizeOfTwo(first: seq<byte>, second: seq<byte>)
    requires |first| + |second| < 0x1_0000_0000
    ensures
      var d, n := FileInTwo(first, second), |first| + |second|;
      && SizeInVolume(d, SPLIT) == n && d.expandedSize % 0x1_0000_0000 == n && Checks(6, d, first + second)
      && |first + second| % 0x1_0000_0000_0000_0000 == d.expandedSize
  {
    hide Md5.Digest, IsCompressed;
    SplitOnly();
    SmallRemainder(|first| + |second|);
    assert |first + second| == |first| + |second|;
  }

  /** Where the copying loop fails on an uncompressed file, saves do. */
  lemma NotCopied(a: Archive, d: Descriptor, s: Source)
    requires Missing(a, 0) && Begin(a, 0, d, SPLIT, 1, 0) == Some((s, SPLIT))
    requires Copied(s, false, SizeInVolume(d, SPLIT)) == None
    ensures forall inflate: Inflater :: SaveOutcome(a, 0, d, SPLIT, 1, 0, inflate) == None
    ensures RawOutcome(a, 0, d, SPLIT, 1, 0) == None
  {
    SplitOnly();
    hide Begin, Copied, IsObfuscated, IsCompressed, SizeInVolume, Checks;
  }

  /** A cabinet with one whole file, of the right size and digest, 64 KiB of it in the first volume and
      less in the second. `unshield_file_save` and `unshield_file_save_raw` do not save it, and
      `unshield_file_save_old` does. */
  lemma FullBufferBeforeEnd(head1: seq<byte>, first: seq<byte>, head2: seq<byte>, second: seq<byte>, inflate: Inflater,
                            oldInflate: Unpacking.OldInflater)
    requires |head1| == |head2| == 84 && |first| == 0x1_0000 && 0 < |second| < 0x1_0000
    ensures
      var a, d := TwoVolumes(head1, first, head2, second), FileInTwo(first, second);
      && Missing(a, 0) && Checks(a.majorVersion, d, first + second)
      && SaveOutcome(a, 0, d, SPLIT, 1, 0, inflate) == None
      && RawOutcome(a, 0, d, SPLIT, 1, 0) == None
      && OldSaves.OldOutcome(a, 0, d, SPLIT, 1, 0, None, oldInflate) == Some(first + second)
  {
    var a, d := TwoVolumes(head1, first, head2, second), FileInTwo(first, second);
    var e, g := Extent(first, |first|, SPLIT), Extent(second, |second|, SPLIT);
    var s := Source([e, g], 0);
    SplitOnly();
    assert d.dataOffset == 84 && a.majorVersion == 6;
    hide TwoVolumes, FileInTwo;
    TwoVolumesAre(head1, first, head2, second);
    TwoVolumesBegin(a, d, first, second);
    SizeOfTwo(first, second);
    FullBufferStops(e, g, 0, false, oldInflate);
    TwoPieces(e, g);
    hide SizeInVolume, Copied, Begin, Checks, PlainStream, OldSaves.OldSaved, IsObfuscated, IsCompressed;
    NotCopied(a, d, s);
    OldSaves.OldBeginInside(a, 0, d, SPLIT, 1, 0, None);
    hide OldSaves.OldBegin;
    OldOfBegin(a, d, s, oldInflate, first + second);
  }

  lemma OldOfBegin(a: Archive, d: Descriptor, s: Source, inflate: Unpacking.OldInflater, output: seq<byte>)
    requires Missing(a, 0) && OldSaves.OldBegin(a, 0, d, SPLIT, 1, 0, None) == Some((s, SPLIT)) && Sound(s)
    requires |output| % 0x1_0000_0000_0000_0000 == d.expandedSize
    requires OldSaves.OldSaved(s, false, false, d.expandedSize % 0x1_0000_0000, inflate) == Some(output)
    ensures OldSaves.OldOutcome(a, 0, d, SPLIT, 1, 0, None, inflate) == Some(output)
  {
    SplitOnly();
    hide OldSaves.OldBegin, OldSaves.OldSaved, IsObfuscated, IsCompressed;
  }

  lemma TwoPieces(first: Extent, second: Extent)
    requires |first.data| == first.left && 0 < second.left
    ensures PlainStream(Source([first, second], 0), false) == first.data + second.data
  {
    assert [first, second][1..] == [second];
    assert Stream([second]) == second.data;
  }
}
