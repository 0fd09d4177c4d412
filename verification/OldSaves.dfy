/**
 What the loop of `unshield_file_save_old` makes of a stream, and where that is all of the file
 (lib/file.c).
 */
module OldSaves {
  import opened Bytes
  import opened Cabinet
  import opened OldChunks
  import opened Unpacking
  import opened Reader
  import opened Outcomes
  import Obfuscation
  import SaveLoops

  // ----- The loop -----

  /** Unlike the other loops, this one goes on to the next volume before it reads where a piece is at
      its end. */
  function Reopened(s: Source): Source {
    if s.pieces != [] && s.pieces[0].left == 0 then Source(s.pieces[1..], s.seed) else s
  }

  lemma ReopenedStream(s: Source, obfuscated: bool)
    requires Sound(s)
    ensures Sound(Reopened(s))
    ensures if Ready(Reopened(s)) then PlainStream(Reopened(s), obfuscated) == PlainStream(s, obfuscated)
            else PlainStream(s, obfuscated) == []
  {
    hide Obfuscation.Plain;
    if s.pieces != [] && s.pieces[0].left == 0 {
      assert WellFormed(s.pieces[0]);
      assert s.pieces[0].data == [];
      if Ready(Reopened(s)) {
        assert Stream(s.pieces) == [] + Stream(s.pieces[1..]);
        assert Stream(s.pieces) == Stream(s.pieces[1..]);
      } else {
        assert Stream(s.pieces) == [];
      }
    }
  }

  /** What the loop reads at once: the whole piece of a compressed file, and at most a buffer of any
      other. */
  function OldRead(s: Source, obfuscated: bool, compressed: bool, left: uint32): Option<(seq<byte>, Source)> {
    if s.pieces == [] then None
    else Take(s, obfuscated, if compressed then s.pieces[0].left else Min(left, 0x1_0000))
  }

  lemma OldReadIsStream(s: Source, obfuscated: bool, compressed: bool, left: uint32)
    requires Sound(s)
    ensures OldRead(s, obfuscated, compressed, left).Some? ==>
      var (bytes, s') := OldRead(s, obfuscated, compressed, left).value;
      && Ready(s) && Sound(s') && s'.pieces != [] && bytes <= PlainStream(s, obfuscated) && bytes != []
      && PlainStream(s', obfuscated) == PlainStream(s, obfuscated)[|bytes|..]
  {
    hide Take, PlainStream, Sound, Ready;
    if s.pieces != [] {
      TakeIsStream(s, obfuscated, if compressed then s.pieces[0].left else Min(left, 0x1_0000));
    }
  }

  lemma NothingToRead(s: Source, obfuscated: bool, compressed: bool, left: uint32)
    requires !Ready(s)
    ensures OldRead(s, obfuscated, compressed, left) == None
  {
  }

  /** One round of the loop: what it writes, what it leaves of the source and of the counter. */
  ghost function OldRound(s: Source, obfuscated: bool, compressed: bool, left: uint32, inflate: OldInflater)
    : Option<(seq<byte>, Source, uint32)>
    requires Sound(s)
    ensures
      OldRound(s, obfuscated, compressed, left, inflate).Some? ==>
        var s' := OldRound(s, obfuscated, compressed, left, inflate).value.1;
        Sound(s') && s'.pieces != []
  {
    ReopenedStream(s, obfuscated);
    OldReadIsStream(Reopened(s), obfuscated, compressed, left);
    match OldRead(Reopened(s), obfuscated, compressed, left)
    case None => None
    case Some((bytes, s')) =>
      if !compressed then Some((bytes, s', Minus32(left, |bytes|)))
      else
        match Unpacked(bytes, left, inflate)
        case None => None
        case Some(p) => Some((p.output, s', p.left))
  }

  lemma OldRoundShrinks(s: Source, obfuscated: bool, compressed: bool, left: uint32, inflate: OldInflater)
    requires Sound(s) && OldRound(s, obfuscated, compressed, left, inflate).Some?
    ensures |PlainStream(OldRound(s, obfuscated, compressed, left, inflate).value.1, obfuscated)|
          < |PlainStream(s, obfuscated)|
  {
    hide OldRead, PlainStream, Sound, Ready, Reopened, Unpacked;
    ReopenedStream(s, obfuscated);
    OldReadIsStream(Reopened(s), obfuscated, compressed, left);
  }

  /** What the whole loop writes. */
  ghost function OldSaved(s: Source, obfuscated: bool, compressed: bool, left: uint32, inflate: OldInflater)
    : Option<seq<byte>>
    requires Sound(s)
    decreases |PlainStream(s, obfuscated)|
  {
    if left == 0 then Some([])
    else
      match OldRound(s, obfuscated, compressed, left, inflate)
      case None => None
      case Some((bytes, s', left')) =>
        OldRoundShrinks(s, obfuscated, compressed, left, inflate);
        Prefixed(bytes, OldSaved(s', obfuscated, compressed, left', inflate))
  }

  /** Every search for the end of a chunk that the loop makes in a piece reads only bytes of that piece.
      Where one reads on, it meets whatever the buffer held before. */
  ghost predicate Readable(s: Source, obfuscated: bool, compressed: bool, left: uint32, inflate: OldInflater)
    requires Sound(s)
    decreases |PlainStream(s, obfuscated)|
  {
    compressed && left != 0 ==>
      && (var piece := OldRead(Reopened(s), obfuscated, true, left);
          piece.Some? ==> Searchable(piece.value.0, left, inflate))
      && match OldRound(s, obfuscated, compressed, left, inflate)
         case None => true
         case Some((bytes, s', left')) =>
           OldRoundShrinks(s, obfuscated, compressed, left, inflate);
           Readable(s', obfuscated, compressed, left', inflate)
  }

  // ----- What the loop delivers -----

  lemma OldCopyRound(s: Source, obfuscated: bool, left: uint32, inflate: OldInflater)
    requires Sound(s) && left != 0
    ensures
      var n, stream := Min(left, 0x1_0000), PlainStream(s, obfuscated);
      match OldRound(s, obfuscated, false, left, inflate)
      case None => |stream| < n
      case Some((bytes, s', left')) =>
        && n <= |stream| && bytes == stream[..n] && PlainStream(s', obfuscated) == stream[n..] && left' == left - n
  {
    hide Take, PlainStream, Sound, Ready, Reopened;
    ReopenedStream(s, obfuscated);
    var s1 := Reopened(s);
    if s1.pieces != [] {
      TakeIsStream(s1, obfuscated, Min(left, 0x1_0000));
    } else {
      NotReady(s1);
    }
    Minus32Twice(left, Min(left, 0x1_0000), 0);
  }

  lemma NotReady(s: Source)
    requires s.pieces == []
    ensures !Ready(s)
  {
  }

  /** An uncompressed file is saved exactly when the stream is long enough, wherever volumes end in it. */
  lemma {:induction false} OldCopies(s: Source, obfuscated: bool, left: uint32, inflate: OldInflater)
    requires Sound(s)
    ensures OldSaved(s, obfuscated, false, left, inflate)
         == if left <= |PlainStream(s, obfuscated)| then Some(PlainStream(s, obfuscated)[..left]) else None
    decreases left
  {
    hide OldRound, PlainStream, Sound;
    if left != 0 {
      var n := Min(left, 0x1_0000);
      OldCopyRound(s, obfuscated, left, inflate);
      if OldRound(s, obfuscated, false, left, inflate).Some? {
        var s2 := OldRound(s, obfuscated, false, left, inflate).value.1;
        OldCopies(s2, obfuscated, left - n, inflate);
        var stream := PlainStream(s, obfuscated);
        if left <= |stream| {
          SaveLoops.FrontInParts(stream, n, left);
        }
      }
    }
  }

  lemma {:induction false} JoinedConcat(a: seq<seq<byte>>, b: seq<seq<byte>>)
    ensures JoinedChunks(a + b) == JoinedChunks(a) + JoinedChunks(b)
  {
    if a == [] {
      assert a + b == b;
    } else {
      assert (a + b)[1..] == a[1..] + b;
      JoinedConcat(a[1..], b);
    }
  }

  lemma {:induction false} InflatedConcat(a: seq<seq<byte>>, b: seq<seq<byte>>, inflate: OldInflater)
    ensures Inflated(a + b, inflate) == Inflated(a, inflate) + Inflated(b, inflate)
  {
    if a == [] {
      assert a + b == b;
    } else {
      assert (a + b)[1..] == a[1..] + b;
      InflatedConcat(a[1..], b, inflate);
    }
  }

  /** One round over a compressed file: the chunks that it unpacks are at the front of the stream. Where
      the counter does not come to zero, they are the whole piece. */
  lemma OldRoundChunks(s: Source, obfuscated: bool, left: uint32, inflate: OldInflater) returns (cs: seq<seq<byte>>)
    requires Sound(s) && OldRound(s, obfuscated, true, left, inflate).Some?
    ensures
      var (bytes, s', left') := OldRound(s, obfuscated, true, left, inflate).value;
      var stream := PlainStream(s, obfuscated);
      && AllInflate(cs, inflate) && bytes == Inflated(cs, inflate) && left' == Minus32(left, |bytes|)
      && JoinedChunks(cs) <= stream
      && (left' != 0 ==> stream == JoinedChunks(cs) + PlainStream(s', obfuscated))
  {
    hide OldRead, PlainStream, Sound, Ready, Reopened, Unpacked, Inflated, JoinedChunks, AllInflate, Minus32;
    ReopenedStream(s, obfuscated);
    OldReadIsStream(Reopened(s), obfuscated, true, left);
    var (piece, s2) := OldRead(Reopened(s), obfuscated, true, left).value;
    cs := UnpackedInOrder(piece, left, inflate);
  }

  lemma ChunksFurther(stream: seq<byte>, first: seq<seq<byte>>, stream': seq<byte>, rest: seq<seq<byte>>,
                      inflate: OldInflater)
    requires AllInflate(first, inflate) && AllInflate(rest, inflate)
    requires stream == JoinedChunks(first) + stream' && JoinedChunks(rest) <= stream'
    ensures AllInflate(first + rest, inflate)
    ensures Inflated(first + rest, inflate) == Inflated(first, inflate) + Inflated(rest, inflate)
    ensures JoinedChunks(first + rest) <= stream
  {
    hide AllInflate, Inflated, JoinedChunks;
    JoinedConcat(first, rest);
    InflatedConcat(first, rest, inflate);
    AllInflateConcat(first, rest, inflate);
  }

  /** When the loop ends, it has written what the chunks at the front of the stream unpack to, and their
      length is the counter modulo 2^32. */
  lemma {:induction false} OldSavedIsChunks(s: Source, obfuscated: bool, left: uint32, inflate: OldInflater)
    returns (cs: seq<seq<byte>>)
    requires Sound(s) && OldSaved(s, obfuscated, true, left, inflate).Some?
    ensures
      var output := OldSaved(s, obfuscated, true, left, inflate).value;
      && AllInflate(cs, inflate) && output == Inflated(cs, inflate)
      && JoinedChunks(cs) <= PlainStream(s, obfuscated)
      && Minus32(left, |output|) == 0
    decreases |PlainStream(s, obfuscated)|
  {
    hide OldRound, PlainStream, Sound, Minus32;
    Minus32Twice(left, 0, 0);
    if left == 0 {
      cs := [];
    } else {
      hide AllInflate, Inflated, JoinedChunks;
      var (bytes, s', left') := OldRound(s, obfuscated, true, left, inflate).value;
      OldRoundShrinks(s, obfuscated, true, left, inflate);
      cs := OldRoundChunks(s, obfuscated, left, inflate);
      var more := OldSaved(s', obfuscated, true, left', inflate).value;
      var rest := OldSavedIsChunks(s', obfuscated, left', inflate);
      Minus32Twice(left, |bytes|, |more|);
      if left' == 0 {
        assert bytes + more == bytes;
      } else {
        ChunksFurther(PlainStream(s, obfuscated), cs, PlainStream(s', obfuscated), rest, inflate);
        cs := cs + rest;
      }
    }
  }

  lemma AllInflateConcat(a: seq<seq<byte>>, b: seq<seq<byte>>, inflate: OldInflater)
    ensures AllInflate(a + b, inflate) <==> AllInflate(a, inflate) && AllInflate(b, inflate)
  {
    if AllInflate(a + b, inflate) {
      forall i | 0 <= i < |b|
        ensures inflate(b[i]).Some?
      {
        assert (a + b)[|a| + i] == b[i];
      }
      forall i | 0 <= i < |a|
        ensures inflate(a[i]).Some?
      {
        assert (a + b)[i] == a[i];
      }
    }
  }

  // ----- Files that come back whole -----

  function PlainPiece(s: Source, obfuscated: bool): seq<byte>
    requires s.pieces != []
  {
    if obfuscated then Obfuscation.Plain(s.pieces[0].data, s.seed) else s.pieces[0].data
  }

  /** The pieces hold these chunks: each piece is complete, and in plain it is some of the chunks, joined,
      that can be told apart. Behind the last chunk there may be anything that does not start with an odd
      byte. */
  ghost predicate Holds(s: Source, obfuscated: bool, css: seq<seq<seq<byte>>>)
    decreases |css|
  {
    && |css| <= |s.pieces|
    && (css != [] ==>
          var chunks, plain := JoinedChunks(css[0]), PlainPiece(s, obfuscated);
          && |plain| == s.pieces[0].left && css[0] != [] && Separable(css[0])
          && chunks <= plain && Begins(plain[|chunks|..]) && (|css| > 1 ==> chunks == plain)
          && Holds(Behind(s, obfuscated), obfuscated, css[1..]))
  }

  /** What is left when the first piece is read. */
  function Behind(s: Source, obfuscated: bool): Source
    requires s.pieces != []
  {
    Source(s.pieces[1..], if obfuscated then Obfuscation.SeedAt(s.seed, |s.pieces[0].data|) else s.seed)
  }

  lemma HeldPiece(s: Source, obfuscated: bool, css: seq<seq<seq<byte>>>)
    requires Sound(s) && Holds(Reopened(s), obfuscated, css) && css != []
    ensures
      var s1, chunks := Reopened(s), JoinedChunks(css[0]);
      && s1.pieces != [] && Sound(s1)
      && match Take(s1, obfuscated, s1.pieces[0].left)
         case None => false
         case Some((bytes, s2)) =>
           && chunks <= bytes && Begins(bytes[|chunks|..]) && (|css| > 1 ==> chunks == bytes)
           && Sound(s2) && Holds(Reopened(s2), obfuscated, css[1..])
  {
    hide Obfuscation.Plain, Obfuscation.SeedAt, Separable, JoinedChunks, Terminated, Begins;
    var s1 := Reopened(s);
    ReopenedStream(s, obfuscated);
    JoinedTerminated(css[0]);
    var e := s1.pieces[0];
    assert e.data[..e.left] == e.data;
    TakeIsStream(s1, obfuscated, e.left);
    var s2 := Take(s1, obfuscated, e.left).value.1;
    assert s2.pieces == [Extent([], 0, e.flags)] + s1.pieces[1..];
    assert s2.pieces[1..] == s1.pieces[1..];
    assert Reopened(s2) == Behind(s1, obfuscated);
  }

  /** A file whose pieces are chunks that can be told apart, and that unpack to as many bytes as counted,
      is saved whole. */
  lemma {:induction false} HeldIsSaved(s: Source, obfuscated: bool, left: uint32, inflate: OldInflater,
                                       css: seq<seq<seq<byte>>>)
    requires Sound(s) && Holds(Reopened(s), obfuscated, css)
    requires AllInflate(Flatten(css), inflate) && |Inflated(Flatten(css), inflate)| == left
    ensures Readable(s, obfuscated, true, left, inflate)
    ensures OldSaved(s, obfuscated, true, left, inflate) == Some(Inflated(Flatten(css), inflate))
    decreases |css|
  {
    hide PlainStream, Holds, Take, JoinedChunks, Unpacked, Searchable, Sound, Begins, Separable;
    if css != [] {
      HeldPiece(s, obfuscated, css);
      var s1, chunks := Reopened(s), JoinedChunks(css[0]);
      var (bytes, s2) := Take(s1, obfuscated, s1.pieces[0].left).value;
      var rest := css[1..];
      InflatedConcat(css[0], Flatten(rest), inflate);
      AllInflateConcat(css[0], Flatten(rest), inflate);
      HeldSeparable(s, obfuscated, css);
      var behind := bytes[|chunks|..];
      assert bytes == chunks + behind;
      UnpackedAll(css[0], behind, left, inflate);
      HeldIsSaved(s2, obfuscated, left - |Inflated(css[0], inflate)|, inflate, rest);
    }
  }

  lemma HeldSeparable(s: Source, obfuscated: bool, css: seq<seq<seq<byte>>>)
    requires Holds(Reopened(s), obfuscated, css) && css != []
    ensures Separable(css[0])
  {
  }

  // ----- Saves -----

  function ToInt64(n: uint64): int {
    if n < 0x8000_0000_0000_0000 then n else n - 0x1_0000_0000_0000_0000
  }

  /** How many bytes the compressed size is ahead of a length. */
  function Lacking(d: Descriptor, length: nat): int {
    ToInt64((d.compressedSize - length) % 0x1_0000_0000_0000_0000)
  }

  function ToUint32(n: nat): uint32 {
    n % 0x1_0000_0000
  }

  /** The cursor of a reader for a file outside of the cabinet. Where the file is shorter than the
      compressed size, up to four bytes of the marker that should end it are put behind it. */
  function External(d: Descriptor, f: flags, contents: seq<byte>): Cursor {
    if IsCompressed(f) then
      var missing := Lacking(d, |contents|);
      if missing > 0 then
        var n := Min(4, missing);
        Cursor(0, contents + END_OF_CHUNK[4 - n..], 0, NO_HEADER, ToUint32(|contents| + n))
      else
        Cursor(0, contents, 0, NO_HEADER, SizeInVolume(d, f))
    else
      Cursor(0, contents, 0, NO_HEADER, SizeInVolume(d, f))
  }

  /** How many bytes are put behind a compressed file outside of the cabinet, whose lengths are numbers of 63
      bits: those of the marker that it is short of. */
  function Added(d: Descriptor, f: flags, length: nat): nat {
    if f / 4 % 2 == 1 && length < d.compressedSize && d.compressedSize - length < 0x8000_0000_0000_0000
    then Min(4, d.compressedSize - length) else 0
  }

  lemma ExternalExactly(d: Descriptor, f: flags, contents: seq<byte>)
    requires |contents| < 0x8000_0000_0000_0000
    ensures
      var n := Added(d, f, |contents|);
      var size := if n > 0 then |contents| + n else if f / 4 % 2 == 1 then d.compressedSize else d.expandedSize;
      External(d, f, contents)
      == Cursor(0, contents + [0x00, 0x00, 0xFF, 0xFF][4 - n..], 0, VolumeHeader(0, 0, 0, 0, 0, 0, 0, 0),
                size % 0x1_0000_0000)
  {
    FlagsInNumbers(f);
    LackingExactly(d, |contents|);
    hide IsCompressed, Lacking;
    assert contents + [] == contents;
  }

  lemma LackingExactly(d: Descriptor, length: nat)
    requires length < 0x8000_0000_0000_0000
    ensures
      var diff := d.compressedSize - length;
      && (0 < diff < 0x8000_0000_0000_0000 ==> Lacking(d, length) == diff)
      && (diff <= 0 || diff >= 0x8000_0000_0000_0000 ==> Lacking(d, length) <= 0)
  {
  }

  lemma SmallRemainder64(n: nat)
    requires n <= 4
    ensures n % 0x1_0000_0000_0000_0000 == n
  {
  }

  lemma SizeCut(d: Descriptor, f: flags)
    ensures SizeInVolume(d, f) == ToUint32(if IsCompressed(f) then d.compressedSize else d.expandedSize)
  {
    hide IsCompressed;
  }

  lemma LackingIs(d: Descriptor, length: nat, n: nat)
    requires d.compressedSize == length + n && n <= 4
    ensures Lacking(d, length) == n
  {
    SmallRemainder64(n);
  }

  lemma SmallSize(n: nat)
    requires n < 0x1_0000_0000
    ensures ToUint32(n) == n
  {
    SmallRemainder(n);
  }

  /** A compressed file that lost up to four bytes at its end, where the marker was, is read as it was. */
  lemma ExternalIsRepaired(d: Descriptor, f: flags, whole: seq<byte>, k: nat)
    requires IsCompressed(f) && Terminated(whole) && |whole| == d.compressedSize < 0x1_0000_0000
    requires |whole| - 4 <= k <= |whole|
    ensures External(d, f, whole[..k]).data == whole && External(d, f, whole[..k]).left == |whole|
  {
    hide IsCompressed, MarkerAt, Lacking, ToUint32, SizeInVolume;
    MarkerBytes(whole, |whole| - 4);
    SizeCut(d, f);
    SmallSize(|whole|);
    LackingIs(d, k, |whole| - k);
    WholeAgain(whole, k);
  }

  lemma WholeAgain(whole: seq<byte>, k: nat)
    requires |whole| >= 4 && whole[|whole| - 4..] == END_OF_CHUNK && |whole| - 4 <= k <= |whole|
    ensures whole[..k] + END_OF_CHUNK[4 - (|whole| - k)..] == whole
  {
    assert END_OF_CHUNK[4 - (|whole| - k)..] == whole[k..];
  }

  /** The stream that an old save reads from, and the flags that the descriptor has by then. */
  ghost function OldBegin(a: Archive, index: nat, d: Descriptor, f: flags, v: uint16, gap: nat,
                          external: Option<seq<byte>>): Option<(Source, flags)>
    requires Missing(a, gap)
    ensures
      OldBegin(a, index, d, f, v, gap, external).Some? ==>
        var (s, f') := OldBegin(a, index, d, f, v, gap, external).value;
        Sound(s) && s.pieces != [] && s.pieces[0].flags == f'
  {
    if IsInvalid(f) || d.dataOffset == 0 then None
    else
      match Start(a, index, d, f, v, AT_REST, gap)
      case None => None
      case Some((f', v', c)) =>
        if |c.data| != d.dataOffset then Some((Source(PiecesFrom(a, index, d, f', c), 0), f'))
        else if external.None? then None
        else Some((Source(PiecesFrom(a, index, d, f', External(d, f', external.value)), 0), f'))
  }

  /** A file inside of the cabinet is read as the other saves read it. */
  lemma OldBeginInside(a: Archive, index: nat, d: Descriptor, f: flags, v: uint16, gap: nat,
                       external: Option<seq<byte>>)
    requires Missing(a, gap) && Begin(a, index, d, f, v, gap).Some?
    ensures OldBegin(a, index, d, f, v, gap, external) == Begin(a, index, d, f, v, gap)
  {
  }

  /** What `unshield_file_save_old` needs of a file that is not linked. */
  ghost predicate OldReadable(a: Archive, index: nat, d: Descriptor, f: flags, v: uint16, gap: nat,
                              external: Option<seq<byte>>, inflate: OldInflater)
    requires Missing(a, gap)
  {
    match OldBegin(a, index, d, f, v, gap, external)
    case None => true
    case Some((s, f')) =>
      Readable(s, IsObfuscated(f'), IsCompressed(f'), d.expandedSize % 0x1_0000_0000, inflate)
  }

  /** `unshield_file_save_old` of a file that is not linked: what it writes when it succeeds. */
  ghost function OldOutcome(a: Archive, index: nat, d: Descriptor, f: flags, v: uint16, gap: nat,
                            external: Option<seq<byte>>, inflate: OldInflater): Option<seq<byte>>
    requires Missing(a, gap)
  {
    match OldBegin(a, index, d, f, v, gap, external)
    case None => None
    case Some((s, f')) =>
      match OldSaved(s, IsObfuscated(f'), IsCompressed(f'), d.expandedSize % 0x1_0000_0000, inflate)
      case None => None
      case Some(output) =>
        if |output| % 0x1_0000_0000_0000_0000 == d.expandedSize then Some(output) else None
  }

  /** An old save that succeeds has written as many bytes as the descriptor says: for a compressed file
      what the chunks at the front of the plain stream unpack to, and else the front of the stream. */
  lemma OldSaveIsWhole(a: Archive, index: nat, d: Descriptor, f: flags, v: uint16, gap: nat,
                       external: Option<seq<byte>>, inflate: OldInflater)
    returns (cs: seq<seq<byte>>)
    requires Missing(a, gap) && OldOutcome(a, index, d, f, v, gap, external, inflate).Some?
    ensures
      var output := OldOutcome(a, index, d, f, v, gap, external, inflate).value;
      var (s, f') := OldBegin(a, index, d, f, v, gap, external).value;
      var stream := PlainStream(s, IsObfuscated(f'));
      && |output| % 0x1_0000_0000_0000_0000 == d.expandedSize
      && (IsCompressed(f') ==>
            AllInflate(cs, inflate) && JoinedChunks(cs) <= stream && output == Inflated(cs, inflate))
      && (!IsCompressed(f') ==>
            d.expandedSize % 0x1_0000_0000 <= |stream| && output == stream[..d.expandedSize % 0x1_0000_0000])
  {
    hide IsObfuscated, IsCompressed, PlainStream, OldBegin, AllInflate, Inflated, JoinedChunks;
    cs := [];
    var (s, f') := OldBegin(a, index, d, f, v, gap, external).value;
    if IsCompressed(f') {
      cs := OldSavedIsChunks(s, IsObfuscated(f'), d.expandedSize % 0x1_0000_0000, inflate);
    } else {
      OldCopies(s, IsObfuscated(f'), d.expandedSize % 0x1_0000_0000, inflate);
    }
  }

  /** A compressed file whose pieces are rows of chunks that can be told apart, and that unpack to as many
      bytes as the descriptor says, is saved, and all of it. */
  lemma HeldFileIsSaved(a: Archive, index: nat, d: Descriptor, f: flags, v: uint16, gap: nat,
                        external: Option<seq<byte>>, inflate: OldInflater, css: seq<seq<seq<byte>>>)
    requires Missing(a, gap) && OldBegin(a, index, d, f, v, gap, external).Some?
    requires
      var (s, f') := OldBegin(a, index, d, f, v, gap, external).value;
      IsCompressed(f') && Holds(Reopened(s), IsObfuscated(f'), css)
    requires AllInflate(Flatten(css), inflate) && |Inflated(Flatten(css), inflate)| == d.expandedSize < 0x1_0000_0000
    ensures OldReadable(a, index, d, f, v, gap, external, inflate)
    ensures OldOutcome(a, index, d, f, v, gap, external, inflate) == Some(Inflated(Flatten(css), inflate))
  {
    hide IsObfuscated, IsCompressed, Holds, OldBegin, AllInflate, Inflated, Readable, OldSaved, Flatten;
    var (s, f') := OldBegin(a, index, d, f, v, gap, external).value;
    SmallRemainder(d.expandedSize);
    HeldIsSaved(s, IsObfuscated(f'), d.expandedSize, inflate, css);
  }
}
