/**
 The loop that saves a file of an old cabinet, whose chunks end with markers (lib/file.c).
 */
module OldExtraction {
  import opened Bytes
  import opened Cabinet
  import opened Reader
  import opened OldChunks
  import opened Search
  import opened Unpacking
  import opened Leaves
  import opened SaveLoops
  import opened Outcomes
  import opened OldSaves
  import opened Extraction
  import Md5

  // ----- Finding the end of a chunk -----

  /** `find_bytes` for the marker, from `from` on in a part of the buffer. */
  method FindMarker(buffer: array<byte>, start: nat, from: nat, size: nat) returns (found: Option<nat>)
    requires start + size <= buffer.Length && from <= size
    requires StaysInside(buffer[start..start + size][from..], END_OF_CHUNK, 0, size - from)
    ensures found == NextMarker(buffer[start..start + size], from)
  {
    hide StaysInside, OccursAt, NextMarker;
    ghost var t := buffer[start..start + size];
    PartOfPart(buffer[..], start, size, from);
    var r := FindBytes(buffer, start + from, size - from, END_OF_CHUNK);
    FoundIsMarker(t, from, r);
    match r
    case None =>
      return None;
    case Some(p) =>
      return Some(from + p);
  }

  lemma PartOfPart(s: seq<byte>, start: nat, size: nat, from: nat)
    requires start + size <= |s| && from <= size
    ensures s[start..start + size][from..] == s[start + from..start + from + (size - from)]
  {
  }

  /** The length of the next chunk: a marker with an odd byte behind it is in the middle of one. */
  method FindChunk(buffer: array<byte>, start: nat, size: nat) returns (end: Option<nat>)
    requires start + size <= buffer.Length && EndSearchable(buffer[start..start + size], 0)
    ensures end == ChunkEnd(buffer[start..start + size], 0)
  {
    hide Odd, NextMarker, ChunkEnd, StaysInside, EndSearchable, SearchedTo;
    ghost var t := buffer[start..start + size];
    SearchFrom(t, 0);
    end := FindMarker(buffer, start, 0, size);
    while end.Some? && end.value + 4 < size && Odd(buffer[start + end.value + 4])
      invariant SearchedTo(t, end)
      decreases if end.Some? then 1 + size - end.value else 0
    {
      assert buffer[start + end.value + 4] == t[end.value + 4];
      SearchGoesOn(t, end.value);
      SearchFrom(t, end.value + 4);
      end := FindMarker(buffer, start, end.value + 4, size);
    }
    SearchEnds(t, end);
  }

  // ----- The chunks of one piece -----

  lemma ZeroIsThere(t: seq<byte>, i: nat)
    requires MarkerAt(t, i)
    ensures t[i] == 0
  {
  }

  /** A zero byte stored at the start of a marker is there already. */
  method StoreZero(buffer: array<byte>, at: nat)
    requires at < buffer.Length && buffer[at] == 0
    modifies buffer
    ensures buffer[..] == old(buffer[..])
  {
    buffer[at] := 0;
  }

  /** One pass of the loop over the chunks of a piece. */
  method SaveChunk(inputBuffer: array<byte>, start: nat, size: nat, outputBuffer: array<byte>, output: Output?,
                   inflate: OldInflater)
    returns (success: bool, chunkSize: nat, bytesToWrite: nat)
    requires start + size <= inputBuffer.Length && EndSearchable(inputBuffer[start..start + size], 0)
    requires FitsBuffer(inflate)
    requires outputBuffer.Length == 0x1_0000 && outputBuffer != inputBuffer
    requires output != null ==> |output.content| <= output.room
    modifies inputBuffer, outputBuffer, output
    ensures inputBuffer[..] == old(inputBuffer[..])
    ensures
      match ChunkEnd(inputBuffer[start..start + size], 0)
      case None => !success
      case Some(e) =>
        && chunkSize == e
        && match inflate(inputBuffer[start..start + size][..e])
           case None => !success
           case Some(bytes) =>
             && bytesToWrite == |bytes|
             && (success <==> output == null || |old(output.content)| + |bytes| <= output.room)
             && (success && output != null ==> output.content == old(output.content) + bytes)
  {
    hide MarkerAt, ChunkEnd, EndSearchable;
    success, chunkSize, bytesToWrite := false, 0, 0;
    ghost var t := inputBuffer[start..start + size];
    var end := FindChunk(inputBuffer, start, size);
    if end == None {
      return;
    }
    chunkSize := end.value;
    ZeroIsThere(t, chunkSize);
    assert inputBuffer[start + chunkSize] == t[chunkSize];
    StoreZero(inputBuffer, start + chunkSize);
    var chunk := inputBuffer[start..start + chunkSize];
    FrontOfPart(inputBuffer[..], start, size, chunkSize);
    match inflate(chunk)
    case None =>
    case Some(bytes) =>
      Md5.Copy(outputBuffer, 0, bytes);
      success, bytesToWrite := true, |bytes|;
      if output != null {
        var n := output.Write(outputBuffer[..bytesToWrite]);
        success := n == bytesToWrite;
      }
  }

  lemma FrontOfPart(s: seq<byte>, start: nat, size: nat, n: nat)
    requires start + size <= |s| && n <= size
    ensures s[start..start + size][..n] == s[start..start + n]
  {
  }

  lemma ChunkFurther(t: seq<byte>, left: uint32, inflate: OldInflater, written: seq<byte>)
    requires t != [] && left != 0 && Searchable(t, left, inflate)
    ensures EndSearchable(t, 0)
    ensures
      var all := Onto(written, Unpacked(t, left, inflate));
      match ChunkEnd(t, 0)
      case None => all == None
      case Some(e) =>
        match inflate(t[..e])
        case None => all == None
        case Some(bytes) =>
          && Searchable(t[e + 4..], Minus32(left, |bytes|), inflate)
          && all == Onto(written + bytes, Unpacked(t[e + 4..], Minus32(left, |bytes|), inflate))
          && (all.Some? ==> |written + bytes| <= |all.value.output|)
  {
    hide ChunkEnd, EndSearchable, Minus32;
    if ChunkEnd(t, 0).Some? {
      var e := ChunkEnd(t, 0).value;
      if inflate(t[..e]).Some? {
        var bytes := inflate(t[..e]).value;
        var more := Unpacked(t[e + 4..], Minus32(left, |bytes|), inflate);
        if more.Some? {
          assert written + (bytes + more.value.output) == written + bytes + more.value.output;
        }
      }
    }
  }

  lemma NoChunkLeft(t: seq<byte>, left: uint32, inflate: OldInflater, written: seq<byte>)
    requires t == [] || left == 0
    ensures Onto(written, Unpacked(t, left, inflate)) == Some(Progress(written, left))
  {
    assert written + [] == written;
  }

  lemma NothingYet(t: seq<byte>, left: uint32, inflate: OldInflater)
    ensures Onto([], Unpacked(t, left, inflate)) == Unpacked(t, left, inflate)
  {
    hide Unpacked;
    if Unpacked(t, left, inflate).Some? {
      var p := Unpacked(t, left, inflate).value;
      assert [] + p.output == p.output;
    }
  }

  /** The loop over the chunks of a piece that is in the buffer. */
  method SaveChunks(inputBuffer: array<byte>, size: nat, outputBuffer: array<byte>, output: Output?, left: uint32,
                    total: uint64, inflate: OldInflater)
    returns (success: bool, left': uint32, total': uint64)
    requires size <= inputBuffer.Length && Searchable(inputBuffer[..size], left, inflate)
    requires FitsBuffer(inflate)
    requires outputBuffer.Length == 0x1_0000 && outputBuffer != inputBuffer
    requires output != null ==> |output.content| <= output.room
    modifies inputBuffer, outputBuffer, output
    ensures
      match Unpacked(old(inputBuffer[..size]), left, inflate)
      case None => !success
      case Some(p) =>
        && (success <==> output == null || |old(output.content)| + |p.output| <= output.room)
        && (success ==> left' == p.left && total' == (total + |p.output|) % 0x1_0000_0000_0000_0000)
        && (success && output != null ==> output.content == old(output.content) + p.output)
  {
    hide Unpacked, Searchable, Onto, ChunkEnd, EndsChunk, EndSearchable, Minus32;
    ghost var t, written := inputBuffer[..size], [];
    ghost var all := Unpacked(t, left, inflate);
    NothingYet(t, left, inflate);
    var chunk := 0;
    var inputSize := size;
    left', total' := left, total;
    assert t[0..] == t;
    Rest64(total, 0, 0);
    while inputSize > 0 && left' > 0
      invariant chunk + inputSize == size && inputBuffer[..size] == t
      invariant Searchable(t[chunk..], left', inflate)
      invariant all == Onto(written, Unpacked(t[chunk..], left', inflate))
      invariant total' == (total + |written|) % 0x1_0000_0000_0000_0000
      invariant output != null ==> output.content == old(output.content) + written && |output.content| <= output.room
      decreases inputSize
    {
      ghost var rest := t[chunk..];
      assert inputBuffer[chunk..chunk + inputSize] == rest;
      ChunkFurther(rest, left', inflate, written);
      var ok, chunkSize, bytesToWrite := SaveChunk(inputBuffer, chunk, inputSize, outputBuffer, output, inflate);
      if !ok {
        return false, left', total';
      }
      assert rest[chunkSize + 4..] == t[chunk + chunkSize + 4..];
      chunk := chunk + chunkSize + 4;
      inputSize := inputSize - chunkSize - 4;
      left' := Minus32(left', bytesToWrite);
      Rest64(total, |written|, bytesToWrite);
      total' := (total' + bytesToWrite) % 0x1_0000_0000_0000_0000;
      written := written + inflate(rest[..chunkSize]).value;
    }
    NoChunkLeft(t[chunk..], left', inflate, written);
    success := true;
  }

  lemma Rest64(total: uint64, m: nat, n: nat)
    ensures ((total + m) % 0x1_0000_0000_0000_0000 + n) % 0x1_0000_0000_0000_0000
         == (total + (m + n)) % 0x1_0000_0000_0000_0000
    ensures (total + 0) % 0x1_0000_0000_0000_0000 == total
  {
  }

  // ----- The loop over the pieces -----

  /** Where a piece is at its end, the reader goes on to the next volume before it reads. */
  method NextPiece(reader: Reader, ghost left: uint32) returns (ok: bool)
    modifies reader, reader.fd`flags
    ensures
      var f, s := old(reader.fd.flags), Reopened(old(reader.Ahead()));
      var read := OldRead(s, IsObfuscated(f), IsCompressed(f), left);
      if ok then
        && s.pieces != [] && read == OldRead(reader.Ahead(), IsObfuscated(f), IsCompressed(f), left)
        && ReadReached(s, IsCompressed(f), left) == ReadReached(reader.Ahead(), IsCompressed(f), left)
      else s.pieces == [] && reader.fd.flags == f && read == None
    ensures Evolves(old(reader.fd.flags), reader.fd.flags)
  {
    hide IsObfuscated, IsCompressed, Evolves, IsSplit, PiecesFrom, Opened, FlagsAfter, ReadHeader, OldRead, ReadReached;
    ghost var f, c, s := reader.fd.flags, reader.At(), Reopened(reader.Ahead());
    EvolvesFurther(f, f, f);
    ok := true;
    AtTheEnd(reader.archive, reader.index, reader.fd.parsed, f, c);
    if reader.left == 0 {
      OpenedFollows(reader.archive, reader.index, reader.fd.parsed, f, c);
      NothingToRead(Source([], s.seed), IsObfuscated(f), IsCompressed(f), left);
      ok := reader.OpenVolume(reader.volume + 1);
      if ok {
        FlagsAfterEvolve(reader.archive, reader.index, reader.fd.parsed, f, ReadHeader(reader.archive, c.volume + 1));
        if s != reader.Ahead() {
          UnreadyReads(s, reader.Ahead(), IsObfuscated(f), IsCompressed(f), left);
        }
      }
    }
  }

  /** From two sources that are not ready, and have the same flags, a read is the same. */
  lemma UnreadyReads(s: Source, t: Source, obfuscated: bool, compressed: bool, left: uint32)
    requires s.pieces != [] && t.pieces != [] && s.pieces[0].flags == t.pieces[0].flags && !Ready(s) && !Ready(t)
    ensures OldRead(s, obfuscated, compressed, left) == OldRead(t, obfuscated, compressed, left)
    ensures ReadReached(s, compressed, left) == ReadReached(t, compressed, left)
  {
  }

  lemma AtTheEnd(a: Archive, index: nat, d: Descriptor, f: flags, c: Cursor)
    ensures
      var es := PiecesFrom(a, index, d, f, c);
      && es[0].left == c.left && es[1..] == Following(a, index, d, f, c.volume + 1)
  {
    hide Following, Cut;
  }

  /** The buffer for a piece doubles until that fits, and keeps what is in it. */
  method Grow(buffer: array<byte>, size: nat) returns (buffer': array<byte>)
    requires buffer.Length > 0
    ensures size <= buffer'.Length && (buffer' == buffer || fresh(buffer')) && buffer[..] <= buffer'[..]
  {
    buffer' := buffer;
    while size > buffer'.Length
      invariant 0 < buffer'.Length && (buffer' == buffer || fresh(buffer')) && buffer[..] <= buffer'[..]
      decreases size - buffer'.Length
    {
      var larger := new byte[2 * buffer'.Length];
      Md5.Copy(larger, 0, buffer'[..]);
      buffer' := larger;
    }
  }

  /** One round of the loop. */
  method OldStep(reader: Reader, inputBuffer: array<byte>, outputBuffer: array<byte>, output: Output?, left: uint32,
                 total: uint64, inflate: OldInflater)
    returns (success: bool, inputBuffer': array<byte>, left': uint32, total': uint64)
    requires FitsBuffer(inflate) && left != 0
    requires Readable(reader.Ahead(), IsObfuscated(reader.fd.flags), IsCompressed(reader.fd.flags), left, inflate)
    requires inputBuffer.Length > 0 && outputBuffer.Length == 0x1_0000 && outputBuffer != inputBuffer
    requires output != null ==> |output.content| <= output.room
    modifies reader, reader.fd`flags, inputBuffer, outputBuffer, output
    ensures inputBuffer'.Length > 0 && (inputBuffer' == inputBuffer || fresh(inputBuffer'))
    ensures
      var f := old(reader.fd.flags);
      match OldRound(old(reader.Ahead()), IsObfuscated(f), IsCompressed(f), left, inflate)
      case None => !success
      case Some((bytes, ahead, l)) =>
        && (success <==> output == null || |old(output.content)| + |bytes| <= output.room)
        && (success ==> reader.Ahead() == ahead && left' == l)
        && (success ==> total' == (total + |bytes|) % 0x1_0000_0000_0000_0000)
        && (success && output != null ==> output.content == old(output.content) + bytes)
    ensures
      var f := old(reader.fd.flags);
      reader.fd.flags == OldReached(old(reader.Ahead()), IsCompressed(f), left) && Evolves(f, reader.fd.flags)
  {
    hide IsObfuscated, IsCompressed, Evolves, Reader.Ahead, Reopened, OldRead, PlainStream, Sound, Ready, Unpacked;
    hide Searchable, FitsBuffer, ReadReached;
    AheadFlags(reader);
    ghost var f := reader.fd.flags;
    success, inputBuffer', left', total' := false, inputBuffer, left, total;
    var ok := NextPiece(reader, left);
    ghost var g := reader.fd.flags;
    EvolvedFlags(f, g);
    if !ok {
      return;
    }
    if IsCompressed(reader.fd.flags) {
      success, inputBuffer', left', total' := OldPiece(reader, inputBuffer, outputBuffer, output, left, total, inflate);
      EvolvesFurther(f, g, reader.fd.flags);
    } else {
      success, left', total' := OldCopy(reader, outputBuffer, output, left, total);
      EvolvesFurther(f, g, reader.fd.flags);
    }
  }

  /** The part of a round over a compressed file: reads the piece and unpacks its chunks. */
  method OldPiece(reader: Reader, inputBuffer: array<byte>, outputBuffer: array<byte>, output: Output?, left: uint32,
                  total: uint64, inflate: OldInflater)
    returns (success: bool, inputBuffer': array<byte>, left': uint32, total': uint64)
    requires FitsBuffer(inflate) && left != 0
    requires
      var piece := OldRead(reader.Ahead(), IsObfuscated(reader.fd.flags), true, left);
      piece.Some? ==> Searchable(piece.value.0, left, inflate)
    requires inputBuffer.Length > 0 && outputBuffer.Length == 0x1_0000 && outputBuffer != inputBuffer
    requires output != null ==> |output.content| <= output.room
    modifies reader, reader.fd`flags, inputBuffer, outputBuffer, output
    ensures inputBuffer'.Length > 0 && (inputBuffer' == inputBuffer || fresh(inputBuffer'))
    ensures
      match OldRead(old(reader.Ahead()), IsObfuscated(old(reader.fd.flags)), true, left)
      case None => !success
      case Some((piece, ahead)) =>
        match Unpacked(piece, left, inflate)
        case None => !success
        case Some(p) =>
          && (success <==> output == null || |old(output.content)| + |p.output| <= output.room)
          && (success ==> reader.Ahead() == ahead && left' == p.left)
          && (success ==> total' == (total + |p.output|) % 0x1_0000_0000_0000_0000)
          && (success && output != null ==> output.content == old(output.content) + p.output)
    ensures
      var f := old(reader.fd.flags);
      reader.fd.flags == ReadReached(old(reader.Ahead()), true, left) && Evolves(f, reader.fd.flags)
  {
    hide IsObfuscated, Evolves, Reader.Ahead, Take, Reached, Unpacked, Searchable, FitsBuffer;
    success, left', total' := false, left, total;
    var size := reader.left;
    AheadFlags(reader);
    inputBuffer' := Grow(inputBuffer, size);
    var ok := reader.Read(inputBuffer', size);
    if !ok {
      return;
    }
    success, left', total' := SaveChunks(inputBuffer', size, outputBuffer, output, left, total, inflate);
  }

  /** The part of a round that copies. */
  method OldCopy(reader: Reader, outputBuffer: array<byte>, output: Output?, left: uint32, total: uint64)
    returns (success: bool, left': uint32, total': uint64)
    requires left != 0 && outputBuffer.Length == 0x1_0000 && (output != null ==> |output.content| <= output.room)
    modifies reader, reader.fd`flags, outputBuffer, output
    ensures
      match OldRead(old(reader.Ahead()), IsObfuscated(old(reader.fd.flags)), false, left)
      case None => !success
      case Some((bytes, ahead)) =>
        && (success <==> output == null || |old(output.content)| + |bytes| <= output.room)
        && (success ==> reader.Ahead() == ahead && left' == Minus32(left, |bytes|))
        && (success ==> total' == (total + |bytes|) % 0x1_0000_0000_0000_0000)
        && (success && output != null ==> output.content == old(output.content) + bytes)
    ensures
      var f := old(reader.fd.flags);
      reader.fd.flags == ReadReached(old(reader.Ahead()), false, left) && Evolves(f, reader.fd.flags)
  {
    hide IsObfuscated, Evolves, Reader.Ahead, Take, Reached;
    Minus32Twice(left, Min(left, 0x1_0000), 0);
    success, left', total' := false, left, total;
    var bytesToWrite := Min(left, 0x1_0000);
    AheadFlags(reader);
    var ok := reader.Read(outputBuffer, bytesToWrite);
    if !ok {
      return;
    }
    left' := left - bytesToWrite;
    var bytes := outputBuffer[..bytesToWrite];
    success := true;
    if output != null {
      var n := output.Write(bytes);
      success := n == bytesToWrite;
    }
    total' := (total + bytesToWrite) % 0x1_0000_0000_0000_0000;
  }

  /** A round of the loop behind what was written before it. */
  lemma OldRoundFurther(s: Source, obfuscated: bool, compressed: bool, left: uint32, inflate: OldInflater,
                        written: seq<byte>)
    requires Sound(s) && left != 0 && Readable(s, obfuscated, compressed, left, inflate)
    ensures
      var all := Prefixed(written, OldSaved(s, obfuscated, compressed, left, inflate));
      match OldRound(s, obfuscated, compressed, left, inflate)
      case None => all == None
      case Some((bytes, s', left')) =>
        && all == Prefixed(written + bytes, OldSaved(s', obfuscated, compressed, left', inflate))
        && (all.Some? ==> |written + bytes| <= |all.value|)
        && |PlainStream(s', obfuscated)| < |PlainStream(s, obfuscated)|
        && Readable(s', obfuscated, compressed, left', inflate)
  {
    hide OldRound, PlainStream, OldRead;
    match OldRound(s, obfuscated, compressed, left, inflate)
    case None =>
    case Some((bytes, s', left')) =>
      OldRoundShrinks(s, obfuscated, compressed, left, inflate);
      PrefixedFurther(written, bytes, OldSaved(s', obfuscated, compressed, left', inflate));
      PrefixedLonger(written + bytes, OldSaved(s', obfuscated, compressed, left', inflate));
  }

  lemma OldEnd(s: Source, obfuscated: bool, compressed: bool, inflate: OldInflater, written: seq<byte>)
    requires Sound(s)
    ensures Prefixed(written, OldSaved(s, obfuscated, compressed, 0, inflate)) == Some(written)
  {
    PrefixedFurther(written, [], None);
  }

  /** The loop of `unshield_file_save_old`, and the check at its end. */
  method OldLoop(reader: Reader, output: Output?, inflate: OldInflater) returns (success: bool)
    requires FitsBuffer(inflate) && (output != null ==> output.content == [])
    requires Readable(reader.Ahead(), IsObfuscated(reader.fd.flags), IsCompressed(reader.fd.flags),
                      reader.fd.parsed.expandedSize % 0x1_0000_0000, inflate)
    modifies reader, reader.fd`flags, output
    ensures
      var f, d := old(reader.fd.flags), reader.fd.parsed;
      match OldSaved(old(reader.Ahead()), IsObfuscated(f), IsCompressed(f), d.expandedSize % 0x1_0000_0000, inflate)
      case None => !success
      case Some(bytes) =>
        && (success <==> |bytes| % 0x1_0000_0000_0000_0000 == d.expandedSize
                         && (output != null ==> |bytes| <= output.room))
        && (success && output != null ==> output.content == bytes)
    ensures
      var f, size := old(reader.fd.flags), reader.fd.parsed.expandedSize % 0x1_0000_0000;
      && reader.fd.flags
         == OldLoopReached(old(reader.Ahead()), IsObfuscated(f), IsCompressed(f), size, inflate, RoomOf(output))
      && Evolves(f, reader.fd.flags)
  {
    hide IsObfuscated, IsCompressed, Evolves, Reader.Ahead, OldSaved, OldRound, Readable, Prefixed, PlainStream, Sound;
    hide FitsBuffer, OldReached, OldLoopReached;
    ghost var f := reader.fd.flags;
    ghost var obf, comp := IsObfuscated(f), IsCompressed(f);
    EvolvesFurther(f, f, f);
    var inputBuffer := new byte[0x1_0000];
    var outputBuffer := new byte[0x1_0000];
    var total: uint64 := 0;
    var left: uint32 := reader.fd.parsed.expandedSize % 0x1_0000_0000;
    ghost var all, written, room := OldSaved(reader.Ahead(), obf, comp, left, inflate), [], RoomOf(output);
    ghost var reached := OldLoopReached(reader.Ahead(), obf, comp, left, inflate, room);
    PrefixedFurther([], [], all);
    while left > 0
      invariant inputBuffer.Length > 0 && fresh(inputBuffer) && inputBuffer != outputBuffer
      invariant Fits(|written|, room)
      invariant reached == OldLoopReached(reader.Ahead(), obf, comp, left, inflate, Less(room, |written|))
      invariant Evolves(f, reader.fd.flags) && Readable(reader.Ahead(), obf, comp, left, inflate)
      invariant all == Prefixed(written, OldSaved(reader.Ahead(), obf, comp, left, inflate))
      invariant total == |written| % 0x1_0000_0000_0000_0000
      invariant output != null ==> output.content == written && |written| <= output.room
      decreases |PlainStream(reader.Ahead(), obf)|
    {
      ghost var g := reader.fd.flags;
      EvolvedFlags(f, g);
      OldRoundFurther(reader.Ahead(), obf, comp, left, inflate, written);
      OldLoopStep(reader.Ahead(), obf, comp, left, inflate, Less(room, |written|));
      ghost var round := OldRound(reader.Ahead(), obf, comp, left, inflate);
      var ok, buffer, left', total' := OldStep(reader, inputBuffer, outputBuffer, output, left, total, inflate);
      EvolvesFurther(f, g, reader.fd.flags);
      if !ok {
        return false;
      }
      TotalGrows(total, |written|, |round.value.0|);
      inputBuffer, left, total := buffer, left', total';
      written := written + round.value.0;
    }
    OldEnd(reader.Ahead(), obf, comp, inflate, written);
    OldLoopStep(reader.Ahead(), obf, comp, left, inflate, Less(room, |written|));
    AheadFlags(reader);
    success := reader.fd.parsed.expandedSize == total;
  }

  // ----- Getting ready to read -----

  /** `unshield_reader_create_external`, for a file with these contents. */
  method CreateExternal(archive: Archive, index: nat, fd: FileDescriptor, contents: seq<byte>)
    returns (reader: Reader)
    ensures fresh(reader) && reader.archive == archive && reader.index == index && reader.fd == fd
    ensures reader.At() == External(fd.parsed, fd.flags, contents) && reader.obfuscationOffset == 0
  {
    hide IsCompressed, Lacking, Reader.Ahead, ToUint32, SizeInVolume;
    SizeCut(fd.parsed, fd.flags);
    reader := new Reader(archive, index, fd);
    reader.data := contents;
    if IsCompressed(fd.flags) {
      var diff := Lacking(fd.parsed, |contents|);
      if diff > 0 {
        diff := Min(4, diff);
        reader.data := contents + END_OF_CHUNK[4 - diff..];
        reader.left := ToUint32(|contents| + diff);
      } else {
        reader.left := ToUint32(fd.parsed.compressedSize);
      }
    } else {
      reader.left := ToUint32(fd.parsed.expandedSize);
    }
  }

  /** A reader for a file that is valid and not linked, inside of the cabinet or outside. */
  method OpenOldReader(archive: Archive, index: nat, fd: FileDescriptor, external: Option<seq<byte>>, ghost gap: nat)
    returns (reader: Reader?)
    requires Missing(archive, gap) && !IsInvalid(fd.flags) && fd.parsed.dataOffset != 0
    modifies fd
    ensures
      match OldBegin(archive, index, fd.parsed, old(fd.flags), old(fd.volume), gap, external)
      case None => reader == null
      case Some((ahead, f)) =>
        && reader != null && fresh(reader) && reader.archive == archive && reader.fd == fd
        && reader.Ahead() == ahead && fd.flags == f
    ensures (fd.flags, fd.volume) == Searched(archive, index, fd.parsed, old(fd.flags), old(fd.volume), gap)
    ensures Evolves(old(fd.flags), fd.flags) && (0xFFFF !in archive.volumes ==> old(fd.volume) <= fd.volume)
  {
    hide IsInvalid, Evolves, Start, Searched, PiecesFrom, External;
    StartEvolves(archive, index, fd.parsed, fd.flags, fd.volume, AT_REST, gap);
    reader := Create(archive, index, fd, gap);
    if reader != null && |reader.data| == fd.parsed.dataOffset {
      match external
      case None =>
        reader := null;
      case Some(contents) =>
        reader := CreateExternal(archive, index, fd, contents);
    }
  }

  /** What is defined for a file for which there is a reader. */
  lemma OldOpened(a: Archive, index: nat, d: Descriptor, f: flags, v: uint16, gap: nat, external: Option<seq<byte>>,
                  inflate: OldInflater, sink: Sink)
    requires Missing(a, gap) && !IsInvalid(f) && d.dataOffset != 0
    requires OldReadable(a, index, d, f, v, gap, external, inflate)
    requires OldBegin(a, index, d, f, v, gap, external).Some?
    ensures
      var (s, f') := OldBegin(a, index, d, f, v, gap, external).value;
      var size := d.expandedSize % 0x1_0000_0000;
      && Readable(s, IsObfuscated(f'), IsCompressed(f'), size, inflate)
      && OldOutcome(a, index, d, f, v, gap, external, inflate)
         == (match OldSaved(s, IsObfuscated(f'), IsCompressed(f'), size, inflate)
             case None => None
             case Some(output) =>
               if |output| % 0x1_0000_0000_0000_0000 == d.expandedSize then Some(output) else None)
      && OldLeaves(a, index, d, f, v, gap, external, inflate, sink)
         == (if !Opens(sink) then f'
             else OldLoopReached(s, IsObfuscated(f'), IsCompressed(f'), size, inflate, RoomIn(sink)),
             Searched(a, index, d, f, v, gap).1)
  {
    hide IsInvalid, IsObfuscated, IsCompressed, OldBegin, OldSaved, Readable, Searched, OldLoopReached;
    OldBeginSearched(a, index, d, f, v, gap, external);
  }

  /** The part of `unshield_file_save_old` from the reader on. */
  method SaveFileOld(archive: Archive, index: nat, fd: FileDescriptor, external: Option<seq<byte>>, output: Output?,
                     inflate: OldInflater, ghost gap: nat)
    returns (success: bool)
    requires FitsBuffer(inflate) && Missing(archive, gap) && !IsInvalid(fd.flags) && fd.parsed.dataOffset != 0
    requires OldReadable(archive, index, fd.parsed, fd.flags, fd.volume, gap, external, inflate)
    modifies fd, output
    ensures
      Delivers(success,
               OldOutcome(archive, index, fd.parsed, old(fd.flags), old(fd.volume), gap, external, inflate), output)
    ensures
      (fd.flags, fd.volume)
      == OldLeaves(archive, index, fd.parsed, old(fd.flags), old(fd.volume), gap, external, inflate, SinkOf(output))
    ensures Evolves(old(fd.flags), fd.flags) && (0xFFFF !in archive.volumes ==> old(fd.volume) <= fd.volume)
  {
    hide IsInvalid, IsObfuscated, IsCompressed, Evolves, OldBegin, OldSaved, FitsBuffer, Readable, Searched;
    hide OldLoopReached, Reader.Ahead, Missing, Sound;
    ghost var begin := OldBegin(archive, index, fd.parsed, fd.flags, fd.volume, gap, external);
    if begin.Some? {
      OldOpened(archive, index, fd.parsed, fd.flags, fd.volume, gap, external, inflate, SinkOf(output));
      hide OldOutcome, OldLeaves, OldReadable;
    }
    var reader := OpenOldReader(archive, index, fd, external, gap);
    if reader == null {
      return false;
    }
    ghost var f' := fd.flags;
    if output != null {
      var ok := output.Open();
      if !ok {
        return false;
      }
    }
    success := OldLoop(reader, output, inflate);
    EvolvesFurther(old(fd.flags), f', fd.flags);
  }
}
