/**
 The loops that save a file: from the reader into an output, with the checks at the end (lib/file.c).
 */
module Extraction {
  import opened Bytes
  import opened Cabinet
  import opened Reader
  import opened SaveLoops
  import opened Outcomes
  import opened Leaves
  import Md5

  /** The file that a save writes. It may not open, and it has room for so many bytes only. */
  class Output {
    const openable: bool
    const room: nat
    var content: seq<byte>

    constructor (openable: bool, room: nat)
      ensures this.openable == openable && this.room == room && content == []
    {
      this.openable, this.room := openable, room;
      content := [];
    }

    method Open() returns (ok: bool)
      modifies this
      ensures ok == openable
      ensures content == if ok then [] else old(content)
    {
      if openable {
        content := [];
      }
      return openable;
    }

    /** `unshield_fwrite`. */
    method Write(bytes: seq<byte>) returns (written: nat)
      requires |content| <= room
      modifies this
      ensures written == Min(|bytes|, room - |old(content)|)
      ensures content == old(content) + bytes[..written] && |content| <= room
    {
      written := Min(|bytes|, room - |content|);
      content := content + bytes[..written];
    }
  }

  /** The room that there is for what is written. */
  function RoomOf(output: Output?): Option<nat> {
    if output == null then None else Some(output.room)
  }

  function SinkOf(output: Output?): (sink: Sink)
    ensures RoomIn(sink) == RoomOf(output)
  {
    if output == null then Discarded else Into(output.openable, output.room)
  }

  /** What a save has to do with the outcome that is defined for the file. */
  ghost predicate Delivers(success: bool, outcome: Option<seq<byte>>, output: Output?)
    reads output
  {
    match outcome
    case None => !success
    case Some(bytes) =>
      && (success <==> output == null || (output.openable && |bytes| <= output.room))
      && (success && output != null ==> output.content == bytes)
  }

  /** What is ahead starts with the piece that is open. */
  lemma AheadFlags(reader: Reader)
    ensures reader.Ahead().pieces != [] && reader.Ahead().pieces[0].flags == reader.fd.flags
    ensures reader.Ahead().pieces[0].left == reader.left && Reached(reader.Ahead().pieces, 0) == reader.fd.flags
  {
  }

  /** One round of the loop of `unshield_file_save`: what it writes is at the front of `outputBuffer`. */
  method SaveRound(reader: Reader, inputBuffer: array<byte>, outputBuffer: array<byte>, left: uint32, inflate: Inflater)
    returns (success: bool, bytesToWrite: nat, left': uint32)
    requires FitsBuffer(inflate) && inputBuffer.Length == 0x1_0001 && outputBuffer.Length == 0x1_0000
    modifies reader, reader.fd`flags, inputBuffer, outputBuffer
    ensures
      var f := old(reader.fd.flags);
      match Round(old(reader.Ahead()), IsObfuscated(f), IsCompressed(f), left, inflate)
      case None => !success
      case Some((bytes, ahead, l)) =>
        && success && bytesToWrite == |bytes| <= 0x1_0000 && outputBuffer[..bytesToWrite] == bytes
        && reader.Ahead() == ahead && left' == l
    ensures
      var f := old(reader.fd.flags);
      && reader.fd.flags == RoundReached(old(reader.Ahead()), IsObfuscated(f), IsCompressed(f), left)
      && Evolves(f, reader.fd.flags)
  {
    if IsCompressed(reader.fd.flags) {
      success, bytesToWrite, left' := SaveFrame(reader, inputBuffer, outputBuffer, left, inflate);
    } else {
      hide IsObfuscated, IsCompressed, Evolves, Take, Reached, PlainStream, Reader.Ahead;
      success, left' := true, left;
      bytesToWrite := Min(left, 0x1_0000);
      success := reader.Read(outputBuffer, bytesToWrite);
      left' := left - bytesToWrite;
    }
  }

  method SaveFrame(reader: Reader, inputBuffer: array<byte>, outputBuffer: array<byte>, left: uint32, inflate: Inflater)
    returns (success: bool, bytesToWrite: nat, left': uint32)
    requires FitsBuffer(inflate) && inputBuffer.Length == 0x1_0001 && outputBuffer.Length == 0x1_0000
    modifies reader, reader.fd`flags, inputBuffer, outputBuffer
    ensures
      match Round(old(reader.Ahead()), IsObfuscated(old(reader.fd.flags)), true, left, inflate)
      case None => !success
      case Some((bytes, ahead, l)) =>
        && success && bytesToWrite == |bytes| <= 0x1_0000 && outputBuffer[..bytesToWrite] == bytes
        && reader.Ahead() == ahead && left' == l
    ensures
      var f := old(reader.fd.flags);
      && reader.fd.flags == RoundReached(old(reader.Ahead()), IsObfuscated(f), true, left)
      && Evolves(f, reader.fd.flags)
  {
    hide IsObfuscated, IsCompressed, Evolves, Take, Reached, PlainStream, Reader.Ahead, ReadUint16, Minus32;
    success, bytesToWrite, left' := false, 0, left;
    ghost var f := reader.fd.flags;
    var lengthBytes := new byte[2];
    var ok := reader.Read(lengthBytes, 2);
    if !ok {
      return;
    }
    EvolvedFlags(f, reader.fd.flags);
    assert lengthBytes[..2] == lengthBytes[..];
    ghost var g := reader.fd.flags;
    EvolvesFurther(f, g, g);
    var bytesToRead := ReadUint16(lengthBytes[..]);
    if bytesToRead == 0 {
      NothingTaken(reader.Ahead(), IsObfuscated(f));
      AheadFlags(reader);
      return;
    }
    ok := reader.Read(inputBuffer, bytesToRead);
    EvolvesFurther(f, g, reader.fd.flags);
    if !ok {
      return;
    }
    ghost var payload := inputBuffer[..bytesToRead];
    inputBuffer[bytesToRead] := 0;
    assert inputBuffer[..bytesToRead + 1] == payload + [0];
    match inflate(inputBuffer[..bytesToRead + 1])
    case None =>
    case Some(bytes) =>
      Md5.Copy(outputBuffer, 0, bytes);
      success, bytesToWrite := true, |bytes|;
      left' := Minus32(Minus32(left, 2), bytesToRead);
  }

  lemma PrefixedFurther(a: seq<byte>, b: seq<byte>, more: Option<seq<byte>>)
    ensures Prefixed([], more) == more
    ensures Prefixed(a, Prefixed(b, more)) == Prefixed(a + b, more)
    ensures Prefixed(a, None) == None && Prefixed(a, Some([])) == Some(a)
  {
    if more.Some? {
      assert [] + more.value == more.value;
      assert a + (b + more.value) == (a + b) + more.value;
    }
    assert a + [] == a;
  }

  lemma TotalGrows(total: uint64, written: nat, more: nat)
    requires total == written % 0x1_0000_0000_0000_0000
    ensures (total + more) % 0x1_0000_0000_0000_0000 == (written + more) % 0x1_0000_0000_0000_0000
  {
  }

  /** One round of the loop of `unshield_file_save`, with what it adds to the digest and to the output. */
  method SaveStep(reader: Reader, inputBuffer: array<byte>, outputBuffer: array<byte>, md5: Md5.Context,
                  output: Output?, left: uint32, inflate: Inflater)
    returns (success: bool, bytesToWrite: nat, left': uint32)
    requires FitsBuffer(inflate) && inputBuffer.Length == 0x1_0001 && outputBuffer.Length == 0x1_0000
    requires md5.Valid() && outputBuffer != md5.buffer && inputBuffer != md5.buffer
    requires output != null ==> |output.content| <= output.room
    modifies reader, reader.fd`flags, inputBuffer, outputBuffer, md5, md5.buffer, output
    ensures
      var f := old(reader.fd.flags);
      match Round(old(reader.Ahead()), IsObfuscated(f), IsCompressed(f), left, inflate)
      case None => !success
      case Some((bytes, ahead, l)) =>
        && md5.Valid() && md5.message == old(md5.message) + bytes
        && reader.Ahead() == ahead && left' == l && bytesToWrite == |bytes|
        && (success <==> output == null || |old(output.content)| + |bytes| <= output.room)
        && (success && output != null ==> output.content == old(output.content) + bytes)
    ensures
      var f := old(reader.fd.flags);
      && reader.fd.flags == RoundReached(old(reader.Ahead()), IsObfuscated(f), IsCompressed(f), left)
      && Evolves(f, reader.fd.flags)
  {
    hide IsObfuscated, IsCompressed, Evolves, Reader.Ahead, Round, RoundReached, Md5.Context.Valid;
    success, bytesToWrite, left' := SaveRound(reader, inputBuffer, outputBuffer, left, inflate);
    if !success {
      return;
    }
    var bytes := outputBuffer[..bytesToWrite];
    md5.Update(bytes);
    if output != null {
      var n := output.Write(bytes);
      success := n == bytesToWrite;
    }
  }

  /** The loop of `unshield_file_save`. */
  method SaveLoop(reader: Reader, md5: Md5.Context, output: Output?, size: uint32, inflate: Inflater)
    returns (success: bool, totalWritten: uint64)
    requires FitsBuffer(inflate) && md5.Valid() && md5.message == []
    requires output != null ==> output.content == []
    modifies reader, reader.fd`flags, md5, md5.buffer, output
    ensures
      var f := old(reader.fd.flags);
      match Saved(old(reader.Ahead()), IsObfuscated(f), IsCompressed(f), size, inflate)
      case None => !success
      case Some(bytes) =>
        && (success <==> output == null || |bytes| <= output.room)
        && (success ==> md5.Valid() && md5.message == bytes && totalWritten == |bytes| % 0x1_0000_0000_0000_0000)
        && (success && output != null ==> output.content == bytes)
    ensures
      var f := old(reader.fd.flags);
      && reader.fd.flags
         == LoopReached(old(reader.Ahead()), IsObfuscated(f), IsCompressed(f), size, inflate, RoomOf(output))
      && Evolves(f, reader.fd.flags)
  {
    hide IsObfuscated, IsCompressed, Evolves, Reader.Ahead, Saved, Round, Prefixed, PlainStream, Sound;
    hide Md5.Context.Valid, FitsBuffer, LoopReached, RoundReached;
    ghost var f := reader.fd.flags;
    ghost var obf, comp := IsObfuscated(f), IsCompressed(f);
    EvolvesFurther(f, f, f);
    var inputBuffer := new byte[0x1_0001];
    var outputBuffer := new byte[0x1_0000];
    totalWritten := 0;
    var left := size;
    ghost var all, room := Saved(reader.Ahead(), obf, comp, left, inflate), RoomOf(output);
    ghost var reached := LoopReached(reader.Ahead(), obf, comp, left, inflate, room);
    PrefixedFurther([], [], all);
    while left > 0
      invariant Evolves(f, reader.fd.flags) && Fits(|md5.message|, room)
      invariant reached == LoopReached(reader.Ahead(), obf, comp, left, inflate, Less(room, |md5.message|))
      invariant all == Prefixed(md5.message, Saved(reader.Ahead(), obf, comp, left, inflate))
      invariant md5.Valid() && totalWritten == |md5.message| % 0x1_0000_0000_0000_0000
      invariant output != null ==> output.content == md5.message && |md5.message| <= output.room
      decreases |PlainStream(reader.Ahead(), obf)|
    {
      ghost var g, written := reader.fd.flags, md5.message;
      EvolvedFlags(f, g);
      RoundFurther(reader.Ahead(), obf, comp, left, inflate, written);
      LoopStep(reader.Ahead(), obf, comp, left, inflate, Less(room, |written|));
      var ok, bytesToWrite, left' := SaveStep(reader, inputBuffer, outputBuffer, md5, output, left, inflate);
      EvolvesFurther(f, g, reader.fd.flags);
      if !ok {
        return false, totalWritten;
      }
      TotalGrows(totalWritten, |written|, bytesToWrite);
      totalWritten := (totalWritten + bytesToWrite) % 0x1_0000_0000_0000_0000;
      left := left';
    }
    SavedRound(reader.Ahead(), obf, comp, left, inflate);
    LoopStep(reader.Ahead(), obf, comp, left, inflate, Less(room, |md5.message|));
    AheadFlags(reader);
    PrefixedFurther(md5.message, [], None);
    success := true;
  }

  /** The main part of `unshield_file_save`: reads, writes and checks the whole file. */
  method SaveAll(reader: Reader, output: Output?, inflate: Inflater) returns (success: bool)
    requires FitsBuffer(inflate) && (output != null ==> output.content == [])
    modifies reader, reader.fd`flags, output
    ensures
      var f, d := old(reader.fd.flags), reader.fd.parsed;
      match Saved(old(reader.Ahead()), IsObfuscated(f), IsCompressed(f), SizeInVolume(d, f), inflate)
      case None => !success
      case Some(bytes) =>
        && (success <==> Checks(reader.archive.majorVersion, d, bytes) && (output != null ==> |bytes| <= output.room))
        && (success && output != null ==> output.content == bytes)
    ensures
      var f, size := old(reader.fd.flags), SizeInVolume(reader.fd.parsed, old(reader.fd.flags));
      && reader.fd.flags
         == LoopReached(old(reader.Ahead()), IsObfuscated(f), IsCompressed(f), size, inflate, RoomOf(output))
      && Evolves(f, reader.fd.flags)
  {
    hide IsObfuscated, IsCompressed, Evolves, Reader.Ahead, Saved, SizeInVolume, Checks, FitsBuffer, LoopReached;
    hide Md5.Context.Valid;
    var md5 := new Md5.Context();
    var size := SizeInVolume(reader.fd.parsed, reader.fd.flags);
    var totalWritten;
    success, totalWritten := SaveLoop(reader, md5, output, size, inflate);
    if success {
      success := CheckAll(reader.archive.majorVersion, reader.fd.parsed, totalWritten, md5);
    }
  }

  /** A round of the loop behind what was written before it. */
  lemma RoundFurther(s: Source, obfuscated: bool, compressed: bool, left: uint32, inflate: Inflater, written: seq<byte>)
    requires Sound(s) && left != 0
    ensures
      var all := Prefixed(written, Saved(s, obfuscated, compressed, left, inflate));
      match Round(s, obfuscated, compressed, left, inflate)
      case None => all == None
      case Some((bytes, s', left')) =>
        && all == Prefixed(written + bytes, Saved(s', obfuscated, compressed, left', inflate))
        && (all.Some? ==> |written + bytes| <= |all.value|)
        && |PlainStream(s', obfuscated)| < |PlainStream(s, obfuscated)|
  {
    hide Saved, Round, PlainStream;
    SavedRound(s, obfuscated, compressed, left, inflate);
    match Round(s, obfuscated, compressed, left, inflate)
    case None =>
    case Some((bytes, s', left')) =>
      RoundShrinks(s, obfuscated, compressed, left, inflate);
      PrefixedFurther(written, bytes, Saved(s', obfuscated, compressed, left', inflate));
      PrefixedLonger(written + bytes, Saved(s', obfuscated, compressed, left', inflate));
  }

  lemma PrefixedLonger(a: seq<byte>, more: Option<seq<byte>>)
    ensures Prefixed(a, more).Some? ==> |a| <= |Prefixed(a, more).value|
  {
  }

  /** The checks at the end of `unshield_file_save`. */
  method CheckAll(majorVersion: int, d: Descriptor, totalWritten: uint64, md5: Md5.Context) returns (ok: bool)
    requires md5.Valid() && totalWritten == |md5.message| % 0x1_0000_0000_0000_0000
    modifies md5, md5.buffer
    ensures ok <==> Checks(majorVersion, d, old(md5.message))
  {
    if d.expandedSize != totalWritten {
      return false;
    }
    if majorVersion >= 6 {
      var digest := new byte[16];
      md5.Final(digest);
      if digest[..] != d.md5 {
        return false;
      }
    }
    return true;
  }

  // ----- Raw saves -----

  lemma CopiedFurther(s: Source, obfuscated: bool, left: nat, written: seq<byte>)
    requires Sound(s)
    ensures left == 0 ==> Prefixed(written, Copied(s, obfuscated, left)) == Some(written)
    ensures left != 0 ==>
      var all := Prefixed(written, Copied(s, obfuscated, left));
      var n := Min(left, 0x1_0000);
      match Take(s, obfuscated, n)
      case None => all == None
      case Some((bytes, s')) =>
        && Sound(s') && |bytes| == n && all == Prefixed(written + bytes, Copied(s', obfuscated, left - n))
        && (all.Some? ==> |written + bytes| <= |all.value|)
  {
    hide Take, PlainStream;
    if left != 0 {
      var n := Min(left, 0x1_0000);
      TakeIsStream(s, obfuscated, n);
      if Take(s, obfuscated, n).Some? {
        var (bytes, s') := Take(s, obfuscated, n).value;
        PrefixedFurther(written, bytes, Copied(s', obfuscated, left - n));
        PrefixedLonger(written + bytes, Copied(s', obfuscated, left - n));
      }
    } else {
      PrefixedFurther(written, [], None);
    }
  }

  /** The loop of `unshield_file_save_raw`. */
  method RawLoop(reader: Reader, output: Output?, size: uint32) returns (success: bool)
    requires output != null ==> output.content == []
    modifies reader, reader.fd`flags, output
    ensures
      match Copied(old(reader.Ahead()), IsObfuscated(old(reader.fd.flags)), size)
      case None => !success
      case Some(bytes) =>
        && (success <==> output == null || |bytes| <= output.room)
        && (success && output != null ==> output.content == bytes)
    ensures
      var f := old(reader.fd.flags);
      && reader.fd.flags
         == LoopReached(old(reader.Ahead()), IsObfuscated(f), false, size, NotInflated, RoomOf(output))
      && Evolves(f, reader.fd.flags)
  {
    hide IsObfuscated, Evolves, Reader.Ahead, Copied, Prefixed, PlainStream, Sound, Take, LoopReached, Reached;
    ghost var f := reader.fd.flags;
    ghost var obf := IsObfuscated(f);
    EvolvesFurther(f, f, f);
    var outputBuffer := new byte[0x1_0000];
    var left: uint32 := size;
    ghost var all, written, room := Copied(reader.Ahead(), obf, left), [], RoomOf(output);
    ghost var reached := LoopReached(reader.Ahead(), obf, false, left, NotInflated, room);
    PrefixedFurther([], [], all);
    while left > 0
      invariant left <= size && Evolves(f, reader.fd.flags) && Fits(|written|, room)
      invariant reached == LoopReached(reader.Ahead(), obf, false, left, NotInflated, Less(room, |written|))
      invariant all == Prefixed(written, Copied(reader.Ahead(), obf, left))
      invariant output != null ==> output.content == written && |written| <= output.room
      decreases left
    {
      ghost var g := reader.fd.flags;
      EvolvedFlags(f, g);
      CopiedFurther(reader.Ahead(), obf, left, written);
      LoopStep(reader.Ahead(), obf, false, left, NotInflated, Less(room, |written|));
      var bytesToWrite := Min(left, 0x1_0000);
      var ok := reader.Read(outputBuffer, bytesToWrite);
      EvolvesFurther(f, g, reader.fd.flags);
      if !ok {
        return false;
      }
      left := left - bytesToWrite;
      var bytes := outputBuffer[..bytesToWrite];
      if output != null {
        var n := output.Write(bytes);
        if n != bytesToWrite {
          return false;
        }
      }
      written := written + bytes;
    }
    CopiedFurther(reader.Ahead(), obf, left, written);
    LoopStep(reader.Ahead(), obf, false, left, NotInflated, Less(room, |written|));
    AheadFlags(reader);
    success := true;
  }

  // ----- Getting ready to read -----

  /** The part that all saves share: a reader for a file that is valid and not linked, unless the file is
      not inside of the cabinet. */
  method OpenReader(archive: Archive, index: nat, fd: FileDescriptor, ghost gap: nat) returns (reader: Reader?)
    requires Missing(archive, gap) && !IsInvalid(fd.flags) && fd.parsed.dataOffset != 0
    modifies fd
    ensures
      match Begin(archive, index, fd.parsed, old(fd.flags), old(fd.volume), gap)
      case None => reader == null
      case Some((ahead, f)) =>
        && reader != null && fresh(reader) && reader.archive == archive && reader.fd == fd
        && reader.Ahead() == ahead && fd.flags == f
    ensures (fd.flags, fd.volume) == Searched(archive, index, fd.parsed, old(fd.flags), old(fd.volume), gap)
    ensures Evolves(old(fd.flags), fd.flags) && (0xFFFF !in archive.volumes ==> old(fd.volume) <= fd.volume)
  {
    hide IsInvalid, Evolves, Start, Searched, PiecesFrom;
    StartEvolves(archive, index, fd.parsed, fd.flags, fd.volume, AT_REST, gap);
    reader := Create(archive, index, fd, gap);
    if reader != null && |reader.data| == fd.parsed.dataOffset {
      reader := null;
    }
  }
}
