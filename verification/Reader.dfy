/**
 The stateful reader that delivers a file's bytes across volumes (lib/file.c).
 */
module Reader {
  import opened Bytes
  import opened Cabinet
  import Obfuscation

  /** A file descriptor as it is kept: what was parsed, and the two fields that reading changes. */
  class FileDescriptor {
    const parsed: Descriptor
    ghost const index: nat
    var flags: flags
    var volume: uint16

    constructor (parsed: Descriptor, ghost index: nat)
      ensures this.parsed == parsed && this.index == index
      ensures flags == parsed.flags && volume == parsed.volume
    {
      this.parsed := parsed;
      this.index := index;
      flags := parsed.flags;
      volume := parsed.volume;
    }
  }

  // ----- Opening volumes -----

  /** Where a reader is: the volume it counts from, the bytes of the file it has open and the position
      in them, the header it read last, and how much of the piece is left. */
  datatype Cursor = Cursor(volume: int, data: seq<byte>, pos: nat, header: VolumeHeader, left: uint32)

  const NO_HEADER := VolumeHeader(0, 0, 0, 0, 0, 0, 0, 0)

  /** A reader before it opens anything: all zero. */
  const AT_REST := Cursor(0, [], 0, NO_HEADER, 0)

  /** The cursor after volume `v` is opened. Where the volume says nothing of the file, the file is open
      behind its headers and nothing else changes. */
  function Opened(a: Archive, index: nat, d: Descriptor, f: flags, c: Cursor, v: int): Cursor
    requires v in a.volumes
  {
    var h := ReadHeader(a, v);
    var bytes := a.volumes[v].bytes;
    match Locate(index, d, FlagsAfter(a, index, d, f, h), h)
    case Nowhere => c.(data := bytes, pos := HeaderEnd(a), header := h)
    case Place(offset, left) => Cursor(v, bytes, offset, h, left)
  }

  ghost function PiecesFrom(a: Archive, index: nat, d: Descriptor, f: flags, c: Cursor): (es: seq<Extent>)
    ensures AllWellFormed(es) && es != []
  {
    [ExtentAt(c.data, c.pos, c.left, f)] + Following(a, index, d, f, c.volume + 1)
  }

  /** Opening the next volume at the end of a piece gives the pieces that follow, or nothing to read where
      that volume says nothing of the file. */
  lemma OpenedFollows(a: Archive, index: nat, d: Descriptor, f: flags, c: Cursor)
    requires c.left == 0
    ensures
      var v := c.volume + 1;
      var es := Following(a, index, d, f, v);
      if v !in a.volumes then es == []
      else
        var f' := FlagsAfter(a, index, d, f, ReadHeader(a, v));
        var es' := PiecesFrom(a, index, d, f', Opened(a, index, d, f, c, v));
        es != [] && es[0].flags == es'[0].flags == f' && (es' == es || (!Positioned(es) && !Positioned(es')))
  {
    hide FlagsAfter, ReadHeader;
  }

  lemma CutAdvances(bytes: seq<byte>, pos: nat, left: nat, n: nat)
    requires n <= |Cut(bytes, pos, left)|
    ensures Cut(bytes, pos + n, left - n) == Cut(bytes, pos, left)[n..]
    ensures n > 0 ==> pos + n <= |bytes| && Cut(bytes, pos, left)[..n] == bytes[pos..pos + n]
  {
  }

  class Reader {
    const archive: Archive
    const index: nat
    const fd: FileDescriptor
    var volume: int
    var data: seq<byte>
    var pos: nat
    var header: VolumeHeader
    var left: uint32
    var obfuscationOffset: uint32

    ghost function At(): Cursor
      reads this
    {
      Cursor(volume, data, pos, header, left)
    }

    /** Everything that this reader can still deliver. */
    ghost function Ahead(): (s: Source)
      reads this, fd
      ensures Sound(s) && s.pieces != []
    {
      Source(PiecesFrom(archive, index, fd.parsed, fd.flags, At()), obfuscationOffset)
    }

    constructor (archive: Archive, index: nat, fd: FileDescriptor)
      ensures this.archive == archive && this.index == index && this.fd == fd
      ensures At() == AT_REST && obfuscationOffset == 0
    {
      this.archive, this.index, this.fd := archive, index, fd;
      volume, data, pos, header, left := 0, [], 0, NO_HEADER, 0;
      obfuscationOffset := 0;
    }

    /** `unshield_reader_open_volume`. */
    method OpenVolume(v: int) returns (success: bool)
      modifies `volume, `data, `pos, `header, `left, fd`flags
      ensures success <==> v in archive.volumes
      ensures success ==>
        && fd.flags == FlagsAfter(archive, index, fd.parsed, old(fd.flags), ReadHeader(archive, v))
        && At() == Opened(archive, index, fd.parsed, old(fd.flags), old(At()), v)
      ensures !success ==> fd.flags == old(fd.flags) && At() == old(At()).(data := [], pos := 0)
    {
      hide IsSplit, WithSplit, ShowsSplit, ReadHeader, Locate, HeaderEnd;
      data, pos := [], 0;
      if v !in archive.volumes {
        return false;
      }
      data := archive.volumes[v].bytes;
      LoadHeader(v);
      if ShowsSplit(archive, index, fd.parsed, header) {
        fd.flags := WithSplit(fd.flags);
      }
      GoToPiece(v);
      return true;
    }

    /** The part of `unshield_reader_open_volume` that reads the headers of a volume. */
    method LoadHeader(v: int)
      requires v in archive.volumes
      modifies `pos, `header
      ensures pos == HeaderEnd(archive) && header == ReadHeader(archive, v)
    {
      header := archive.volumes[v].header;
      if (archive.majorVersion == 0 || archive.majorVersion == 5) && header.lastFileOffset == 0 {
        header := header.(lastFileOffset := NO_OFFSET);
      }
      pos := HeaderEnd(archive);
    }

    /** The part of `unshield_reader_open_volume` that goes to where the volume has the file. */
    method GoToPiece(v: int)
      modifies `volume, `pos, `left
      ensures
        match Locate(index, fd.parsed, fd.flags, header)
        case Nowhere => volume == old(volume) && pos == old(pos) && left == old(left)
        case Place(o, l) => volume == v && pos == o && left == l
    {
      hide IsSplit, IsCompressed;
      var f, h, d := fd.flags, header, fd.parsed;
      var dataOffset, expanded, compressed;
      if IsSplit(f) {
        if index == h.lastFileIndex && h.lastFileOffset != NO_OFFSET {
          dataOffset := h.lastFileOffset;
          expanded, compressed := h.lastFileSizeExpanded, h.lastFileSizeCompressed;
        } else if index == h.firstFileIndex {
          dataOffset := h.firstFileOffset;
          expanded, compressed := h.firstFileSizeExpanded, h.firstFileSizeCompressed;
        } else {
          return;
        }
      } else {
        dataOffset := d.dataOffset;
        expanded, compressed := d.expandedSize, d.compressedSize;
      }
      if IsCompressed(f) {
        left := compressed % 0x1_0000_0000;
      } else {
        left := expanded % 0x1_0000_0000;
      }
      pos := dataOffset;
      volume := v;
    }

    /** `unshield_fread`, into the buffer from `at` on: as many of the `n` bytes as the volume has. */
    method ReadBytes(buffer: array<byte>, at: nat, n: nat) returns (got: nat)
      requires at + n <= buffer.Length
      modifies `pos, buffer
      ensures got == |Cut(data, old(pos), n)| && pos == old(pos) + got
      ensures buffer[..at] == old(buffer[..at]) && buffer[at..at + got] == Cut(data, old(pos), n)
      ensures buffer[at + got..] == old(buffer[at + got..])
    {
      got := if pos >= |data| then 0 else Min(n, |data| - pos);
      for i := 0 to got
        invariant pos == old(pos)
        invariant forall k :: at <= k < at + i ==> buffer[k] == data[pos + (k - at)]
        invariant forall k :: 0 <= k < at ==> buffer[k] == old(buffer[k])
        invariant forall k :: at + i <= k < buffer.Length ==> buffer[k] == old(buffer[k])
        modifies buffer
      {
        buffer[at + i] := data[pos + i];
      }
      pos := pos + got;
    }

    /** `unshield_reader_read`: delivers `size` bytes, going on to the next volume at the end of a piece,
        and takes the obfuscation off what it delivers. */
    method Read(buffer: array<byte>, size: nat) returns (success: bool)
      requires size <= buffer.Length
      modifies this, fd`flags, buffer
      ensures
        match Take(old(Ahead()), IsObfuscated(old(fd.flags)), size)
        case None => !success
        case Some((bytes, ahead)) => success && buffer[..size] == bytes && Ahead() == ahead
      ensures fd.flags == Reached(old(Ahead()).pieces, size) && Evolves(old(fd.flags), fd.flags)
    {
      success := ReadPieces(buffer, size);
      EvolvedFlags(old(fd.flags), fd.flags);
      if success && IsObfuscated(fd.flags) {
        obfuscationOffset := Obfuscation.Deobfuscate(buffer, size, obfuscationOffset);
      }
    }

    /** The part of `unshield_reader_read` that goes on to the next volume at the end of a piece. */
    method OpenNext(ghost n: nat) returns (success: bool)
      requires left == 0
      modifies `volume, `data, `pos, `header, `left, fd`flags
      ensures
        var rest := Following(archive, index, fd.parsed, old(fd.flags), old(volume) + 1);
        if success then
          && rest != [] && Deliver(rest, n) == Deliver(Ahead().pieces, n)
          && Reached(rest, n) == Reached(Ahead().pieces, n)
        else rest == [] && fd.flags == old(fd.flags)
      ensures Evolves(old(fd.flags), fd.flags)
    {
      hide Evolves, IsSplit, Deliver, Reached, PiecesFrom, Opened, FlagsAfter, Following, ReadHeader;
      ghost var f := fd.flags;
      var v := volume + 1;
      ghost var rest := Following(archive, index, fd.parsed, f, v);
      EvolvesFurther(f, f, f);
      OpenedFollows(archive, index, fd.parsed, f, At());
      success := OpenVolume(v);
      if success {
        if !Positioned(rest) && !Positioned(Ahead().pieces) {
          NothingDelivered(rest, n);
          NothingDelivered(Ahead().pieces, n);
        }
        FlagsAfterEvolve(archive, index, fd.parsed, f, ReadHeader(archive, v));
      }
    }

    /** The loop of `unshield_reader_read`. */
    method ReadPieces(buffer: array<byte>, size: nat) returns (success: bool)
      requires size <= buffer.Length
      modifies `volume, `data, `pos, `header, `left, fd`flags, buffer
      ensures
        match Deliver(old(Ahead()).pieces, size)
        case None => !success
        case Some((bytes, pieces)) => success && buffer[..size] == bytes && Ahead().pieces == pieces
      ensures fd.flags == Reached(old(Ahead()).pieces, size) && Evolves(old(fd.flags), fd.flags)
    {
      hide Evolves, Deliver, Reached, PiecesFrom, Prepended, Cut, Following;
      ghost var start := Ahead().pieces;
      PrependedNothing(Deliver(start, size));
      EvolvesFurther(fd.flags, fd.flags, fd.flags);
      var p := 0;
      var bytesLeft := size;
      while true
        invariant 0 <= p <= size && p + bytesLeft == size
        invariant Deliver(start, size) == Prepended(buffer[..p], Deliver(Ahead().pieces, bytesLeft))
        invariant Reached(start, size) == Reached(Ahead().pieces, bytesLeft)
        invariant Evolves(old(fd.flags), fd.flags)
        decreases bytesLeft
      {
        ghost var c, f, before, n := At(), fd.flags, buffer[..p], bytesLeft;
        var bytesToRead := Min(bytesLeft, left);
        Advance(archive, index, fd.parsed, f, c, n, before);
        if bytesToRead == 0 {
          return false;
        }
        var got := ReadBytes(buffer, p, bytesToRead);
        if got != bytesToRead {
          return false;
        }
        ghost var piece := Cut(c.data, c.pos, bytesToRead);
        assert buffer[..p + bytesToRead] == before + piece;
        bytesLeft := bytesLeft - bytesToRead;
        left := left - bytesToRead;
        if bytesLeft == 0 {
          return true;
        }
        p := p + bytesToRead;
        PrependedNone(buffer[..p]);
        NothingDelivered([], bytesLeft);
        var ok := OpenNext(bytesLeft);
        if !ok {
          return false;
        }
        EvolvesFurther(old(fd.flags), f, fd.flags);
      }
    }
  }

  lemma NothingDelivered(es: seq<Extent>, n: nat)
    requires !Positioned(es)
    ensures Deliver(es, n) == None && (es != [] ==> Reached(es, n) == es[0].flags)
  {
  }

  lemma PrependedNone(bytes: seq<byte>)
    ensures Prepended(bytes, None) == None
  {
  }

  lemma PrependedNothing(more: Option<(seq<byte>, seq<Extent>)>)
    ensures Prepended([], more) == more
  {
    if more.Some? {
      assert [] + more.value.0 == more.value.0;
    }
  }

  /** What one pass of the reading loop comes to, seen from the pieces. */
  lemma Advance(a: Archive, index: nat, d: Descriptor, f: flags, c: Cursor, n: nat, before: seq<byte>)
    ensures
      var k := Min(n, c.left);
      var piece := Cut(c.data, c.pos, k);
      var all := Prepended(before, Deliver(PiecesFrom(a, index, d, f, c), n));
      if k == 0 || |piece| != k then all == None
      else if k == n then
        all == Some((before + piece, PiecesFrom(a, index, d, f, c.(pos := c.pos + k, left := c.left - k))))
      else
        k == c.left && all == Prepended(before + piece, Deliver(Following(a, index, d, f, c.volume + 1), n - k))
    ensures
      var k := Min(n, c.left);
      var rest := Following(a, index, d, f, c.volume + 1);
      Reached(PiecesFrom(a, index, d, f, c), n)
      == if k == 0 || k == n || |Cut(c.data, c.pos, k)| != k || rest == [] then f else Reached(rest, n - k)
  {
    hide Cut, Following;
    var k := Min(n, c.left);
    var es := PiecesFrom(a, index, d, f, c);
    CutShorter(c.data, c.pos, c.left, k);
    var rest := Following(a, index, d, f, c.volume + 1);
    assert es[1..] == rest;
    if k > 0 && |Cut(c.data, c.pos, k)| == k {
      CutAdvances(c.data, c.pos, c.left, k);
      if k < n && Deliver(rest, n - k).Some? {
        var more := Deliver(rest, n - k).value.0;
        assert before + (Cut(c.data, c.pos, k) + more) == before + Cut(c.data, c.pos, k) + more;
      }
    }
  }

  lemma CutShorter(bytes: seq<byte>, pos: nat, left: nat, k: nat)
    requires k <= left
    ensures |Cut(bytes, pos, k)| == k <==> k <= |Cut(bytes, pos, left)|
    ensures k <= |Cut(bytes, pos, left)| ==> Cut(bytes, pos, k) == Cut(bytes, pos, left)[..k]
  {
  }

  /** A delivery behind bytes that were delivered before. */
  function Prepended(bytes: seq<byte>, more: Option<(seq<byte>, seq<Extent>)>): Option<(seq<byte>, seq<Extent>)> {
    match more
    case None => None
    case Some((rest, es)) => Some((bytes + rest, es))
  }

  // ----- Finding the volume to start in -----

  function ToInt32(n: uint32): int {
    if n < 0x8000_0000 then n else n - 0x1_0000_0000
  }

  /** Old cabinets may have the file in a later volume than its descriptor says. */
  predicate ComesLater(a: Archive, index: nat, h: VolumeHeader) {
    a.majorVersion <= 5 && index > ToInt32(h.lastFileIndex)
  }

  function NextVolume(v: uint16): uint16 {
    (v + 1) % 0x1_0000
  }

  /** Some volume number that a descriptor can hold is not there, so that the search for the file
      comes to an end. */
  ghost predicate Missing(a: Archive, gap: nat) {
    gap < 0x1_0000 && gap !in a.volumes
  }

  /** Where reading starts: the flags and the volume that the descriptor has then, and the cursor. */
  ghost function Start(a: Archive, index: nat, d: Descriptor, f: flags, v: uint16, c: Cursor, gap: nat)
    : Option<(flags, uint16, Cursor)>
    requires Missing(a, gap)
    decreases (gap - v) % 0x1_0000
  {
    if v !in a.volumes then None
    else
      var f' := FlagsAfter(a, index, d, f, ReadHeader(a, v));
      var c' := Opened(a, index, d, f, c, v);
      if ComesLater(a, index, c'.header) then Start(a, index, d, f', NextVolume(v), c', gap)
      else Some((f', v, c'))
  }

  lemma OpenedHeader(a: Archive, index: nat, d: Descriptor, f: flags, c: Cursor, v: int)
    requires v in a.volumes
    ensures Opened(a, index, d, f, c, v).header == ReadHeader(a, v)
  {
  }

  /** What the search leaves in the descriptor, whether it finds the file or not. */
  ghost function Searched(a: Archive, index: nat, d: Descriptor, f: flags, v: uint16, gap: nat): Entry
    requires Missing(a, gap)
    decreases (gap - v) % 0x1_0000
  {
    if v !in a.volumes then (f, v)
    else
      var f' := FlagsAfter(a, index, d, f, ReadHeader(a, v));
      if ComesLater(a, index, ReadHeader(a, v)) then Searched(a, index, d, f', NextVolume(v), gap) else (f', v)
  }

  lemma SearchShrinks(v: uint16, gap: uint16)
    requires v != gap
    ensures (gap - NextVolume(v)) % 0x1_0000 < (gap - v) % 0x1_0000
    ensures v == 0xFFFF || v <= NextVolume(v)
  {
  }

  /** One step of the search. */
  lemma StartStep(a: Archive, index: nat, d: Descriptor, f: flags, v: uint16, c: Cursor, gap: nat)
    requires Missing(a, gap)
    ensures v !in a.volumes ==> Start(a, index, d, f, v, c, gap) == None && Searched(a, index, d, f, v, gap) == (f, v)
    ensures v in a.volumes ==>
      var h := ReadHeader(a, v);
      var f', c' := FlagsAfter(a, index, d, f, h), Opened(a, index, d, f, c, v);
      && c'.header == h
      && Start(a, index, d, f, v, c, gap)
         == (if ComesLater(a, index, h) then Start(a, index, d, f', NextVolume(v), c', gap) else Some((f', v, c')))
      && Searched(a, index, d, f, v, gap)
         == if ComesLater(a, index, h) then Searched(a, index, d, f', NextVolume(v), gap) else (f', v)
  {
    hide ComesLater, FlagsAfter, ReadHeader, NextVolume;
    if v in a.volumes {
      OpenedHeader(a, index, d, f, c, v);
    }
  }

  /** The search only ever sets the split flag, and does not go back while the last number is free. What
      it leaves in the descriptor when it succeeds is where it ends. */
  lemma {:induction false} StartEvolves(a: Archive, index: nat, d: Descriptor, f: flags, v: uint16, c: Cursor, gap: nat)
    requires Missing(a, gap)
    ensures
      var (f', v') := Searched(a, index, d, f, v, gap);
      Evolves(f, f') && (0xFFFF !in a.volumes ==> v <= v')
    ensures
      match Start(a, index, d, f, v, c, gap)
      case None => true
      case Some((f', v', c')) =>
        && Searched(a, index, d, f, v, gap) == (f', v')
        && v' in a.volumes && c'.header == ReadHeader(a, v') && !ComesLater(a, index, c'.header)
    decreases (gap - v) % 0x1_0000
  {
    hide Evolves, FlagsAfter, Opened, ReadHeader, ComesLater, Start, Searched, NextVolume;
    EvolvesFurther(f, f, f);
    StartStep(a, index, d, f, v, c, gap);
    if v in a.volumes && ComesLater(a, index, ReadHeader(a, v)) {
      var f', c' := FlagsAfter(a, index, d, f, ReadHeader(a, v)), Opened(a, index, d, f, c, v);
      FlagsAfterEvolve(a, index, d, f, ReadHeader(a, v));
      SearchShrinks(v, gap);
      StartEvolves(a, index, d, f', NextVolume(v), c', gap);
      EvolvesFurther(f, f', Searched(a, index, d, f', NextVolume(v), gap).0);
    } else if v in a.volumes {
      FlagsAfterEvolve(a, index, d, f, ReadHeader(a, v));
    }
  }

  /** Starting again from where the search ended ends there at once: with the same pieces ahead, provided
      that the volume has a piece of the file; and with nothing left in front otherwise. */
  lemma {:induction false} StartAgain(a: Archive, index: nat, d: Descriptor, f: flags, v: uint16, c: Cursor, gap: nat)
    requires Missing(a, gap) && Start(a, index, d, f, v, c, gap).Some?
    ensures
      var (f', v', c') := Start(a, index, d, f, v, c, gap).value;
      && Start(a, index, d, f', v', AT_REST, gap)
         == (match Locate(index, d, f', c'.header)
             case Place(_, _) => Some((f', v', c'))
             case Nowhere => Some((f', v', AT_REST.(data := c'.data, pos := c'.pos, header := c'.header))))
      && Searched(a, index, d, f', v', gap) == (f', v')
    decreases (gap - v) % 0x1_0000
  {
    hide FlagsAfter, ReadHeader, ComesLater, Locate, Start, Searched, NextVolume;
    StartStep(a, index, d, f, v, c, gap);
    var h := ReadHeader(a, v);
    FlagsAfterEvolve(a, index, d, f, h);
    var f', c' := FlagsAfter(a, index, d, f, h), Opened(a, index, d, f, c, v);
    if ComesLater(a, index, h) {
      SearchShrinks(v, gap);
      StartAgain(a, index, d, f', NextVolume(v), c', gap);
    } else {
      StartStep(a, index, d, f', v, AT_REST, gap);
    }
  }

  /** A search that goes on does not come back to where it started. */
  lemma {:induction false} SearchMoves(a: Archive, index: nat, d: Descriptor, f: flags, v: uint16, gap: nat)
    requires Missing(a, gap)
    ensures (gap - Searched(a, index, d, f, v, gap).1) % 0x1_0000 <= (gap - v) % 0x1_0000
    ensures Searched(a, index, d, f, v, gap).1 == v && v in a.volumes ==> !ComesLater(a, index, ReadHeader(a, v))
    decreases (gap - v) % 0x1_0000
  {
    hide FlagsAfter, ReadHeader, ComesLater, Start, Searched, NextVolume, Opened;
    StartStep(a, index, d, f, v, AT_REST, gap);
    if v in a.volumes && ComesLater(a, index, ReadHeader(a, v)) {
      SearchShrinks(v, gap);
      SearchMoves(a, index, d, FlagsAfter(a, index, d, f, ReadHeader(a, v)), NextVolume(v), gap);
    }
  }

  /** Starting again from where the search started and ended ends there in the same way. */
  lemma StartHere(a: Archive, index: nat, d: Descriptor, f: flags, v: uint16, gap: nat)
    requires Missing(a, gap) && Start(a, index, d, f, v, AT_REST, gap).Some?
    ensures
      var (f', v', c') := Start(a, index, d, f, v, AT_REST, gap).value;
      v' == v ==> Start(a, index, d, f', v', AT_REST, gap) == Some((f', v', c'))
  {
    hide FlagsAfter, ReadHeader, ComesLater, Start, Searched, NextVolume, Locate;
    StartEvolves(a, index, d, f, v, AT_REST, gap);
    SearchMoves(a, index, d, f, v, gap);
    StartStep(a, index, d, f, v, AT_REST, gap);
    var (f', v', c') := Start(a, index, d, f, v, AT_REST, gap).value;
    if v' == v {
      FlagsAfterEvolve(a, index, d, f, ReadHeader(a, v));
      StartStep(a, index, d, f', v, AT_REST, gap);
    }
  }

  /** `unshield_reader_create`. */
  method Create(archive: Archive, index: nat, fd: FileDescriptor, ghost gap: nat) returns (reader: Reader?)
    requires Missing(archive, gap)
    modifies fd
    ensures
      match Start(archive, index, fd.parsed, old(fd.flags), old(fd.volume), AT_REST, gap)
      case None => reader == null
      case Some((f, v, c)) =>
        && reader != null && fresh(reader)
        && reader.archive == archive && reader.index == index && reader.fd == fd
        && reader.At() == c && reader.obfuscationOffset == 0
    ensures (fd.flags, fd.volume) == Searched(archive, index, fd.parsed, old(fd.flags), old(fd.volume), gap)
  {
    hide FlagsAfter, Opened, ReadHeader, Start, Searched, NextVolume, Missing;
    var r := new Reader(archive, index, fd);
    ghost var d := fd.parsed;
    while true
      invariant Start(archive, index, d, old(fd.flags), old(fd.volume), AT_REST, gap)
             == Start(archive, index, d, fd.flags, fd.volume, r.At(), gap)
      invariant Searched(archive, index, d, old(fd.flags), old(fd.volume), gap)
             == Searched(archive, index, d, fd.flags, fd.volume, gap)
      invariant r.obfuscationOffset == 0
      decreases (gap - fd.volume) % 0x1_0000
    {
      StartStep(archive, index, d, fd.flags, fd.volume, r.At(), gap);
      var ok := r.OpenVolume(fd.volume);
      if !ok {
        return null;
      }
      NotTheGap(archive, fd.volume, gap);
      SearchShrinks(fd.volume, gap);
      if archive.majorVersion <= 5 && index > ToInt32(r.header.lastFileIndex) {
        fd.volume := NextVolume(fd.volume);
      } else {
        return r;
      }
    }
  }

  lemma NotTheGap(a: Archive, v: uint16, gap: nat)
    requires Missing(a, gap) && v in a.volumes
    ensures gap < 0x1_0000 && v != gap
  {
  }
}
