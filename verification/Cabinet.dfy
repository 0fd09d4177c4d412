/**
 What a set of cabinet volumes holds of one file: where each volume says its piece is, and the stream
 of bytes that the pieces make (lib/file.c, lib/cabfile.h).
 */
module Cabinet {
  import opened Bytes
  import opened Obfuscation

  // ----- Descriptors -----

  type flags = bv16

  predicate IsSplit(f: flags) { f & 1 != 0 }
  predicate IsObfuscated(f: flags) { f & 2 != 0 }
  predicate IsCompressed(f: flags) { f & 4 != 0 }
  predicate IsInvalid(f: flags) { f & 8 != 0 }

  function WithSplit(f: flags): flags { f | 1 }

  /** In numbers, the flags are the lowest four binary digits. */
  lemma FlagsInNumbers(f: flags)
    ensures IsSplit(f) <==> f % 2 == 1
    ensures IsObfuscated(f) <==> f / 2 % 2 == 1
    ensures IsCompressed(f) <==> f / 4 % 2 == 1
    ensures IsInvalid(f) <==> f / 8 % 2 == 1
    ensures WithSplit(f) == if f % 2 == 1 then f else f + 1
  {
  }

  /** Everything but the bit that opening a volume may set. */
  function Lasting(f: flags): flags { f & 0xFFFE }

  lemma WithSplitOnly(f: flags)
    ensures IsSplit(WithSplit(f)) && Lasting(WithSplit(f)) == Lasting(f)
    ensures IsSplit(f) ==> WithSplit(f) == f
  {
  }

  /** What opening volumes may do to the flags of a descriptor. */
  predicate Evolves(f: flags, g: flags) {
    Lasting(f) == Lasting(g) && (IsSplit(f) ==> IsSplit(g))
  }

  lemma EvolvesFurther(f: flags, g: flags, h: flags)
    ensures Evolves(f, f)
    ensures Evolves(f, g) && Evolves(g, h) ==> Evolves(f, h)
  {
    hide Lasting, IsSplit;
  }

  lemma EvolvedFlags(f: flags, g: flags)
    requires Evolves(f, g)
    ensures IsObfuscated(f) == IsObfuscated(g)
    ensures IsCompressed(f) == IsCompressed(g)
    ensures IsInvalid(f) == IsInvalid(g)
  {
    hide IsObfuscated, IsCompressed, IsInvalid, IsSplit, Lasting;
    LastingBits(f);
    LastingBits(g);
  }

  lemma LastingBits(f: flags)
    ensures IsObfuscated(f) == IsObfuscated(Lasting(f))
    ensures IsCompressed(f) == IsCompressed(Lasting(f))
    ensures IsInvalid(f) == IsInvalid(Lasting(f))
  {
  }

  /** A file descriptor as parsed from the header. */
  datatype Descriptor = Descriptor(
    flags: flags, expandedSize: uint64, compressedSize: uint64, dataOffset: uint64,
    md5: seq<byte>, volume: uint16, linkPrevious: uint32, linkFlags: bv8)

  /** What of a descriptor saves may change: its flags and its volume. */
  type Entry = (flags, uint16)

  predicate IsLinked(d: Descriptor) { d.linkFlags & 1 != 0 }

  lemma LinkedInNumbers(d: Descriptor)
    ensures IsLinked(d) <==> d.linkFlags % 2 == 1
  {
  }

  // ----- Volumes -----

  datatype VolumeHeader = VolumeHeader(
    firstFileIndex: uint32, lastFileIndex: uint32,
    firstFileOffset: uint32, firstFileSizeExpanded: uint32, firstFileSizeCompressed: uint32,
    lastFileOffset: uint32, lastFileSizeExpanded: uint32, lastFileSizeCompressed: uint32)

  /** A volume that can be opened and whose headers can be read. */
  datatype Volume = Volume(header: VolumeHeader, bytes: seq<byte>)

  datatype Archive = Archive(majorVersion: int, fileCount: uint32, volumes: map<int, Volume>)

  const NO_OFFSET: uint32 := 0x7FFF_FFFF

  /** The header as the reader keeps it: in the old layout no last offset is a very large one. */
  function ReadHeader(a: Archive, v: int): VolumeHeader
    requires v in a.volumes
  {
    var h := a.volumes[v].header;
    if (a.majorVersion == 0 || a.majorVersion == 5) && h.lastFileOffset == 0
    then h.(lastFileOffset := 0x7FFF_FFFF)
    else h
  }

  /** Where the common and the volume header end. */
  function HeaderEnd(a: Archive): nat {
    if a.majorVersion == 0 || a.majorVersion == 5 then 20 + 40 else 20 + 64
  }

  /** The volume shows, in version 5, that the file is split across its edge. */
  predicate ShowsSplit(a: Archive, index: nat, d: Descriptor, h: VolumeHeader) {
    && a.majorVersion == 5
    && (|| (&& index < (a.fileCount - 1) % 0x1_0000_0000
            && index == h.lastFileIndex
            && h.lastFileSizeCompressed != d.compressedSize)
        || (&& index > 0
            && index == h.firstFileIndex
            && h.firstFileSizeCompressed != d.compressedSize))
  }

  function FlagsAfter(a: Archive, index: nat, d: Descriptor, f: flags, h: VolumeHeader): flags {
    if ShowsSplit(a, index, d, h) then WithSplit(f) else f
  }

  /** Where in a volume the file's bytes are, and how many the volume is said to hold. */
  datatype Place = Nowhere | Place(offset: nat, left: uint32)

  function Locate(index: nat, d: Descriptor, f: flags, h: VolumeHeader): Place {
    if IsSplit(f) then
      if index == h.lastFileIndex && h.lastFileOffset != NO_OFFSET then
        Place(h.lastFileOffset, if IsCompressed(f) then h.lastFileSizeCompressed else h.lastFileSizeExpanded)
      else if index == h.firstFileIndex then
        Place(h.firstFileOffset, if IsCompressed(f) then h.firstFileSizeCompressed else h.firstFileSizeExpanded)
      else
        Nowhere
    else
      Place(d.dataOffset, SizeInVolume(d, f))
  }

  /** The size that counts, cut to the 32 bits of the counters that hold it. */
  function SizeInVolume(d: Descriptor, f: flags): uint32 {
    (if IsCompressed(f) then d.compressedSize else d.expandedSize) % 0x1_0000_0000
  }

  lemma FlagsAfterEvolve(a: Archive, index: nat, d: Descriptor, f: flags, h: VolumeHeader)
    ensures Evolves(f, FlagsAfter(a, index, d, f, h))
    ensures IsSplit(f) ==> FlagsAfter(a, index, d, f, h) == f
    ensures FlagsAfter(a, index, d, FlagsAfter(a, index, d, f, h), h) == FlagsAfter(a, index, d, f, h)
  {
    hide IsSplit, Lasting, WithSplit;
    WithSplitOnly(f);
    WithSplitOnly(WithSplit(f));
  }

  // ----- Pieces -----

  /** A piece of the file: the bytes that are there, the number that there should be, and the flags that
      the descriptor has once the piece is open. */
  datatype Extent = Extent(data: seq<byte>, left: nat, flags: flags)

  predicate WellFormed(e: Extent) { |e.data| <= e.left }

  ghost predicate AllWellFormed(es: seq<Extent>) {
    forall i :: 0 <= i < |es| ==> WellFormed(es[i])
  }

  function Cut(bytes: seq<byte>, pos: nat, left: nat): (r: seq<byte>)
    ensures |r| <= left
  {
    if pos >= |bytes| then [] else bytes[pos..Min(pos + left, |bytes|)]
  }

  function ExtentAt(bytes: seq<byte>, pos: nat, left: nat, f: flags): (e: Extent)
    ensures WellFormed(e)
  {
    Extent(Cut(bytes, pos, left), left, f)
  }

  ghost function Beyond(a: Archive, v: int): set<int> {
    set k | k in a.volumes && v <= k
  }

  lemma BeyondShrinks(a: Archive, v: int)
    requires v in a.volumes
    ensures Beyond(a, v + 1) < Beyond(a, v)
  {
    assert v in Beyond(a, v) && v !in Beyond(a, v + 1);
  }

  /** The pieces from volume `v` on, for a reader that comes there with the flags `f`. A volume that says
      nothing of the file can be opened, but there is nothing to read. */
  ghost function Following(a: Archive, index: nat, d: Descriptor, f: flags, v: int): (es: seq<Extent>)
    ensures AllWellFormed(es)
    decreases Beyond(a, v)
  {
    if v !in a.volumes then []
    else
      var h := ReadHeader(a, v);
      var f' := FlagsAfter(a, index, d, f, h);
      match Locate(index, d, f', h)
      case Nowhere => [Extent([], 0, f')]
      case Place(offset, left) =>
        BeyondShrinks(a, v);
        [ExtentAt(a.volumes[v].bytes, offset, left, f')] + Following(a, index, d, f', v + 1)
  }

  // ----- Reading -----

  datatype Option<+T> = None | Some(value: T)

  /** What one read of `n` bytes delivers from the pieces, and what it leaves of them. */
  function Deliver(es: seq<Extent>, n: nat): Option<(seq<byte>, seq<Extent>)> {
    if es == [] then None
    else
      var e := es[0];
      var k := Min(n, e.left);
      if k == 0 || k > |e.data| then None
      else if k == n then Some((e.data[..n], [Extent(e.data[n..], e.left - n, e.flags)] + es[1..]))
      else
        match Deliver(es[1..], n - k)
        case None => None
        case Some(rest) => Some((e.data[..k] + rest.0, rest.1))
  }

  /** The stream that the pieces make: it goes on behind a piece only if that is complete and the next
      one is not empty. */
  function Stream(es: seq<Extent>): seq<byte> {
    if es == [] then []
    else es[0].data + (if |es[0].data| == es[0].left && |es| > 1 && es[1].left > 0 then Stream(es[1..]) else [])
  }

  /** A read starts in the middle of a piece, not behind its end. */
  predicate Positioned(es: seq<Extent>) {
    es != [] && es[0].left > 0
  }

  /** A read of `n` bytes succeeds exactly when it is not started at the end of a piece and the stream
      still has `n` bytes, and then it delivers those. */
  lemma {:induction false} DeliverIsStream(es: seq<Extent>, n: nat)
    requires AllWellFormed(es)
    ensures Deliver(es, n).Some? <==> n > 0 && Positioned(es) && n <= |Stream(es)|
    ensures Deliver(es, n).Some? ==>
      var (bytes, es') := Deliver(es, n).value;
      && bytes == Stream(es)[..n] && Stream(es') == Stream(es)[n..]
      && es' != [] && AllWellFormed(es')
  {
    if es != [] {
      var e := es[0];
      var k := Min(n, e.left);
      if k == 0 || k > |e.data| {
      } else if k == n {
        DeliverWithin(es, n);
      } else {
        DeliverIsStream(es[1..], n - k);
        DeliverAcross(es, n);
      }
    }
  }

  lemma DeliverWithin(es: seq<Extent>, n: nat)
    requires AllWellFormed(es) && es != [] && 0 < n <= |es[0].data|
    ensures
      var es' := [Extent(es[0].data[n..], es[0].left - n, es[0].flags)] + es[1..];
      n <= |Stream(es)| && es[0].data[..n] == Stream(es)[..n] && Stream(es') == Stream(es)[n..] && AllWellFormed(es')
  {
    var es' := [Extent(es[0].data[n..], es[0].left - n, es[0].flags)] + es[1..];
    assert es'[1..] == es[1..];
  }

  lemma DeliverAcross(es: seq<Extent>, n: nat)
    requires es != [] && 0 < es[0].left == |es[0].data| < n
    ensures n <= |Stream(es)| <==> Positioned(es[1..]) && n - es[0].left <= |Stream(es[1..])|
    ensures Positioned(es[1..]) ==> Stream(es) == es[0].data + Stream(es[1..])
  {
  }

  /** The flags that a read of `n` bytes leaves in the descriptor, whether it succeeds or not: those of
      the last piece that it opens. */
  function Reached(es: seq<Extent>, n: nat): flags
    requires es != []
  {
    var e := es[0];
    var k := Min(n, e.left);
    if k == 0 || k > |e.data| || k == n || |es| == 1 then e.flags else Reached(es[1..], n - k)
  }

  lemma {:induction false} DeliverReaches(es: seq<Extent>, n: nat)
    requires es != [] && Deliver(es, n).Some?
    ensures Deliver(es, n).value.1 != [] && Deliver(es, n).value.1[0].flags == Reached(es, n)
  {
    if n > es[0].left {
      DeliverReaches(es[1..], n - es[0].left);
    }
  }

  // ----- Reading in plain -----

  /** What a reader still has in front of it: the pieces, and the seed for the next byte. */
  datatype Source = Source(pieces: seq<Extent>, seed: uint32)

  predicate Ready(s: Source) {
    Positioned(s.pieces)
  }

  ghost predicate Sound(s: Source) {
    AllWellFormed(s.pieces)
  }

  /** One read of `n` bytes, with the obfuscation removed if there is any. */
  function Take(s: Source, obfuscated: bool, n: nat): Option<(seq<byte>, Source)> {
    match Deliver(s.pieces, n)
    case None => None
    case Some((bytes, pieces)) =>
      if obfuscated then Some((Plain(bytes, s.seed), Source(pieces, SeedAt(s.seed, |bytes|))))
      else Some((bytes, Source(pieces, s.seed)))
  }

  /** All that can still come, in plain. */
  function PlainStream(s: Source, obfuscated: bool): (r: seq<byte>)
    ensures |r| == |Stream(s.pieces)|
  {
    if obfuscated then Plain(Stream(s.pieces), s.seed) else Stream(s.pieces)
  }

  lemma PlainCut(s: seq<byte>, n: nat, seed: uint32)
    requires n <= |s|
    ensures Plain(s[..n], seed) == Plain(s, seed)[..n]
    ensures Plain(s[n..], SeedAt(seed, n)) == Plain(s, seed)[n..]
  {
    hide SeedAt, PlainByte;
    assert s == s[..n] + s[n..];
    PlainSplit(s[..n], s[n..], seed);
  }

  lemma TakeIsStream(s: Source, obfuscated: bool, n: nat)
    requires Sound(s)
    ensures Take(s, obfuscated, n).Some? <==> n > 0 && Ready(s) && n <= |PlainStream(s, obfuscated)|
    ensures Take(s, obfuscated, n).Some? ==>
      var (bytes, s') := Take(s, obfuscated, n).value;
      && bytes == PlainStream(s, obfuscated)[..n]
      && PlainStream(s', obfuscated) == PlainStream(s, obfuscated)[n..]
      && Sound(s') && s'.pieces != []
  {
    hide Stream, Plain, SeedAt;
    DeliverIsStream(s.pieces, n);
    if n <= |Stream(s.pieces)| {
      PlainCut(Stream(s.pieces), n, s.seed);
    }
  }

  /** A run of reads, one after the other. */
  function TakeAll(s: Source, obfuscated: bool, sizes: seq<nat>): Option<(seq<seq<byte>>, Source)>
    decreases |sizes|
  {
    if sizes == [] then Some(([], s))
    else
      match Take(s, obfuscated, sizes[0])
      case None => None
      case Some((bytes, s')) =>
        match TakeAll(s', obfuscated, sizes[1..])
        case None => None
        case Some((rest, s'')) => Some(([bytes] + rest, s''))
  }

  lemma PrefixGrows(stream: seq<byte>, n: nat, rest: seq<byte>)
    requires n <= |stream| && rest <= stream[n..]
    ensures stream[..n] + rest <= stream
    ensures stream[|stream[..n] + rest|..] == stream[n..][|rest|..]
  {
  }

  /** Whatever the sizes, a run of successful reads delivers a prefix of the stream in order. */
  lemma {:induction false} RunIsPrefix(s: Source, obfuscated: bool, sizes: seq<nat>)
    requires Sound(s) && TakeAll(s, obfuscated, sizes).Some?
    ensures
      var (parts, s') := TakeAll(s, obfuscated, sizes).value;
      && |parts| == |sizes| && (forall i :: 0 <= i < |sizes| ==> |parts[i]| == sizes[i])
      && Flatten(parts) <= PlainStream(s, obfuscated)
      && PlainStream(s', obfuscated) == PlainStream(s, obfuscated)[|Flatten(parts)|..]
    decreases |sizes|
  {
    if sizes != [] {
      hide Take, PlainStream, Sound;
      TakeIsStream(s, obfuscated, sizes[0]);
      var (bytes, s1) := Take(s, obfuscated, sizes[0]).value;
      RunIsPrefix(s1, obfuscated, sizes[1..]);
      var (rest, s2) := TakeAll(s1, obfuscated, sizes[1..]).value;
      FlattenFirst(bytes, rest);
      hide Flatten;
      PrefixGrows(PlainStream(s, obfuscated), sizes[0], Flatten(rest));
    }
  }

  lemma FlattenFirst(first: seq<byte>, rest: seq<seq<byte>>)
    ensures Flatten([first] + rest) == first + Flatten(rest)
  {
    assert ([first] + rest)[1..] == rest;
  }

  lemma TakeReaches(s: Source, obfuscated: bool, n: nat)
    requires s.pieces != [] && Take(s, obfuscated, n).Some?
    ensures
      var s' := Take(s, obfuscated, n).value.1;
      s'.pieces != [] && s'.pieces[0].flags == Reached(s.pieces, n)
  {
    hide Deliver, Reached;
    DeliverReaches(s.pieces, n);
  }
}
