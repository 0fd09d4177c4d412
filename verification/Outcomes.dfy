/**
 What saving one file comes to, as a function of the volumes and of the descriptor's state (lib/file.c).
 */
module Outcomes {
  import opened Bytes
  import opened Cabinet
  import opened Reader
  import opened SaveLoops
  import Md5

  /** The stream that a save of the file reads from, and the flags that the descriptor has by then. */
  ghost function Begin(a: Archive, index: nat, d: Descriptor, f: flags, v: uint16, gap: nat): Option<(Source, flags)>
    requires Missing(a, gap)
    ensures
      Begin(a, index, d, f, v, gap).Some? ==>
        var (s, f') := Begin(a, index, d, f, v, gap).value;
        Sound(s) && s.pieces != [] && s.pieces[0].flags == f'
  {
    if IsInvalid(f) || d.dataOffset == 0 then None
    else
      match Start(a, index, d, f, v, AT_REST, gap)
      case None => None
      case Some((f', v', c)) =>
        if |c.data| == d.dataOffset then None
        else Some((Source(PiecesFrom(a, index, d, f', c), 0), f'))
  }

  // ----- The loop of `unshield_file_save` -----

  /** One round of the loop: what it writes, what it leaves of the source and of the counter. */
  ghost function Round(s: Source, obfuscated: bool, compressed: bool, left: uint32, inflate: Inflater)
    : Option<(seq<byte>, Source, uint32)>
    requires Sound(s)
    ensures
      Round(s, obfuscated, compressed, left, inflate).Some? ==>
        var s' := Round(s, obfuscated, compressed, left, inflate).value.1;
        Sound(s') && s'.pieces != []
  {
    if compressed then
      TakeIsStream(s, obfuscated, 2);
      match Take(s, obfuscated, 2)
      case None => None
      case Some((length, s1)) =>
        var n := ReadUint16(length);
        TakeIsStream(s1, obfuscated, n);
        match Take(s1, obfuscated, n)
        case None => None
        case Some((payload, s2)) =>
          match inflate(payload + [0])
          case None => None
          case Some(bytes) => Some((bytes, s2, Minus32(Minus32(left, 2), n)))
    else
      var n := Min(left, 0x1_0000);
      TakeIsStream(s, obfuscated, n);
      match Take(s, obfuscated, n)
      case None => None
      case Some((bytes, s')) => Some((bytes, s', left - n))
  }

  /** What the whole loop writes. */
  ghost function Saved(s: Source, obfuscated: bool, compressed: bool, left: uint32, inflate: Inflater)
    : Option<seq<byte>>
    requires Sound(s)
  {
    if compressed then
      match Frames(s, obfuscated, left, inflate)
      case None => None
      case Some(fs) => Some(SaveLoops.Inflated(fs, inflate))
    else Copied(s, obfuscated, left)
  }

  function Prefixed(bytes: seq<byte>, more: Option<seq<byte>>): Option<seq<byte>> {
    match more
    case None => None
    case Some(rest) => Some(bytes + rest)
  }

  lemma SavedRound(s: Source, obfuscated: bool, compressed: bool, left: uint32, inflate: Inflater)
    requires Sound(s)
    ensures left == 0 ==> Saved(s, obfuscated, compressed, left, inflate) == Some([])
    ensures left != 0 ==>
      Saved(s, obfuscated, compressed, left, inflate)
      == match Round(s, obfuscated, compressed, left, inflate)
         case None => None
         case Some((bytes, s', left')) => Prefixed(bytes, Saved(s', obfuscated, compressed, left', inflate))
  {
    hide Take, PlainStream, Sound, ReadUint16, Minus32;
    if compressed && left != 0 && Round(s, obfuscated, compressed, left, inflate).Some? {
      NothingTaken(Take(s, obfuscated, 2).value.1, obfuscated);
      var (bytes, s', left') := Round(s, obfuscated, compressed, left, inflate).value;
      if Frames(s', obfuscated, left', inflate).Some? {
        var rest := Frames(s', obfuscated, left', inflate).value;
        var fs := Frames(s, obfuscated, left, inflate).value;
        assert fs[1..] == rest;
      }
    }
  }

  lemma NothingTaken(s: Source, obfuscated: bool)
    ensures Take(s, obfuscated, 0) == None
  {
  }

  /** Every round that does not give up brings the end of the stream nearer. */
  lemma RoundShrinks(s: Source, obfuscated: bool, compressed: bool, left: uint32, inflate: Inflater)
    requires Sound(s) && Round(s, obfuscated, compressed, left, inflate).Some?
    ensures |PlainStream(Round(s, obfuscated, compressed, left, inflate).value.1, obfuscated)|
          < |PlainStream(s, obfuscated)|
  {
    hide Take, PlainStream, Sound, ReadUint16;
    if compressed {
      TakeIsStream(s, obfuscated, 2);
      var (length, s1) := Take(s, obfuscated, 2).value;
      TakeIsStream(s1, obfuscated, ReadUint16(length));
    } else {
      TakeIsStream(s, obfuscated, Min(left, 0x1_0000));
    }
  }

  // ----- Saves -----

  /** The checks at the end of `unshield_file_save`. */
  ghost predicate Checks(majorVersion: int, d: Descriptor, output: seq<byte>) {
    && |output| % 0x1_0000_0000_0000_0000 == d.expandedSize
    && (majorVersion >= 6 ==> Md5.Digest(output) == d.md5)
  }

  /** `unshield_file_save` of a file that is not linked: what it writes when it succeeds. */
  ghost function SaveOutcome(a: Archive, index: nat, d: Descriptor, f: flags, v: uint16, gap: nat, inflate: Inflater)
    : Option<seq<byte>>
    requires Missing(a, gap)
  {
    match Begin(a, index, d, f, v, gap)
    case None => None
    case Some((s, f')) =>
      match Saved(s, IsObfuscated(f'), IsCompressed(f'), SizeInVolume(d, f'), inflate)
      case None => None
      case Some(output) =>
        if Checks(a.majorVersion, d, output) then Some(output) else None
  }

  /** `unshield_file_save_raw` of a file that is not linked. */
  ghost function RawOutcome(a: Archive, index: nat, d: Descriptor, f: flags, v: uint16, gap: nat): Option<seq<byte>>
    requires Missing(a, gap)
  {
    match Begin(a, index, d, f, v, gap)
    case None => None
    case Some((s, f')) => Copied(s, IsObfuscated(f'), SizeInVolume(d, f'))
  }

  /** A save that succeeds has written the whole file: as many bytes as the descriptor says, with the
      digest that it says from version 6 on; for a compressed file what the frames at the front of the
      plain stream inflate to, and else the front of the plain stream itself. */
  lemma SaveIsWhole(a: Archive, index: nat, d: Descriptor, f: flags, v: uint16, gap: nat, inflate: Inflater)
    returns (fs: seq<Frame>)
    requires Missing(a, gap) && SaveOutcome(a, index, d, f, v, gap, inflate).Some?
    ensures
      var output := SaveOutcome(a, index, d, f, v, gap, inflate).value;
      && |output| % 0x1_0000_0000_0000_0000 == d.expandedSize
      && (a.majorVersion >= 6 ==> Md5.Digest(output) == d.md5)
    ensures
      var output := SaveOutcome(a, index, d, f, v, gap, inflate).value;
      var (s, f') := Begin(a, index, d, f, v, gap).value;
      var stream, left := PlainStream(s, IsObfuscated(f')), SizeInVolume(d, f');
      if IsCompressed(f') then
        && ValidFrames(fs, inflate) && Joined(fs) <= stream && |Joined(fs)| % 0x1_0000_0000 == left
        && output == SaveLoops.Inflated(fs, inflate)
      else
        left <= |stream| && output == stream[..left]
  {
    hide IsObfuscated, IsCompressed, PlainStream, Joined, ValidFrames, SizeInVolume, Md5.Digest, Begin;
    fs := [];
    var (s, f') := Begin(a, index, d, f, v, gap).value;
    if IsCompressed(f') {
      fs := Frames(s, IsObfuscated(f'), SizeInVolume(d, f'), inflate).value;
      FramesAreStream(s, IsObfuscated(f'), SizeInVolume(d, f'), inflate);
    } else {
      CopiedIsStream(s, IsObfuscated(f'), SizeInVolume(d, f'));
    }
  }
}
