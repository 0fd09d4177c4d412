/**
 What a save leaves in the descriptor of its file, and what that means for the next save of it
 (lib/file.c).
 */
module Leaves {
  import opened Bytes
  import opened Cabinet
  import opened Reader
  import opened SaveLoops
  import opened Outcomes
  import opened OldSaves
  import Unpacking

  // ----- Where the output goes -----

  /** The output is thrown away, or goes into a file that may not open and has room for so much only. */
  datatype Sink = Discarded | Into(openable: bool, room: nat)

  predicate Opens(sink: Sink) {
    sink.Discarded? || sink.openable
  }

  function RoomIn(sink: Sink): Option<nat> {
    if sink.Discarded? then None else Some(sink.room)
  }

  predicate Fits(n: nat, room: Option<nat>) {
    room.None? || n <= room.value
  }

  function Less(room: Option<nat>, n: nat): Option<nat>
    requires Fits(n, room)
  {
    if room.None? then None else Some(room.value - n)
  }

  // ----- The flags that the loops leave -----

  /** The flags after one round, whether it gives up or not. */
  ghost function RoundReached(s: Source, obfuscated: bool, compressed: bool, left: uint32): flags
    requires Sound(s) && s.pieces != []
  {
    if compressed then
      TakeIsStream(s, obfuscated, 2);
      match Take(s, obfuscated, 2)
      case None => Reached(s.pieces, 2)
      case Some((length, s1)) => Reached(s1.pieces, ReadUint16(length))
    else Reached(s.pieces, Min(left, 0x1_0000))
  }

  /** The flags after the loop: it ends where the counter is zero, where a round gives up, and where the
      output has no more room. */
  ghost function LoopReached(s: Source, obfuscated: bool, compressed: bool, left: uint32, inflate: Inflater,
                             room: Option<nat>): flags
    requires Sound(s) && s.pieces != []
    decreases |PlainStream(s, obfuscated)|
  {
    if left == 0 then s.pieces[0].flags
    else
      match Round(s, obfuscated, compressed, left, inflate)
      case None => RoundReached(s, obfuscated, compressed, left)
      case Some((bytes, s', left')) =>
        RoundShrinks(s, obfuscated, compressed, left, inflate);
        if Fits(|bytes|, room) then LoopReached(s', obfuscated, compressed, left', inflate, Less(room, |bytes|))
        else s'.pieces[0].flags
  }

  lemma RoundReaches(s: Source, obfuscated: bool, compressed: bool, left: uint32, inflate: Inflater)
    requires Sound(s) && s.pieces != [] && Round(s, obfuscated, compressed, left, inflate).Some?
    ensures Round(s, obfuscated, compressed, left, inflate).value.1.pieces[0].flags
         == RoundReached(s, obfuscated, compressed, left)
  {
    hide Take, Reached, ReadUint16, Sound;
    if compressed {
      TakeIsStream(s, obfuscated, 2);
      var (length, s1) := Take(s, obfuscated, 2).value;
      TakeIsStream(s1, obfuscated, ReadUint16(length));
      TakeReaches(s1, obfuscated, ReadUint16(length));
    } else {
      TakeIsStream(s, obfuscated, Min(left, 0x1_0000));
      TakeReaches(s, obfuscated, Min(left, 0x1_0000));
    }
  }

  lemma LoopStep(s: Source, obfuscated: bool, compressed: bool, left: uint32, inflate: Inflater, room: Option<nat>)
    requires Sound(s) && s.pieces != []
    ensures left == 0 ==> LoopReached(s, obfuscated, compressed, left, inflate, room) == s.pieces[0].flags
    ensures left != 0 ==>
      var reached, round := LoopReached(s, obfuscated, compressed, left, inflate, room),
                            Round(s, obfuscated, compressed, left, inflate);
      if round.Some? && Fits(|round.value.0|, room) then
        reached == LoopReached(round.value.1, obfuscated, compressed, round.value.2, inflate,
                               Less(room, |round.value.0|))
      else reached == RoundReached(s, obfuscated, compressed, left)
  {
    hide Round, RoundReached, Sound;
    if left != 0 && Round(s, obfuscated, compressed, left, inflate).Some? {
      RoundReaches(s, obfuscated, compressed, left, inflate);
    }
  }

  /** Room that a round does not use is there for what follows, and where a round needs more than there is, the
      loop ends with it. */
  lemma RoomUsed(s: Source, obfuscated: bool, compressed: bool, left: uint32, inflate: Inflater, r: nat)
    requires Sound(s) && s.pieces != [] && left != 0 && Round(s, obfuscated, compressed, left, inflate).Some?
    ensures
      var (bytes, s', left') := Round(s, obfuscated, compressed, left, inflate).value;
      && LoopReached(s, obfuscated, compressed, left, inflate, Some(|bytes| + r))
         == LoopReached(s', obfuscated, compressed, left', inflate, Some(r))
      && (r < |bytes| ==>
            LoopReached(s, obfuscated, compressed, left, inflate, Some(r))
            == RoundReached(s, obfuscated, compressed, left))
  {
    hide Round, RoundReached, Sound;
    var bytes := Round(s, obfuscated, compressed, left, inflate).value.0;
    LoopStep(s, obfuscated, compressed, left, inflate, Some(|bytes| + r));
    LoopStep(s, obfuscated, compressed, left, inflate, Some(r));
    hide LoopReached;
  }

  /** Room for all that is saved is as good as output that is thrown away. */
  lemma {:induction false} RoomEnough(s: Source, obfuscated: bool, compressed: bool, left: uint32, inflate: Inflater,
                                      room: nat)
    requires Sound(s) && s.pieces != [] && Saved(s, obfuscated, compressed, left, inflate).Some?
    requires |Saved(s, obfuscated, compressed, left, inflate).value| <= room
    ensures LoopReached(s, obfuscated, compressed, left, inflate, Some(room))
         == LoopReached(s, obfuscated, compressed, left, inflate, None)
    decreases |PlainStream(s, obfuscated)|
  {
    hide Round, RoundReached, Saved, Sound, PlainStream;
    if left != 0 {
      SavedRound(s, obfuscated, compressed, left, inflate);
      RoundShrinks(s, obfuscated, compressed, left, inflate);
      var (bytes, s', left') := Round(s, obfuscated, compressed, left, inflate).value;
      RoomUsed(s, obfuscated, compressed, left, inflate, room - |bytes|);
      LoopStep(s, obfuscated, compressed, left, inflate, None);
      RoomEnough(s', obfuscated, compressed, left', inflate, room - |bytes|);
    }
    hide LoopReached;
  }

  /** Nothing is inflated by a raw save. */
  function NotInflated(s: seq<byte>): Option<seq<byte>> {
    None
  }

  /** The flags after what the loop for old cabinets reads at once. */
  ghost function ReadReached(s: Source, compressed: bool, left: uint32): flags
    requires s.pieces != []
  {
    Reached(s.pieces, if compressed then s.pieces[0].left else Min(left, 0x1_0000))
  }

  /** The flags after one round of the loop for old cabinets, whether it gives up or not. */
  ghost function OldReached(s: Source, compressed: bool, left: uint32): flags
    requires s.pieces != []
  {
    if Reopened(s).pieces == [] then s.pieces[0].flags else ReadReached(Reopened(s), compressed, left)
  }

  ghost function OldLoopReached(s: Source, obfuscated: bool, compressed: bool, left: uint32,
                                inflate: Unpacking.OldInflater, room: Option<nat>): flags
    requires Sound(s) && s.pieces != []
    decreases |PlainStream(s, obfuscated)|
  {
    if left == 0 then s.pieces[0].flags
    else
      match OldRound(s, obfuscated, compressed, left, inflate)
      case None => OldReached(s, compressed, left)
      case Some((bytes, s', left')) =>
        OldRoundShrinks(s, obfuscated, compressed, left, inflate);
        if Fits(|bytes|, room) then OldLoopReached(s', obfuscated, compressed, left', inflate, Less(room, |bytes|))
        else s'.pieces[0].flags
  }

  lemma OldRoundReaches(s: Source, obfuscated: bool, compressed: bool, left: uint32, inflate: Unpacking.OldInflater)
    requires Sound(s) && s.pieces != [] && OldRound(s, obfuscated, compressed, left, inflate).Some?
    ensures OldRound(s, obfuscated, compressed, left, inflate).value.1.pieces[0].flags
         == OldReached(s, compressed, left)
  {
    hide Take, Reached, Sound, Unpacking.Unpacked;
    var s1 := Reopened(s);
    TakeReaches(s1, obfuscated, if compressed then s1.pieces[0].left else Min(left, 0x1_0000));
  }

  lemma OldLoopStep(s: Source, obfuscated: bool, compressed: bool, left: uint32, inflate: Unpacking.OldInflater,
                    room: Option<nat>)
    requires Sound(s) && s.pieces != []
    ensures left == 0 ==> OldLoopReached(s, obfuscated, compressed, left, inflate, room) == s.pieces[0].flags
    ensures left != 0 ==>
      var reached, round := OldLoopReached(s, obfuscated, compressed, left, inflate, room),
                            OldRound(s, obfuscated, compressed, left, inflate);
      if round.Some? && Fits(|round.value.0|, room) then
        reached == OldLoopReached(round.value.1, obfuscated, compressed, round.value.2, inflate,
                                  Less(room, |round.value.0|))
      else reached == OldReached(s, compressed, left)
  {
    hide OldRound, OldReached, Sound;
    if left != 0 && OldRound(s, obfuscated, compressed, left, inflate).Some? {
      OldRoundReaches(s, obfuscated, compressed, left, inflate);
    }
  }

  lemma OldRoomUsed(s: Source, obfuscated: bool, compressed: bool, left: uint32, inflate: Unpacking.OldInflater, r: nat)
    requires Sound(s) && s.pieces != [] && left != 0 && OldRound(s, obfuscated, compressed, left, inflate).Some?
    ensures
      var (bytes, s', left') := OldRound(s, obfuscated, compressed, left, inflate).value;
      && OldLoopReached(s, obfuscated, compressed, left, inflate, Some(|bytes| + r))
         == OldLoopReached(s', obfuscated, compressed, left', inflate, Some(r))
      && (r < |bytes| ==>
            OldLoopReached(s, obfuscated, compressed, left, inflate, Some(r)) == OldReached(s, compressed, left))
  {
    hide OldRound, OldReached, Sound;
    var bytes := OldRound(s, obfuscated, compressed, left, inflate).value.0;
    OldLoopStep(s, obfuscated, compressed, left, inflate, Some(|bytes| + r));
    OldLoopStep(s, obfuscated, compressed, left, inflate, Some(r));
    hide OldLoopReached;
  }

  // ----- The entry that a save leaves -----

  /** `unshield_file_save` of a file that is not linked. */
  ghost function SaveLeaves(a: Archive, index: nat, d: Descriptor, f: flags, v: uint16, gap: nat, inflate: Inflater,
                            sink: Sink): Entry
    requires Missing(a, gap)
  {
    if IsInvalid(f) || d.dataOffset == 0 then (f, v)
    else
      var (f', v') := Searched(a, index, d, f, v, gap);
      match Begin(a, index, d, f, v, gap)
      case None => (f', v')
      case Some((s, _)) =>
        if !Opens(sink) then (f', v')
        else
          (LoopReached(s, IsObfuscated(f'), IsCompressed(f'), SizeInVolume(d, f'), inflate, RoomIn(sink)), v')
  }

  /** `unshield_file_save_raw` of a file that is not linked. */
  ghost function RawLeaves(a: Archive, index: nat, d: Descriptor, f: flags, v: uint16, gap: nat, sink: Sink): Entry
    requires Missing(a, gap)
  {
    if IsInvalid(f) || d.dataOffset == 0 then (f, v)
    else
      var (f', v') := Searched(a, index, d, f, v, gap);
      match Begin(a, index, d, f, v, gap)
      case None => (f', v')
      case Some((s, _)) =>
        if !Opens(sink) then (f', v')
        else (LoopReached(s, IsObfuscated(f'), false, SizeInVolume(d, f'), NotInflated, RoomIn(sink)), v')
  }

  /** `unshield_file_save_old` of a file that is not linked. */
  ghost function OldLeaves(a: Archive, index: nat, d: Descriptor, f: flags, v: uint16, gap: nat,
                           external: Option<seq<byte>>, inflate: Unpacking.OldInflater, sink: Sink): Entry
    requires Missing(a, gap)
  {
    if IsInvalid(f) || d.dataOffset == 0 then (f, v)
    else
      var (f', v') := Searched(a, index, d, f, v, gap);
      match OldBegin(a, index, d, f, v, gap, external)
      case None => (f', v')
      case Some((s, _)) =>
        if !Opens(sink) then (f', v')
        else
          (OldLoopReached(s, IsObfuscated(f'), IsCompressed(f'), d.expandedSize % 0x1_0000_0000, inflate,
                          RoomIn(sink)), v')
  }

  lemma OldBeginSearched(a: Archive, index: nat, d: Descriptor, f: flags, v: uint16, gap: nat,
                         external: Option<seq<byte>>)
    requires Missing(a, gap)
    ensures
      var begin := OldBegin(a, index, d, f, v, gap, external);
      begin.Some? ==> begin.value.1 == Searched(a, index, d, f, v, gap).0
  {
    hide Start, Searched, IsInvalid, Evolves, PiecesFrom;
    StartEvolves(a, index, d, f, v, AT_REST, gap);
  }

  lemma BeginSearched(a: Archive, index: nat, d: Descriptor, f: flags, v: uint16, gap: nat)
    requires Missing(a, gap)
    ensures
      var begin := Begin(a, index, d, f, v, gap);
      begin.Some? ==> begin.value.1 == Searched(a, index, d, f, v, gap).0
  {
    hide Start, Searched, IsInvalid, Evolves, PiecesFrom;
    StartEvolves(a, index, d, f, v, AT_REST, gap);
  }
}
