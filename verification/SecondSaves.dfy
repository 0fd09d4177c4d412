/**
 What a second save of a file comes to, from the entry that the first has left (lib/file.c).
 */
module SecondSaves {
  import opened Bytes
  import opened Cabinet
  import opened Reader
  import opened SaveLoops
  import opened Outcomes
  import opened Leaves
  import opened OldSaves
  import Unpacking

  // ----- When reading on changes nothing -----

  ghost predicate AllFlags(es: seq<Extent>, f: flags) {
    forall i :: 0 <= i < |es| ==> es[i].flags == f
  }

  /** Opening volumes from `v` on changes nothing more in the flags. */
  ghost predicate Settled(a: Archive, index: nat, d: Descriptor, f: flags, v: int) {
    IsSplit(f) || forall k :: k in a.volumes && v <= k ==> !ShowsSplit(a, index, d, ReadHeader(a, k))
  }

  lemma SettledStep(a: Archive, index: nat, d: Descriptor, f: flags, v: int)
    requires Settled(a, index, d, f, v) && v in a.volumes
    ensures FlagsAfter(a, index, d, f, ReadHeader(a, v)) == f && Settled(a, index, d, f, v + 1)
  {
    hide IsSplit, ReadHeader, WithSplit;
    FlagsAfterEvolve(a, index, d, f, ReadHeader(a, v));
    hide ShowsSplit;
  }

  lemma FollowingStep(a: Archive, index: nat, d: Descriptor, f: flags, v: int)
    requires v in a.volumes && FlagsAfter(a, index, d, f, ReadHeader(a, v)) == f
    ensures
      var es := Following(a, index, d, f, v);
      es != [] && es[0].flags == f && (es[1..] == [] || es[1..] == Following(a, index, d, f, v + 1))
  {
    hide FlagsAfter, ReadHeader, Locate;
  }

  lemma {:induction false} SettledFlags(a: Archive, index: nat, d: Descriptor, f: flags, v: int)
    requires Settled(a, index, d, f, v)
    ensures AllFlags(Following(a, index, d, f, v), f)
    decreases Beyond(a, v)
  {
    if v in a.volumes {
      SettledStep(a, index, d, f, v);
      FollowingStep(a, index, d, f, v);
      BeyondShrinks(a, v);
      SettledFlags(a, index, d, f, v + 1);
      hide Following, Settled, FlagsAfter, ReadHeader;
      var es := Following(a, index, d, f, v);
      assert forall i :: 0 < i < |es| ==> es[i] == es[1..][i - 1];
    }
  }

  lemma {:induction false} ReachedFlags(es: seq<Extent>, n: nat, f: flags)
    requires es != [] && AllFlags(es, f)
    ensures Reached(es, n) == f
  {
    if |es| > 1 && n > es[0].left {
      ReachedFlags(es[1..], n - es[0].left, f);
    }
  }

  lemma {:induction false} DeliverFlags(es: seq<Extent>, n: nat, f: flags)
    requires AllFlags(es, f) && Deliver(es, n).Some?
    ensures AllFlags(Deliver(es, n).value.1, f)
  {
    if n > es[0].left {
      DeliverFlags(es[1..], n - es[0].left, f);
    }
  }

  lemma TakeFlags(s: Source, obfuscated: bool, n: nat, f: flags)
    requires AllFlags(s.pieces, f) && Take(s, obfuscated, n).Some?
    ensures AllFlags(Take(s, obfuscated, n).value.1.pieces, f)
  {
    hide Deliver, AllFlags;
    DeliverFlags(s.pieces, n, f);
  }

  lemma RoundFlags(s: Source, obfuscated: bool, compressed: bool, left: uint32, inflate: Inflater, f: flags)
    requires Sound(s) && s.pieces != [] && AllFlags(s.pieces, f)
    ensures RoundReached(s, obfuscated, compressed, left) == f
    ensures
      var round := Round(s, obfuscated, compressed, left, inflate);
      round.Some? ==> AllFlags(round.value.1.pieces, f)
  {
    hide Take, Reached, AllFlags, Sound, ReadUint16, PlainStream;
    if compressed {
      ReachedFlags(s.pieces, 2, f);
      TakeIsStream(s, obfuscated, 2);
      if Take(s, obfuscated, 2).Some? {
        var (length, s1) := Take(s, obfuscated, 2).value;
        var n := ReadUint16(length);
        TakeFlags(s, obfuscated, 2, f);
        ReachedFlags(s1.pieces, n, f);
        TakeIsStream(s1, obfuscated, n);
        if Take(s1, obfuscated, n).Some? {
          TakeFlags(s1, obfuscated, n, f);
        }
      }
    } else {
      var n := Min(left, 0x1_0000);
      ReachedFlags(s.pieces, n, f);
      TakeIsStream(s, obfuscated, n);
      if Take(s, obfuscated, n).Some? {
        TakeFlags(s, obfuscated, n, f);
      }
    }
  }

  lemma FirstFlags(es: seq<Extent>, f: flags)
    requires es != [] && AllFlags(es, f)
    ensures es[0].flags == f
  {
  }

  /** Where all pieces have the same flags, the loop leaves those, however it ends. */
  lemma {:induction false} LoopFlags(s: Source, obfuscated: bool, compressed: bool, left: uint32, inflate: Inflater,
                                     room: Option<nat>, f: flags)
    requires Sound(s) && s.pieces != [] && AllFlags(s.pieces, f)
    ensures LoopReached(s, obfuscated, compressed, left, inflate, room) == f
    decreases |PlainStream(s, obfuscated)|
  {
    hide Round, RoundReached, LoopReached, AllFlags, Sound, PlainStream;
    FirstFlags(s.pieces, f);
    LoopStep(s, obfuscated, compressed, left, inflate, room);
    RoundFlags(s, obfuscated, compressed, left, inflate, f);
    var round := Round(s, obfuscated, compressed, left, inflate);
    if left != 0 && round.Some? {
      var (bytes, s', left') := round.value;
      RoundShrinks(s, obfuscated, compressed, left, inflate);
      if Fits(|bytes|, room) {
        LoopFlags(s', obfuscated, compressed, left', inflate, Less(room, |bytes|), f);
      }
    }
  }

  // ----- When the first piece is enough -----

  /** A read within the first piece opens no other. */
  lemma TakeWithin(s: Source, obfuscated: bool, n: nat)
    requires s.pieces != [] && n <= s.pieces[0].left
    ensures Reached(s.pieces, n) == s.pieces[0].flags
    ensures Take(s, obfuscated, n).Some? ==>
      var es := Take(s, obfuscated, n).value.1.pieces;
      es != [] && es[0].left == s.pieces[0].left - n && es[0].flags == s.pieces[0].flags
  {
  }

  /** An uncompressed file that the first piece has all of. */
  lemma {:induction false} CopyWithin(s: Source, obfuscated: bool, left: uint32, inflate: Inflater, room: Option<nat>)
    requires Sound(s) && s.pieces != [] && left <= s.pieces[0].left
    ensures LoopReached(s, obfuscated, false, left, inflate, room) == s.pieces[0].flags
    decreases left
  {
    hide Take, Reached, LoopReached, Sound, PlainStream;
    LoopStep(s, obfuscated, false, left, inflate, room);
    if left != 0 {
      var n := Min(left, 0x1_0000);
      TakeWithin(s, obfuscated, n);
      TakeIsStream(s, obfuscated, n);
      if Take(s, obfuscated, n).Some? {
        var (bytes, s') := Take(s, obfuscated, n).value;
        if Fits(|bytes|, room) {
          CopyWithin(s', obfuscated, left - n, inflate, Less(room, |bytes|));
        }
      }
    }
  }

  /** A compressed file whose frames are all in the first piece, without the counter going round. */
  lemma {:induction false} FramesWithin(s: Source, obfuscated: bool, left: uint32, inflate: Inflater, room: Option<nat>)
    requires Sound(s) && s.pieces != [] && left <= s.pieces[0].left
    requires Frames(s, obfuscated, left, inflate).Some?
    requires |Joined(Frames(s, obfuscated, left, inflate).value)| == left
    ensures LoopReached(s, obfuscated, true, left, inflate, room) == s.pieces[0].flags
    decreases |PlainStream(s, obfuscated)|
  {
    hide Take, Reached, LoopReached, Sound, PlainStream, ReadUint16, Minus32, Joined;
    LoopStep(s, obfuscated, true, left, inflate, room);
    if left != 0 {
      var fs := Frames(s, obfuscated, left, inflate).value;
      TakeIsStream(s, obfuscated, 2);
      var (length, s1) := Take(s, obfuscated, 2).value;
      var n := ReadUint16(length);
      TakeIsStream(s1, obfuscated, n);
      var (payload, s2) := Take(s1, obfuscated, n).value;
      assert fs[0] == Frame(length, payload);
      JoinedRest(fs);
      var rest := Frames(s2, obfuscated, Minus32(Minus32(left, 2), n), inflate).value;
      assert fs[1..] == rest;
      PlainMinus(left, n);
      TakeWithin(s, obfuscated, 2);
      TakeWithin(s1, obfuscated, n);
      var bytes := inflate(payload + [0]).value;
      if Fits(|bytes|, room) {
        FramesWithin(s2, obfuscated, left - 2 - n, inflate, Less(room, |bytes|));
      }
    }
  }

  lemma JoinedRest(fs: seq<Frame>)
    requires fs != []
    ensures |Joined(fs)| == |fs[0].length| + |fs[0].payload| + |Joined(fs[1..])|
  {
  }

  lemma PlainMinus(left: uint32, n: nat)
    ensures 2 + n <= left ==> Minus32(Minus32(left, 2), n) == left - 2 - n
  {
    if 2 + n <= left {
      SmallRemainder(left - 2);
      SmallRemainder(left - 2 - n);
    }
  }

  // ----- The second save -----

  /** The search has gone on from another volume to one that says nothing of the file. The reader then still
      counts what the volume before was said to have, and a later search, which starts here, does not. */
  ghost predicate Strays(a: Archive, index: nat, d: Descriptor, f: flags, v: uint16, gap: nat)
    requires Missing(a, gap)
  {
    match Start(a, index, d, f, v, AT_REST, gap)
    case None => false
    case Some((f', v', c)) => v' != v && Locate(index, d, f', c.header).Nowhere?
  }

  /** The entry that the search leaves makes the next search leave it as it is. It gives the same stream,
      or, where the search has strayed, one that cannot be read. */
  lemma SearchAgain(a: Archive, index: nat, d: Descriptor, f: flags, v: uint16, gap: nat)
    requires Missing(a, gap)
    ensures
      var (f', v') := Searched(a, index, d, f, v, gap);
      var first, second := Begin(a, index, d, f, v, gap), Begin(a, index, d, f', v', gap);
      && Searched(a, index, d, f', v', gap) == (f', v')
      && IsInvalid(f') == IsInvalid(f) && first.Some? == second.Some?
      && (!Strays(a, index, d, f, v, gap) ==> second == first)
      && (second.Some? ==> second.value.1 == f' == first.value.1)
      && (second.Some? && Strays(a, index, d, f, v, gap) ==> !Ready(second.value.0))
  {
    hide Evolves, Searched, Following;
    var (f', v') := Searched(a, index, d, f, v, gap);
    StartEvolves(a, index, d, f, v, AT_REST, gap);
    EvolvedFlags(f, f');
    if Start(a, index, d, f, v, AT_REST, gap).Some? {
      StartAgain(a, index, d, f, v, AT_REST, gap);
      StartHere(a, index, d, f, v, gap);
      hide Start, Locate, IsInvalid;
    } else {
      NoneFound(a, index, d, f, v, AT_REST, gap);
      hide Start, Locate, IsInvalid;
    }
  }

  /** A search that fails does so in a volume that is not there. */
  lemma {:induction false} NoneFound(a: Archive, index: nat, d: Descriptor, f: flags, v: uint16, c: Cursor, gap: nat)
    requires Missing(a, gap) && Start(a, index, d, f, v, c, gap).None?
    ensures
      var (f', v') := Searched(a, index, d, f, v, gap);
      && v' !in a.volumes && Start(a, index, d, f', v', AT_REST, gap) == None
      && Searched(a, index, d, f', v', gap) == (f', v')
    decreases (gap - v) % 0x1_0000
  {
    hide FlagsAfter, ReadHeader, ComesLater, Start, Searched, NextVolume, Opened;
    StartStep(a, index, d, f, v, c, gap);
    if v in a.volumes {
      var h := ReadHeader(a, v);
      SearchShrinks(v, gap);
      NoneFound(a, index, d, FlagsAfter(a, index, d, f, h), NextVolume(v), Opened(a, index, d, f, c, v), gap);
    } else {
      StartStep(a, index, d, f, v, AT_REST, gap);
    }
  }

  /** Reading on can change nothing: the file is known to be split, or no volume behind shows that it is. */
  ghost predicate Steady(a: Archive, index: nat, d: Descriptor, f: flags, v: uint16, gap: nat)
    requires Missing(a, gap)
  {
    match Start(a, index, d, f, v, AT_REST, gap)
    case None => true
    case Some((f', v', c)) => Settled(a, index, d, f', c.volume + 1)
  }

  lemma SteadyFlags(a: Archive, index: nat, d: Descriptor, f: flags, v: uint16, gap: nat)
    requires Missing(a, gap) && Steady(a, index, d, f, v, gap) && Begin(a, index, d, f, v, gap).Some?
    ensures
      var (s, f') := Begin(a, index, d, f, v, gap).value;
      AllFlags(s.pieces, f')
  {
    hide Start, IsInvalid, Settled, Following;
    var (f', v', c) := Start(a, index, d, f, v, AT_REST, gap).value;
    SettledFlags(a, index, d, f', c.volume + 1);
  }

  /** Where the file is not known to be split, its first piece has the size of the descriptor. */
  lemma UnsplitPiece(a: Archive, index: nat, d: Descriptor, f: flags, v: uint16, gap: nat)
    requires Missing(a, gap) && Begin(a, index, d, f, v, gap).Some?
    ensures
      var (s, f') := Begin(a, index, d, f, v, gap).value;
      !IsSplit(f') ==> s.pieces[0].left == SizeInVolume(d, f')
  {
    hide IsInvalid, IsSplit, IsCompressed, Following, Searched;
    StartPlace(a, index, d, f, v, AT_REST, gap);
  }

  lemma {:induction false} StartPlace(a: Archive, index: nat, d: Descriptor, f: flags, v: uint16, c: Cursor, gap: nat)
    requires Missing(a, gap) && Start(a, index, d, f, v, c, gap).Some?
    ensures
      var (f', v', c') := Start(a, index, d, f, v, c, gap).value;
      !IsSplit(f') ==> c'.left == SizeInVolume(d, f')
    decreases (gap - v) % 0x1_0000
  {
    hide IsSplit, FlagsAfter, ReadHeader, ComesLater, Start, Searched, NextVolume, SizeInVolume;
    StartStep(a, index, d, f, v, c, gap);
    var h := ReadHeader(a, v);
    if ComesLater(a, index, h) {
      SearchShrinks(v, gap);
      StartPlace(a, index, d, FlagsAfter(a, index, d, f, h), NextVolume(v), Opened(a, index, d, f, c, v), gap);
    }
  }

  /** A save leaves just what the search does when reading on can change nothing, however it ends. So does
      a save that succeeds, provided that its stream is shorter than 4 GiB or not compressed. */
  lemma LeavesSearched(a: Archive, index: nat, d: Descriptor, f: flags, v: uint16, gap: nat, inflate: Inflater,
                       sink: Sink)
    requires Missing(a, gap)
    requires
      || Steady(a, index, d, f, v, gap)
      || (&& SaveOutcome(a, index, d, f, v, gap, inflate).Some?
          && var (s, f') := Begin(a, index, d, f, v, gap).value;
             IsCompressed(f') ==> |PlainStream(s, IsObfuscated(f'))| < 0x1_0000_0000)
    requires !IsInvalid(f) && d.dataOffset != 0
    ensures SaveLeaves(a, index, d, f, v, gap, inflate, sink) == Searched(a, index, d, f, v, gap)
  {
    BeginSearched(a, index, d, f, v, gap);
    if Begin(a, index, d, f, v, gap).Some? && Opens(sink) {
      var (s, f') := Begin(a, index, d, f, v, gap).value;
      LoopLeaves(a, index, d, f, v, gap, inflate, RoomIn(sink));
      hide Begin, Searched, LoopReached, IsInvalid, IsCompressed, IsObfuscated, SizeInVolume;
    } else {
      hide Begin, Searched, LoopReached, IsInvalid, IsCompressed, IsObfuscated, SizeInVolume;
    }
  }

  lemma LoopLeaves(a: Archive, index: nat, d: Descriptor, f: flags, v: uint16, gap: nat, inflate: Inflater,
                   room: Option<nat>)
    requires Missing(a, gap) && Begin(a, index, d, f, v, gap).Some?
    requires
      || Steady(a, index, d, f, v, gap)
      || (&& SaveOutcome(a, index, d, f, v, gap, inflate).Some?
          && var (s, f') := Begin(a, index, d, f, v, gap).value;
             IsCompressed(f') ==> |PlainStream(s, IsObfuscated(f'))| < 0x1_0000_0000)
    ensures
      var (s, f') := Begin(a, index, d, f, v, gap).value;
      LoopReached(s, IsObfuscated(f'), IsCompressed(f'), SizeInVolume(d, f'), inflate, room) == f'
  {
    var (s, f') := Begin(a, index, d, f, v, gap).value;
    var obf, left := IsObfuscated(f'), SizeInVolume(d, f');
    if Steady(a, index, d, f, v, gap) {
      SteadyFlags(a, index, d, f, v, gap);
      hide Begin, Steady, LoopReached, SaveOutcome, PlainStream;
      LoopFlags(s, obf, IsCompressed(f'), left, inflate, room, f');
    } else if IsSplit(f') {
      SplitIsSteady(a, index, d, f, v, gap);
    } else {
      UnsplitPiece(a, index, d, f, v, gap);
      hide Begin, Steady, LoopReached, PlainStream, SizeInVolume, IsSplit, IsObfuscated;
      if IsCompressed(f') {
        FramesAreStream(s, obf, left, inflate);
        SmallRemainder(|Joined(Frames(s, obf, left, inflate).value)|);
        FramesWithin(s, obf, left, inflate, room);
      } else {
        CopyWithin(s, obf, left, inflate, room);
      }
    }
  }

  lemma SplitIsSteady(a: Archive, index: nat, d: Descriptor, f: flags, v: uint16, gap: nat)
    requires Missing(a, gap) && Begin(a, index, d, f, v, gap).Some?
    requires IsSplit(Begin(a, index, d, f, v, gap).value.1)
    ensures Steady(a, index, d, f, v, gap)
  {
    hide Start, PiecesFrom;
  }

  /** Behind the end of a piece, only an empty file is saved. */
  lemma NothingInFront(s: Source, obfuscated: bool, compressed: bool, left: uint32, inflate: Inflater,
                       room: Option<nat>)
    requires Sound(s) && s.pieces != [] && !Ready(s)
    ensures left != 0 ==> Saved(s, obfuscated, compressed, left, inflate) == None && Copied(s, obfuscated, left) == None
    ensures left == 0 ==>
      Saved(s, obfuscated, compressed, left, inflate) == Some([]) && Copied(s, obfuscated, left) == Some([])
    ensures LoopReached(s, obfuscated, compressed, left, inflate, room) == s.pieces[0].flags
  {
    hide Reached, Sound, PlainStream, ReadUint16;
    if left != 0 {
      TakeIsStream(s, obfuscated, 2);
      TakeIsStream(s, obfuscated, Min(left, 0x1_0000));
      hide Take, Ready;
      StopsAtOnce(s, 2);
      StopsAtOnce(s, Min(left, 0x1_0000));
    } else {
      NoFrames(s, obfuscated, inflate);
    }
  }

  lemma StopsAtOnce(s: Source, n: nat)
    requires s.pieces != [] && !Ready(s)
    ensures Reached(s.pieces, n) == s.pieces[0].flags
  {
  }

  /** What a save writes from the entry that the search of another has left: what it would have written
      before, unless the search has strayed. In that case only an empty file can be saved. */
  ghost function FromSearched(a: Archive, index: nat, d: Descriptor, f: flags, v: uint16, gap: nat,
                              outcome: Option<seq<byte>>): Option<seq<byte>>
    requires Missing(a, gap)
  {
    if Strays(a, index, d, f, v, gap) && SizeInVolume(d, f) != 0 then None else outcome
  }

  lemma SavesFromSearched(a: Archive, index: nat, d: Descriptor, f: flags, v: uint16, gap: nat, inflate: Inflater,
                          sink: Sink)
    requires Missing(a, gap) && !IsInvalid(f) && d.dataOffset != 0
    ensures
      var (f2, v2) := Searched(a, index, d, f, v, gap);
      && SaveOutcome(a, index, d, f2, v2, gap, inflate)
         == FromSearched(a, index, d, f, v, gap, SaveOutcome(a, index, d, f, v, gap, inflate))
      && RawOutcome(a, index, d, f2, v2, gap)
         == FromSearched(a, index, d, f, v, gap, RawOutcome(a, index, d, f, v, gap))
      && (SaveLeaves(a, index, d, f2, v2, gap, inflate, sink)
          == if Strays(a, index, d, f, v, gap) then (f2, v2) else SaveLeaves(a, index, d, f, v, gap, inflate, sink))
  {
    hide IsInvalid, IsObfuscated, IsCompressed, Searched, Saved, Copied, Checks, LoopReached, SizeInVolume, Evolves;
    SearchAgain(a, index, d, f, v, gap);
    StartEvolves(a, index, d, f, v, AT_REST, gap);
    var (f2, v2) := Searched(a, index, d, f, v, gap);
    SameSize(d, f, f2);
    var begin := Begin(a, index, d, f2, v2, gap);
    BeginSearched(a, index, d, f2, v2, gap);
    hide Begin, Strays;
    if Strays(a, index, d, f, v, gap) && begin.Some? {
      var (s, f') := begin.value;
      var obf, comp, left := IsObfuscated(f2), IsCompressed(f2), SizeInVolume(d, f2);
      hide Ready;
      NothingInFront(s, obf, comp, left, inflate, RoomIn(sink));
      if left == 0 {
        NothingSaved(Begin(a, index, d, f, v, gap).value.0, obf, comp, inflate);
      }
    }
  }

  lemma SameSize(d: Descriptor, f: flags, g: flags)
    requires Evolves(f, g)
    ensures SizeInVolume(d, f) == SizeInVolume(d, g)
  {
    hide IsCompressed, Evolves;
    EvolvedFlags(f, g);
  }

  lemma NothingSaved(s: Source, obfuscated: bool, compressed: bool, inflate: Inflater)
    requires Sound(s)
    ensures Saved(s, obfuscated, compressed, 0, inflate) == Some([]) && Copied(s, obfuscated, 0) == Some([])
  {
    NoFrames(s, obfuscated, inflate);
  }

  /** After a save that leaves just the entry that its search does, a second save, raw or not, has the
      outcome that it would have had first, unless the search has strayed; and it leaves that entry. */
  lemma SaveAgain(a: Archive, index: nat, d: Descriptor, f: flags, v: uint16, gap: nat, inflate: Inflater, sink: Sink)
    requires Missing(a, gap)
    requires
      !IsInvalid(f) && d.dataOffset != 0 ==>
        SaveLeaves(a, index, d, f, v, gap, inflate, sink) == Searched(a, index, d, f, v, gap)
    ensures
      var (f2, v2) := SaveLeaves(a, index, d, f, v, gap, inflate, sink);
      && SaveOutcome(a, index, d, f2, v2, gap, inflate)
         == FromSearched(a, index, d, f, v, gap, SaveOutcome(a, index, d, f, v, gap, inflate))
      && RawOutcome(a, index, d, f2, v2, gap)
         == FromSearched(a, index, d, f, v, gap, RawOutcome(a, index, d, f, v, gap))
      && SaveLeaves(a, index, d, f2, v2, gap, inflate, sink) == (f2, v2)
  {
    if !IsInvalid(f) && d.dataOffset != 0 {
      hide IsInvalid, Searched, SaveOutcome, RawOutcome, SaveLeaves, FromSearched, Strays;
      SavesFromSearched(a, index, d, f, v, gap, inflate, sink);
    } else {
      hide IsInvalid, Searched, Begin, LoopReached, Strays, SizeInVolume;
    }
  }

  // ----- After an old save -----

  /** Opening volumes as an old save does changes nothing more in the flags. A file outside of the cabinet
      is followed by the first volume. */
  ghost predicate OldSteady(a: Archive, index: nat, d: Descriptor, f: flags, v: uint16, gap: nat)
    requires Missing(a, gap)
  {
    match Start(a, index, d, f, v, AT_REST, gap)
    case None => true
    case Some((f', v', c)) => Settled(a, index, d, f', if |c.data| == d.dataOffset then 1 else c.volume + 1)
  }

  lemma OldSteadyFlags(a: Archive, index: nat, d: Descriptor, f: flags, v: uint16, gap: nat,
                       external: Option<seq<byte>>)
    requires Missing(a, gap) && OldSteady(a, index, d, f, v, gap)
    requires OldBegin(a, index, d, f, v, gap, external).Some?
    ensures
      var (s, f') := OldBegin(a, index, d, f, v, gap, external).value;
      AllFlags(s.pieces, f')
  {
    hide Start, IsInvalid, Settled, Following, IsCompressed, Lacking;
    var (f', v', c) := Start(a, index, d, f, v, AT_REST, gap).value;
    SettledFlags(a, index, d, f', if |c.data| == d.dataOffset then 1 else c.volume + 1);
  }

  lemma OldRoundFlags(s: Source, obfuscated: bool, compressed: bool, left: uint32, inflate: Unpacking.OldInflater,
                      f: flags)
    requires Sound(s) && s.pieces != [] && AllFlags(s.pieces, f)
    ensures OldReached(s, compressed, left) == f
    ensures
      var round := OldRound(s, obfuscated, compressed, left, inflate);
      round.Some? ==> AllFlags(round.value.1.pieces, f)
  {
    hide Take, Reached, Sound, Unpacking.Unpacked;
    var s1 := Reopened(s);
    assert AllFlags(s1.pieces, f);
    if s1.pieces != [] {
      var n := if compressed then s1.pieces[0].left else Min(left, 0x1_0000);
      ReachedFlags(s1.pieces, n, f);
      if Take(s1, obfuscated, n).Some? {
        TakeFlags(s1, obfuscated, n, f);
      }
    }
    FirstFlags(s.pieces, f);
    hide AllFlags;
  }

  lemma {:induction false} OldLoopFlags(s: Source, obfuscated: bool, compressed: bool, left: uint32,
                                        inflate: Unpacking.OldInflater, room: Option<nat>, f: flags)
    requires Sound(s) && s.pieces != [] && AllFlags(s.pieces, f)
    ensures OldLoopReached(s, obfuscated, compressed, left, inflate, room) == f
    decreases |PlainStream(s, obfuscated)|
  {
    hide OldRound, OldReached, AllFlags, Sound, PlainStream;
    FirstFlags(s.pieces, f);
    OldLoopStep(s, obfuscated, compressed, left, inflate, room);
    OldRoundFlags(s, obfuscated, compressed, left, inflate, f);
    var round := OldRound(s, obfuscated, compressed, left, inflate);
    if left != 0 && round.Some? {
      var (bytes, s', left') := round.value;
      OldRoundShrinks(s, obfuscated, compressed, left, inflate);
      if Fits(|bytes|, room) {
        OldLoopFlags(s', obfuscated, compressed, left', inflate, Less(room, |bytes|), f);
      }
    }
  }

  /** An old save leaves just the entry that its search does where the volumes that it may open show nothing
      new, however it ends. */
  lemma OldLeavesSearched(a: Archive, index: nat, d: Descriptor, f: flags, v: uint16, gap: nat,
                          external: Option<seq<byte>>, inflate: Unpacking.OldInflater, sink: Sink)
    requires Missing(a, gap) && OldSteady(a, index, d, f, v, gap) && !IsInvalid(f) && d.dataOffset != 0
    ensures OldLeaves(a, index, d, f, v, gap, external, inflate, sink) == Searched(a, index, d, f, v, gap)
  {
    hide IsInvalid, Searched, OldLoopReached, IsCompressed, IsObfuscated, OldSteady;
    OldBeginSearched(a, index, d, f, v, gap, external);
    if OldBegin(a, index, d, f, v, gap, external).Some? {
      var (s, f') := OldBegin(a, index, d, f, v, gap, external).value;
      OldSteadyFlags(a, index, d, f, v, gap, external);
      hide OldBegin;
      OldLoopFlags(s, IsObfuscated(f'), IsCompressed(f'), d.expandedSize % 0x1_0000_0000, inflate, RoomIn(sink), f');
    } else {
      hide OldBegin;
    }
  }

  lemma OldFromSearched(a: Archive, index: nat, d: Descriptor, f: flags, v: uint16, gap: nat,
                        external: Option<seq<byte>>, inflate: Unpacking.OldInflater, sink: Sink)
    requires Missing(a, gap) && !IsInvalid(f) && d.dataOffset != 0 && !Strays(a, index, d, f, v, gap)
    ensures
      var (f2, v2) := Searched(a, index, d, f, v, gap);
      && OldOutcome(a, index, d, f2, v2, gap, external, inflate)
         == OldOutcome(a, index, d, f, v, gap, external, inflate)
      && OldLeaves(a, index, d, f2, v2, gap, external, inflate, sink)
         == OldLeaves(a, index, d, f, v, gap, external, inflate, sink)
  {
    hide IsObfuscated, IsCompressed, IsInvalid, OldSaved, OldLoopReached, Strays;
    OldBeginAgain(a, index, d, f, v, gap, external);
    SearchAgain(a, index, d, f, v, gap);
    hide OldBegin, Searched, Begin, Start;
  }

  lemma OldBeginAgain(a: Archive, index: nat, d: Descriptor, f: flags, v: uint16, gap: nat, external: Option<seq<byte>>)
    requires Missing(a, gap) && !Strays(a, index, d, f, v, gap)
    ensures
      var (f2, v2) := Searched(a, index, d, f, v, gap);
      OldBegin(a, index, d, f2, v2, gap, external) == OldBegin(a, index, d, f, v, gap, external)
  {
    hide Evolves, Searched, Following, PiecesFrom, External;
    StartEvolves(a, index, d, f, v, AT_REST, gap);
    EvolvedFlags(f, Searched(a, index, d, f, v, gap).0);
    if Start(a, index, d, f, v, AT_REST, gap).Some? {
      StartAgain(a, index, d, f, v, AT_REST, gap);
      StartHere(a, index, d, f, v, gap);
      hide Start, Locate, IsInvalid;
    } else {
      NoneFound(a, index, d, f, v, AT_REST, gap);
      hide Start, Locate, IsInvalid;
    }
  }

  /** After an old save that may open no volume which shows anything new, any second save has the outcome
      that it would have had first, unless the search has strayed. */
  lemma SaveAfterOld(a: Archive, index: nat, d: Descriptor, f: flags, v: uint16, gap: nat, external: Option<seq<byte>>,
                     inflate: Unpacking.OldInflater, sink: Sink, newInflate: Inflater)
    requires Missing(a, gap) && OldSteady(a, index, d, f, v, gap) && !IsInvalid(f) && d.dataOffset != 0
    ensures
      var (f2, v2) := OldLeaves(a, index, d, f, v, gap, external, inflate, sink);
      && SaveOutcome(a, index, d, f2, v2, gap, newInflate)
         == FromSearched(a, index, d, f, v, gap, SaveOutcome(a, index, d, f, v, gap, newInflate))
      && RawOutcome(a, index, d, f2, v2, gap)
         == FromSearched(a, index, d, f, v, gap, RawOutcome(a, index, d, f, v, gap))
      && (!Strays(a, index, d, f, v, gap) ==>
            && OldOutcome(a, index, d, f2, v2, gap, external, inflate)
               == OldOutcome(a, index, d, f, v, gap, external, inflate)
            && OldLeaves(a, index, d, f2, v2, gap, external, inflate, sink) == (f2, v2))
  {
    hide IsInvalid, Searched, SaveOutcome, RawOutcome, SaveLeaves, OldOutcome, OldLeaves, FromSearched, Strays;
    hide OldSteady;
    OldLeavesSearched(a, index, d, f, v, gap, external, inflate, sink);
    SavesFromSearched(a, index, d, f, v, gap, newInflate, sink);
    if !Strays(a, index, d, f, v, gap) {
      OldFromSearched(a, index, d, f, v, gap, external, inflate, sink);
    }
  }

  // ----- Saves and raw saves -----

  /** Where a save and a raw save of a file both succeed, in any number of volumes, they agree: of a
      compressed file, the raw save writes the frames whose inflated payloads the save writes, and nothing
      else; of any other file it writes what the save writes. */
  lemma SaveAndRaw(a: Archive, index: nat, d: Descriptor, f: flags, v: uint16, gap: nat, inflate: Inflater)
    returns (fs: seq<Frame>)
    requires Missing(a, gap)
    requires SaveOutcome(a, index, d, f, v, gap, inflate).Some? && RawOutcome(a, index, d, f, v, gap).Some?
    requires
      var (s, f') := Begin(a, index, d, f, v, gap).value;
      IsCompressed(f') ==> |PlainStream(s, IsObfuscated(f'))| < 0x1_0000_0000
    ensures
      var f' := Begin(a, index, d, f, v, gap).value.1;
      var output, raw := SaveOutcome(a, index, d, f, v, gap, inflate).value, RawOutcome(a, index, d, f, v, gap).value;
      && (IsCompressed(f') ==>
            ValidFrames(fs, inflate) && raw == Joined(fs) && output == SaveLoops.Inflated(fs, inflate))
      && (!IsCompressed(f') ==> raw == output)
  {
    hide IsObfuscated, IsCompressed, PlainStream, Joined, ValidFrames, SizeInVolume, Begin, Frames, Copied;
    fs := [];
    var (s, f') := Begin(a, index, d, f, v, gap).value;
    if IsCompressed(f') {
      fs := Frames(s, IsObfuscated(f'), SizeInVolume(d, f'), inflate).value;
      CopiedAreFrames(s, IsObfuscated(f'), SizeInVolume(d, f'), inflate);
    }
  }

  /** There is no volume behind the one that the search ends in. */
  ghost predicate InOneVolume(a: Archive, index: nat, d: Descriptor, f: flags, v: uint16, gap: nat)
    requires Missing(a, gap)
  {
    match Start(a, index, d, f, v, AT_REST, gap)
    case None => false
    case Some((f', v', c)) => c.volume + 1 !in a.volumes
  }

  lemma OneVolumeSource(a: Archive, index: nat, d: Descriptor, f: flags, v: uint16, gap: nat)
    requires Missing(a, gap) && InOneVolume(a, index, d, f, v, gap) && Begin(a, index, d, f, v, gap).Some?
    ensures OnePiece(Begin(a, index, d, f, v, gap).value.0)
  {
    hide Start, IsInvalid;
  }

  /** For a file in one volume, a raw save after a save that succeeded succeeds too, from the entry that
      the save left, and they agree. */
  lemma SaveThenRaw(a: Archive, index: nat, d: Descriptor, f: flags, v: uint16, gap: nat, inflate: Inflater, sink: Sink)
    returns (fs: seq<Frame>)
    requires Missing(a, gap) && InOneVolume(a, index, d, f, v, gap) && !Strays(a, index, d, f, v, gap)
    requires SaveOutcome(a, index, d, f, v, gap, inflate).Some?
    ensures
      var (f2, v2) := SaveLeaves(a, index, d, f, v, gap, inflate, sink);
      var output, raw := SaveOutcome(a, index, d, f, v, gap, inflate).value, RawOutcome(a, index, d, f2, v2, gap);
      && raw.Some?
      && (IsCompressed(f2) ==>
            ValidFrames(fs, inflate) && raw.value == Joined(fs) && output == SaveLoops.Inflated(fs, inflate))
      && (!IsCompressed(f2) ==> raw.value == output)
  {
    OneVolumeSource(a, index, d, f, v, gap);
    var (s, f') := Begin(a, index, d, f, v, gap).value;
    var obf, left := IsObfuscated(f'), SizeInVolume(d, f');
    PieceLength(s, obf);
    BeginSearched(a, index, d, f, v, gap);
    LeavesSearched(a, index, d, f, v, gap, inflate, sink);
    SaveAgain(a, index, d, f, v, gap, inflate, sink);
    hide IsInvalid, Begin, Searched, SaveLeaves, IsObfuscated, IsCompressed, OnePiece, Frames, Copied, PlainStream;
    hide SizeInVolume, Checks, Joined, ValidFrames, InOneVolume;
    if IsCompressed(f') {
      SaveAndRawAgree(s, obf, left, inflate);
    }
    fs := SaveAndRaw(a, index, d, f, v, gap, inflate);
  }
}
