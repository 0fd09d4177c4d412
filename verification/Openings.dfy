/**
 Which further volumes a save opens, and exactly when that changes the descriptor of its file (lib/file.c).
 */
module Openings {
  import opened Bytes
  import opened Cabinet
  import opened Reader
  import opened SaveLoops
  import opened Outcomes
  import opened Leaves

  // ----- How far reads go -----

  /** Reads that ask for the first `n` bytes open the piece `j`: all pieces in front of it are complete and
      not empty, and come to less than `n`. */
  predicate IsOpened(es: seq<Extent>, n: nat, j: nat)
    requires j < |es|
  {
    j == 0 || (0 < es[0].left == |es[0].data| < n && IsOpened(es[1..], n - es[0].left, j - 1))
  }

  /** Flags that change from piece to piece do not change back. */
  ghost predicate Lasts(es: seq<Extent>, f: flags) {
    forall i, j :: 0 <= i < j < |es| && es[j].flags == f ==> es[i].flags == f
  }

  /** Reads leave the flags of the last piece that they open; so they leave other flags exactly when they
      open a piece that has some. */
  lemma {:induction false} ReachedExactly(es: seq<Extent>, n: nat, f: flags)
    requires es != [] && AllWellFormed(es) && Lasts(es, f)
    ensures Reached(es, n) == f <==> forall j :: 0 <= j < |es| && IsOpened(es, n, j) ==> es[j].flags == f
  {
    var e, rest := es[0], es[1..];
    assert forall j :: 0 <= j < |rest| ==> rest[j] == es[j + 1];
    if 0 < e.left == |e.data| < n && rest != [] {
      ReachedExactly(rest, n - e.left, f);
      OpenedBehind(es, n, f);
      hide IsOpened;
    } else {
      NoneOpened(es, n);
    }
  }

  lemma OpenedBehind(es: seq<Extent>, n: nat, f: flags)
    requires |es| > 1 && 0 < es[0].left == |es[0].data| < n && Lasts(es, f)
    ensures Lasts(es[1..], f) && Reached(es, n) == Reached(es[1..], n - es[0].left)
    ensures
      (forall j :: 0 <= j < |es| && IsOpened(es, n, j) ==> es[j].flags == f)
      <==> forall j :: 0 <= j < |es[1..]| && IsOpened(es[1..], n - es[0].left, j) ==> es[1..][j].flags == f
  {
    var rest, m := es[1..], n - es[0].left;
    assert forall j :: 0 <= j < |rest| ==> rest[j] == es[j + 1];
    assert forall j :: 0 <= j < |rest| ==> IsOpened(es, n, j + 1) == IsOpened(rest, m, j);
    if forall j :: 0 <= j < |es| && IsOpened(es, n, j) ==> es[j].flags == f {
      forall j | 0 <= j < |rest| && IsOpened(rest, m, j)
        ensures rest[j].flags == f
      {
        assert IsOpened(es, n, j + 1);
      }
    }
    if forall j :: 0 <= j < |rest| && IsOpened(rest, m, j) ==> rest[j].flags == f {
      assert IsOpened(rest, m, 0) && rest[0].flags == f;
      forall j | 0 <= j < |es| && IsOpened(es, n, j)
        ensures es[j].flags == f
      {
        if j > 0 {
          assert IsOpened(rest, m, j - 1);
        }
      }
    }
  }

  lemma NoneOpened(es: seq<Extent>, n: nat)
    requires es != [] && AllWellFormed(es) && (|es| == 1 || !(0 < es[0].left == |es[0].data| < n))
    ensures Reached(es, n) == es[0].flags && IsOpened(es, n, 0)
    ensures forall j :: 0 < j < |es| ==> !IsOpened(es, n, j)
  {
    assert WellFormed(es[0]);
  }

  /** Two reads, one behind the other, go as far as one for both. */
  lemma {:induction false} ReachedTwice(es: seq<Extent>, n: nat, m: nat)
    requires es != [] && Deliver(es, n).Some?
    requires m == 0 || Positioned(Deliver(es, n).value.1)
    ensures Deliver(es, n).value.1 != [] && Reached(Deliver(es, n).value.1, m) == Reached(es, n + m)
  {
    var e := es[0];
    if n <= e.left {
      var es' := [Extent(e.data[n..], e.left - n, e.flags)] + es[1..];
      assert es'[1..] == es[1..];
    } else {
      ReachedTwice(es[1..], n - e.left, m);
    }
  }

  lemma TakenReached(s: Source, obfuscated: bool, n: nat, m: nat)
    requires s.pieces != [] && Take(s, obfuscated, n).Some?
    requires m == 0 || Ready(Take(s, obfuscated, n).value.1)
    ensures
      var es := Take(s, obfuscated, n).value.1.pieces;
      es != [] && Reached(es, m) == Reached(s.pieces, n + m)
  {
    hide Reached, Deliver, Positioned;
    ReachedTwice(s.pieces, n, m);
  }

  lemma NotReadyReached(s: Source, n: nat)
    requires s.pieces != [] && !Ready(s)
    ensures Reached(s.pieces, n) == s.pieces[0].flags == Reached(s.pieces, 0)
  {
  }

  // ----- How far the loop reads -----

  /** How many bytes a read asks for: none at the end of a piece, where it gives up at once. */
  function Asks(s: Source, n: nat): nat {
    if Ready(s) then n else 0
  }

  ghost function RoundAsks(s: Source, obfuscated: bool, compressed: bool, left: uint32): nat
    requires Sound(s)
  {
    if compressed then
      TakeIsStream(s, obfuscated, 2);
      match Take(s, obfuscated, 2)
      case None => Asks(s, 2)
      case Some((length, s1)) => 2 + Asks(s1, ReadUint16(length))
    else Asks(s, Min(left, 0x1_0000))
  }

  /** The bytes up to the last that the loop asks for, whether it gives up or not. */
  ghost function LoopAsks(s: Source, obfuscated: bool, compressed: bool, left: uint32, inflate: Inflater,
                          room: Option<nat>): nat
    requires Sound(s)
    decreases |PlainStream(s, obfuscated)|
  {
    if left == 0 then 0
    else
      RoundAsks(s, obfuscated, compressed, left)
      + match Round(s, obfuscated, compressed, left, inflate)
        case None => 0
        case Some((bytes, s', left')) =>
          RoundShrinks(s, obfuscated, compressed, left, inflate);
          if Fits(|bytes|, room) then LoopAsks(s', obfuscated, compressed, left', inflate, Less(room, |bytes|)) else 0
  }

  lemma NothingAsked(s: Source, obfuscated: bool, compressed: bool, left: uint32, inflate: Inflater, room: Option<nat>)
    requires Sound(s) && !Ready(s)
    ensures LoopAsks(s, obfuscated, compressed, left, inflate, room) == 0
  {
    hide PlainStream, Sound, ReadUint16;
    if left != 0 {
      TakeIsStream(s, obfuscated, if compressed then 2 else Min(left, 0x1_0000));
      hide Take, Ready;
    }
  }

  /** A round goes as far as what it asks for; and what it leaves goes on from there. */
  lemma RoundFar(s: Source, obfuscated: bool, compressed: bool, left: uint32, inflate: Inflater, more: nat)
    requires Sound(s) && s.pieces != []
    ensures
      RoundReached(s, obfuscated, compressed, left) == Reached(s.pieces, RoundAsks(s, obfuscated, compressed, left))
    ensures
      var round := Round(s, obfuscated, compressed, left, inflate);
      round.Some? && (more == 0 || Ready(round.value.1)) ==>
        Reached(round.value.1.pieces, more) == Reached(s.pieces, RoundAsks(s, obfuscated, compressed, left) + more)
  {
    hide Reached, Sound, ReadUint16, Ready, PlainStream, Minus32;
    if !Ready(s) {
      NotReadyReached(s, if compressed then 2 else Min(left, 0x1_0000));
    }
    if compressed {
      CompressedFar(s, obfuscated, left, inflate, more);
    } else {
      var n := Min(left, 0x1_0000);
      TakeIsStream(s, obfuscated, n);
      hide Take;
      if Take(s, obfuscated, n).Some? {
        var s' := Take(s, obfuscated, n).value.1;
        if more == 0 || Ready(s') {
          TakenReached(s, obfuscated, n, more);
        }
      }
    }
  }

  lemma CompressedFar(s: Source, obfuscated: bool, left: uint32, inflate: Inflater, more: nat)
    requires Sound(s) && s.pieces != []
    ensures RoundReached(s, obfuscated, true, left) == Reached(s.pieces, RoundAsks(s, obfuscated, true, left))
    ensures
      var round := Round(s, obfuscated, true, left, inflate);
      round.Some? && (more == 0 || Ready(round.value.1)) ==>
        Reached(round.value.1.pieces, more) == Reached(s.pieces, RoundAsks(s, obfuscated, true, left) + more)
  {
    hide Reached, Sound, ReadUint16, Ready, PlainStream, Minus32, Take;
    TakeIsStream(s, obfuscated, 2);
    if Take(s, obfuscated, 2).None? {
      if !Ready(s) {
        NotReadyReached(s, 2);
      }
    } else {
      var (length, s1) := Take(s, obfuscated, 2).value;
      var n := ReadUint16(length);
      TakeIsStream(s1, obfuscated, n);
      TakenReached(s, obfuscated, 2, 0);
      if !Ready(s1) {
        NotReadyReached(s1, n);
      } else {
        TakenReached(s, obfuscated, 2, n);
        TakenReached(s, obfuscated, 2, n + more);
        if Take(s1, obfuscated, n).Some? {
          var s2 := Take(s1, obfuscated, n).value.1;
          if more == 0 || Ready(s2) {
            TakenReached(s1, obfuscated, n, more);
          }
        }
      }
    }
  }

  /** The flags that the loop leaves are those of the last piece that it asks for a byte of. */
  lemma {:induction false} LoopFar(s: Source, obfuscated: bool, compressed: bool, left: uint32, inflate: Inflater,
                                   room: Option<nat>)
    requires Sound(s) && s.pieces != []
    ensures LoopReached(s, obfuscated, compressed, left, inflate, room)
         == Reached(s.pieces, LoopAsks(s, obfuscated, compressed, left, inflate, room))
    decreases |PlainStream(s, obfuscated)|
  {
    hide Round, Reached, RoundReached, RoundAsks, Sound, Ready, PlainStream;
    LoopStep(s, obfuscated, compressed, left, inflate, room);
    if left == 0 {
      NothingReached(s);
    } else {
      RoundFar(s, obfuscated, compressed, left, inflate, 0);
      var round := Round(s, obfuscated, compressed, left, inflate);
      if round.Some? && Fits(|round.value.0|, room) {
        var (bytes, s', left') := round.value;
        RoundShrinks(s, obfuscated, compressed, left, inflate);
        LoopFar(s', obfuscated, compressed, left', inflate, Less(room, |bytes|));
        var more := LoopAsks(s', obfuscated, compressed, left', inflate, Less(room, |bytes|));
        if !Ready(s') {
          NothingAsked(s', obfuscated, compressed, left', inflate, Less(room, |bytes|));
        }
        RoundFar(s, obfuscated, compressed, left, inflate, more);
      }
    }
  }

  lemma NothingReached(s: Source)
    requires s.pieces != []
    ensures Reached(s.pieces, 0) == s.pieces[0].flags
  {
  }

  // ----- The pieces of a file -----

  ghost predicate NoneHas(es: seq<Extent>, f: flags) {
    forall i :: 0 <= i < |es| ==> es[i].flags != f
  }

  lemma LastsInFront(e: Extent, es: seq<Extent>, f: flags)
    requires Lasts(es, f) && (e.flags == f || NoneHas(es, f))
    ensures Lasts([e] + es, f) && (e.flags != f ==> NoneHas([e] + es, f))
  {
    var all := [e] + es;
    assert forall i :: 0 < i < |all| ==> all[i] == es[i - 1];
  }

  lemma NothingLasts(f: flags)
    ensures Lasts([], f) && NoneHas([], f)
  {
  }

  /** Once the flags are others than `g`, they stay so from volume to volume. */
  lemma {:induction false} FollowingLasts(a: Archive, index: nat, d: Descriptor, f: flags, v: int, g: flags)
    requires g == f || (IsSplit(f) && !IsSplit(g))
    ensures
      var es := Following(a, index, d, f, v);
      Lasts(es, g) && (g != f ==> NoneHas(es, g))
    decreases Beyond(a, v)
  {
    hide FlagsAfter, IsSplit, ReadHeader, ExtentAt, Locate, Lasts, NoneHas;
    NothingLasts(g);
    if v in a.volumes {
      var h := ReadHeader(a, v);
      var f' := FlagsAfter(a, index, d, f, h);
      BeyondShrinks(a, v);
      SplitOrSame(a, index, d, f, h);
      FlagsAfterEvolve(a, index, d, f, h);
      FollowingLasts(a, index, d, f', v + 1, g);
      var es := Following(a, index, d, f', v + 1);
      match Locate(index, d, f', h) {
        case Nowhere =>
          LastsInFront(Extent([], 0, f'), [], g);
          assert [Extent([], 0, f')] + [] == [Extent([], 0, f')];
        case Place(offset, left) =>
          FlagsOfExtent(a.volumes[v].bytes, offset, left, f');
          LastsInFront(ExtentAt(a.volumes[v].bytes, offset, left, f'), es, g);
      }
    }
  }

  lemma FlagsOfExtent(bytes: seq<byte>, pos: nat, left: nat, f: flags)
    ensures ExtentAt(bytes, pos, left, f).flags == f
  {
  }

  lemma SplitOrSame(a: Archive, index: nat, d: Descriptor, f: flags, h: VolumeHeader)
    ensures var f' := FlagsAfter(a, index, d, f, h); f' == f || (IsSplit(f') && !IsSplit(f))
  {
    hide IsSplit, WithSplit;
    WithSplitOnly(f);
  }

  lemma BeginLasts(a: Archive, index: nat, d: Descriptor, f: flags, v: uint16, gap: nat)
    requires Missing(a, gap) && Begin(a, index, d, f, v, gap).Some?
    ensures
      var (s, f') := Begin(a, index, d, f, v, gap).value;
      Lasts(s.pieces, f')
  {
    hide Start, Following, IsSplit, IsInvalid, ExtentAt;
    var (f', v', c) := Start(a, index, d, f, v, AT_REST, gap).value;
    var es := Following(a, index, d, f', c.volume + 1);
    FollowingLasts(a, index, d, f', c.volume + 1, f');
    FlagsOfExtent(c.data, c.pos, c.left, f');
    hide Lasts;
    LastsInFront(ExtentAt(c.data, c.pos, c.left, f'), es, f');
  }

  // ----- The entry that a save leaves -----

  /** The save opens no volume that changes the flags which the search has left. */
  ghost predicate OpensNone(s: Source, f: flags, n: nat) {
    forall j :: 0 <= j < |s.pieces| && IsOpened(s.pieces, n, j) ==> s.pieces[j].flags == f
  }

  lemma LoopExactly(s: Source, obfuscated: bool, compressed: bool, left: uint32, inflate: Inflater, sink: Sink)
    requires Sound(s) && s.pieces != [] && Lasts(s.pieces, s.pieces[0].flags)
    ensures
      var f, asks := s.pieces[0].flags, LoopAsks(s, obfuscated, compressed, left, inflate, RoomIn(sink));
      && OpensNone(s, f, 0)
      && (LoopReached(s, obfuscated, compressed, left, inflate, RoomIn(sink)) == f <==> OpensNone(s, f, asks))
  {
    hide LoopReached, LoopAsks, IsOpened, Reached, Lasts;
    var f := s.pieces[0].flags;
    NothingReached(s);
    LoopFar(s, obfuscated, compressed, left, inflate, RoomIn(sink));
    ReachedExactly(s.pieces, 0, f);
    ReachedExactly(s.pieces, LoopAsks(s, obfuscated, compressed, left, inflate, RoomIn(sink)), f);
  }

  /** How far a save reads. */
  ghost function SaveAsks(s: Source, d: Descriptor, f: flags, inflate: Inflater, sink: Sink): nat
    requires Sound(s)
  {
    if Opens(sink) then LoopAsks(s, IsObfuscated(f), IsCompressed(f), SizeInVolume(d, f), inflate, RoomIn(sink)) else 0
  }

  ghost function RawAsks(s: Source, d: Descriptor, f: flags, sink: Sink): nat
    requires Sound(s)
  {
    if Opens(sink) then LoopAsks(s, IsObfuscated(f), false, SizeInVolume(d, f), NotInflated, RoomIn(sink)) else 0
  }

  /** A save, raw or not, leaves just the entry that its search does exactly when it asks for no byte of a
      volume that shows the file to be split where that was not known. */
  lemma LeavesExactly(a: Archive, index: nat, d: Descriptor, f: flags, v: uint16, gap: nat, inflate: Inflater,
                      sink: Sink)
    requires Missing(a, gap) && !IsInvalid(f) && d.dataOffset != 0
    ensures
      var begin, searched := Begin(a, index, d, f, v, gap), Searched(a, index, d, f, v, gap);
      if begin.None? then
        && SaveLeaves(a, index, d, f, v, gap, inflate, sink) == searched
        && RawLeaves(a, index, d, f, v, gap, sink) == searched
      else
        var (s, f') := begin.value;
        && (SaveLeaves(a, index, d, f, v, gap, inflate, sink) == searched
            <==> OpensNone(s, f', SaveAsks(s, d, f', inflate, sink)))
        && (RawLeaves(a, index, d, f, v, gap, sink) == searched
            <==> OpensNone(s, f', RawAsks(s, d, f', sink)))
  {
    hide IsInvalid, Searched, LoopReached, LoopAsks, IsObfuscated, IsCompressed, SizeInVolume, IsOpened, Reached, Lasts;
    if Begin(a, index, d, f, v, gap).Some? {
      BeginSearched(a, index, d, f, v, gap);
      BeginLasts(a, index, d, f, v, gap);
      var (s, f') := Begin(a, index, d, f, v, gap).value;
      hide Begin, OpensNone;
      var obf, left := IsObfuscated(f'), SizeInVolume(d, f');
      LoopExactly(s, obf, IsCompressed(f'), left, inflate, sink);
      LoopExactly(s, obf, false, left, NotInflated, sink);
    } else {
      hide Begin;
    }
  }
}
