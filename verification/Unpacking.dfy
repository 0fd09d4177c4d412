/**
 What the loop of `unshield_file_save_old` over the chunks of one piece comes to, and when each of its
 searches reads only the piece (lib/file.c).
 */
module Unpacking {
  import opened Bytes
  import opened Cabinet
  import opened OldChunks
  import opened Search

  // ----- Searching for the end of a chunk -----

  /** The first marker from `from` on, whatever follows it. */
  function NextMarker(s: seq<byte>, from: nat): (r: Option<nat>)
    ensures r.Some? ==> from <= r.value && r.value + 4 <= |s| && MarkerAt(s, r.value)
    ensures forall i :: from <= i < (if r.Some? then r.value else |s|) ==> !MarkerAt(s, i)
    decreases |s| - from
  {
    if from + 4 > |s| then None
    else if MarkerAt(s, from) then Some(from)
    else NextMarker(s, from + 1)
  }

  /** The searches for the end of the chunk that is at the front, from `from` on: one for each marker, up
      to that which ends it. They read nothing behind the end. */
  predicate EndSearchable(s: seq<byte>, from: nat)
    requires from <= |s|
    decreases |s| - from
  {
    && StaysInside(s[from..], END_OF_CHUNK, 0, |s| - from)
    && match NextMarker(s, from)
       case None => true
       case Some(m) => EndsChunk(s, m) || EndSearchable(s, m + 4)
  }

  lemma OccursIsMarker(s: seq<byte>, from: nat, i: nat)
    requires from <= |s|
    ensures OccursAt(s[from..], END_OF_CHUNK, i) <==> MarkerAt(s, from + i)
  {
    var t := s[from..];
    assert forall k :: 0 <= k < |t| ==> t[k] == s[from + k];
    if i + 4 <= |t| {
      var u := t[i..i + 4];
      assert forall k :: 0 <= k < 4 ==> u[k] == s[from + i + k];
      assert u == END_OF_CHUNK <==> u[0] == 0x00 && u[1] == 0x00 && u[2] == 0xFF && u[3] == 0xFF;
    }
  }

  /** Where the marker comes next, in terms of the search. */
  lemma FoundIsMarker(s: seq<byte>, from: nat, found: Option<nat>)
    requires from <= |s|
    requires
      match found
      case None => !Occurs(s[from..], END_OF_CHUNK)
      case Some(p) =>
        && OccursAt(s[from..], END_OF_CHUNK, p)
        && forall i :: 0 <= i < p ==> !OccursAt(s[from..], END_OF_CHUNK, i)
    ensures NextMarker(s, from) == if found.Some? then Some(from + found.value) else None
  {
    hide OccursAt;
    var m := NextMarker(s, from);
    if m.Some? {
      OccursIsMarker(s, from, m.value - from);
    }
    if found.Some? {
      OccursIsMarker(s, from, found.value);
    }
  }

  /** From one marker to the next. */
  lemma EndFromMarker(s: seq<byte>, from: nat)
    ensures
      match NextMarker(s, from)
      case None => ChunkEnd(s, from) == None
      case Some(m) => ChunkEnd(s, from) == if EndsChunk(s, m) then Some(m) else ChunkEnd(s, m + 4)
  {
    hide NextMarker, ChunkEnd, MarkerAt, Odd;
    var m, e := NextMarker(s, from), ChunkEnd(s, from);
    if m.Some? && e.Some? && m.value < e.value {
      NoOverlap(s, m.value, e.value);
    }
    if m.Some? && !EndsChunk(s, m.value) {
      var next := ChunkEnd(s, m.value + 4);
      assert next.Some? ==> EndsChunk(s, next.value) && from <= next.value;
      assert e.Some? ==> EndsChunk(s, e.value) && m.value + 4 <= e.value;
    }
  }

  /** The search for the end of the first chunk has come to a marker, or found none. */
  predicate SearchedTo(s: seq<byte>, end: Option<nat>) {
    match end
    case None => ChunkEnd(s, 0) == None
    case Some(m) =>
      && m + 4 <= |s| && MarkerAt(s, m) && (EndsChunk(s, m) || EndSearchable(s, m + 4))
      && ChunkEnd(s, 0) == if EndsChunk(s, m) then Some(m) else ChunkEnd(s, m + 4)
  }

  lemma SearchFrom(s: seq<byte>, from: nat)
    requires from <= |s| && EndSearchable(s, from) && ChunkEnd(s, 0) == ChunkEnd(s, from)
    ensures StaysInside(s[from..], END_OF_CHUNK, 0, |s| - from) && SearchedTo(s, NextMarker(s, from))
  {
    hide ChunkEnd, MarkerAt, EndsChunk, StaysInside, NextMarker;
    EndFromMarker(s, from);
  }

  /** An odd byte behind the marker makes the search go on behind it. */
  lemma SearchGoesOn(s: seq<byte>, m: nat)
    requires SearchedTo(s, Some(m)) && m + 4 < |s| && Odd(s[m + 4])
    ensures EndSearchable(s, m + 4) && ChunkEnd(s, 0) == ChunkEnd(s, m + 4)
  {
    hide ChunkEnd, MarkerAt, Odd, EndSearchable;
  }

  lemma SearchEnds(s: seq<byte>, end: Option<nat>)
    requires SearchedTo(s, end) && (end.Some? && end.value + 4 < |s| ==> !Odd(s[end.value + 4]))
    ensures end == ChunkEnd(s, 0)
  {
    hide ChunkEnd, MarkerAt, Odd, EndSearchable;
  }

  /** Where there is an end, the search for it stays inside. */
  lemma {:induction false} EndedIsSearchable(s: seq<byte>, from: nat)
    requires from <= |s| && ChunkEnd(s, from).Some?
    ensures EndSearchable(s, from)
    decreases |s| - from
  {
    hide NextMarker, ChunkEnd, MarkerAt, Odd, StaysInside, OccursAt;
    var e := ChunkEnd(s, from).value;
    OccursIsMarker(s, from, e - from);
    OccurringStays(s[from..], END_OF_CHUNK, 0, |s| - from, e - from);
    EndFromMarker(s, from);
    var m := NextMarker(s, from).value;
    if !EndsChunk(s, m) {
      EndedIsSearchable(s, m + 4);
    }
  }

  // ----- The chunks of a piece -----

  /** What the chunks of one piece come to: the output, and the count of bytes that are still to come.
      The loop stops when that count is zero, and the count goes round at 32 bits. */
  datatype Progress = Progress(output: seq<byte>, left: uint32)

  type OldInflater = seq<byte> -> Option<seq<byte>>

  function Onto(bytes: seq<byte>, more: Option<Progress>): Option<Progress> {
    match more
    case None => None
    case Some(p) => Some(Progress(bytes + p.output, p.left))
  }

  function Unpacked(s: seq<byte>, left: uint32, inflate: OldInflater): Option<Progress>
    decreases |s|
  {
    if s == [] || left == 0 then Some(Progress([], left))
    else
      match ChunkEnd(s, 0)
      case None => None
      case Some(e) =>
        match inflate(s[..e])
        case None => None
        case Some(bytes) => Onto(bytes, Unpacked(s[e + 4..], Minus32(left, |bytes|), inflate))
  }

  /** Every search that the loop makes in the piece reads only the piece. */
  predicate Searchable(s: seq<byte>, left: uint32, inflate: OldInflater)
    decreases |s|
  {
    s != [] && left != 0 ==>
      && EndSearchable(s, 0)
      && match ChunkEnd(s, 0)
         case None => true
         case Some(e) =>
           match inflate(s[..e])
           case None => true
           case Some(bytes) => Searchable(s[e + 4..], Minus32(left, |bytes|), inflate)
  }

  /** The bytes that the chunks stand for. */
  function Inflated(cs: seq<seq<byte>>, inflate: OldInflater): seq<byte> {
    if cs == [] then []
    else (match inflate(cs[0]) case None => [] case Some(bytes) => bytes) + Inflated(cs[1..], inflate)
  }

  ghost predicate AllInflate(cs: seq<seq<byte>>, inflate: OldInflater) {
    forall i :: 0 <= i < |cs| ==> inflate(cs[i]).Some?
  }

  lemma NestedRemainder(a: int, b: int)
    ensures (a % 0x1_0000_0000 - b) % 0x1_0000_0000 == (a - b) % 0x1_0000_0000
  {
  }

  lemma Minus32Twice(left: uint32, m: nat, n: nat)
    ensures Minus32(left, 0) == left
    ensures Minus32(Minus32(left, m), n) == Minus32(left, m + n)
    ensures m <= left ==> Minus32(left, m) == left - m
  {
    SmallRemainder(left - 0);
    NestedRemainder(left - m, n);
    if m <= left {
      SmallRemainder(left - m);
    }
  }

  lemma InflatedFirst(c: seq<byte>, cs: seq<seq<byte>>, inflate: OldInflater)
    requires inflate(c).Some?
    ensures Inflated([c] + cs, inflate) == inflate(c).value + Inflated(cs, inflate)
    ensures JoinedChunks([c] + cs) == c + END_OF_CHUNK + JoinedChunks(cs)
    ensures AllInflate(cs, inflate) ==> AllInflate([c] + cs, inflate)
  {
    assert ([c] + cs)[1..] == cs;
  }

  lemma ChunkInFront(s: seq<byte>, e: nat, cs: seq<seq<byte>>)
    requires MarkerAt(s, e) && JoinedChunks(cs) <= s[e + 4..]
    ensures s[..e] + END_OF_CHUNK + JoinedChunks(cs) <= s
    ensures JoinedChunks(cs) == s[e + 4..] ==> s[..e] + END_OF_CHUNK + JoinedChunks(cs) == s
  {
    hide JoinedChunks, MarkerAt;
    MarkerBytes(s, e);
  }

  /** One round of the loop over a piece that is unpacked. */
  lemma UnpackedStep(s: seq<byte>, left: uint32, inflate: OldInflater) returns (e: nat, more: Progress)
    requires Unpacked(s, left, inflate).Some? && s != [] && left != 0
    ensures e + 4 <= |s| && MarkerAt(s, e) && inflate(s[..e]).Some?
    ensures
      var bytes := inflate(s[..e]).value;
      && Unpacked(s[e + 4..], Minus32(left, |bytes|), inflate) == Some(more)
      && Unpacked(s, left, inflate) == Some(Progress(bytes + more.output, more.left))
  {
    hide MarkerAt, Minus32, ChunkEnd;
    e := ChunkEnd(s, 0).value;
    more := Unpacked(s[e + 4..], Minus32(left, |inflate(s[..e]).value|), inflate).value;
  }

  lemma NothingInOrder(s: seq<byte>, left: uint32, inflate: OldInflater)
    requires s == [] || left == 0
    ensures Unpacked(s, left, inflate) == Some(Progress([], left)) && Minus32(left, 0) == left
    ensures AllInflate([], inflate) && Inflated([], inflate) == [] && JoinedChunks([]) == []
  {
    Minus32Twice(left, 0, 0);
  }

  /** The loop unpacks chunks from the front of the piece in order, and counts what it unpacks. Where the
      count does not come to zero, they are the whole piece. */
  lemma {:induction false} UnpackedInOrder(s: seq<byte>, left: uint32, inflate: OldInflater)
    returns (cs: seq<seq<byte>>)
    requires Unpacked(s, left, inflate).Some?
    ensures
      var p := Unpacked(s, left, inflate).value;
      && AllInflate(cs, inflate) && p.output == Inflated(cs, inflate) && p.left == Minus32(left, |p.output|)
      && JoinedChunks(cs) <= s && (p.left != 0 ==> JoinedChunks(cs) == s)
    decreases |s|
  {
    hide Unpacked, Minus32, Inflated, JoinedChunks, AllInflate, MarkerAt;
    if s == [] || left == 0 {
      NothingInOrder(s, left, inflate);
      cs := [];
    } else {
      var e, p := UnpackedStep(s, left, inflate);
      var bytes, rest := inflate(s[..e]).value, s[e + 4..];
      var more := UnpackedInOrder(rest, Minus32(left, |bytes|), inflate);
      cs := [s[..e]] + more;
      InflatedFirst(s[..e], more, inflate);
      Minus32Twice(left, |bytes|, |p.output|);
      ChunkInFront(s, e, more);
    }
  }

  /** A chunk in front that can be told from what follows. */
  lemma UnpackedFirst(c: seq<byte>, rest: seq<byte>, left: uint32, inflate: OldInflater)
    requires Unbroken(c) && Begins(rest) && inflate(c).Some? && left != 0
    ensures
      var s, bytes := c + END_OF_CHUNK + rest, inflate(c).value;
      && Unpacked(s, left, inflate) == Onto(bytes, Unpacked(rest, Minus32(left, |bytes|), inflate))
      && (Searchable(rest, Minus32(left, |bytes|), inflate) ==> Searchable(s, left, inflate))
  {
    hide ChunkEnd, EndSearchable, Unbroken, Begins, Onto;
    var s := c + END_OF_CHUNK + rest;
    FirstChunk(c, rest);
    EndedIsSearchable(s, 0);
    assert s[..|c|] == c && s[|c| + 4..] == rest;
  }

  /** The chunks come to no more than is counted, and all of them are unpacked. */
  predicate UnpacksAll(cs: seq<seq<byte>>, behind: seq<byte>, left: uint32, inflate: OldInflater) {
    var output, s := Inflated(cs, inflate), JoinedChunks(cs) + behind;
    && |output| <= left && Unpacked(s, left, inflate) == Some(Progress(output, left - |output|))
    && Searchable(s, left, inflate)
  }

  lemma UnpackedOneMore(c: seq<byte>, cs: seq<seq<byte>>, behind: seq<byte>, left: uint32, inflate: OldInflater)
    requires Unbroken(c) && Begins(JoinedChunks(cs) + behind) && inflate(c).Some?
    requires left != 0 && |inflate(c).value| <= left
    requires UnpacksAll(cs, behind, left - |inflate(c).value|, inflate)
    ensures UnpacksAll([c] + cs, behind, left, inflate)
  {
    hide Unpacked, Searchable, Minus32, Unbroken, Begins, Inflated, JoinedChunks;
    Minus32Twice(left, |inflate(c).value|, 0);
    UnpackedFirst(c, JoinedChunks(cs) + behind, left, inflate);
    InflatedFirst(c, cs, inflate);
    assert c + END_OF_CHUNK + JoinedChunks(cs) + behind == c + END_OF_CHUNK + (JoinedChunks(cs) + behind);
  }

  /** Chunks that can be told apart and come to no more than is counted are all unpacked, but for ones at
      the end that add nothing. Where they come to just that, anything that does not start with an odd byte
      may follow: the loop does not look at it. */
  lemma {:induction false} UnpackedAll(cs: seq<seq<byte>>, behind: seq<byte>, left: uint32, inflate: OldInflater)
    requires Separable(cs) && AllInflate(cs, inflate) && |Inflated(cs, inflate)| <= left && Begins(behind)
    requires behind == [] || |Inflated(cs, inflate)| == left
    ensures UnpacksAll(cs, behind, left, inflate)
  {
    hide UnpacksAll, Separable, Unbroken, Begins, Inflated, JoinedChunks;
    if cs == [] || left == 0 {
      UnpackedNothing(cs, behind, left, inflate);
    } else {
      var more := cs[1..];
      assert cs == [cs[0]] + more;
      SeparableStep(cs);
      BeginsBehind(more, behind);
      InflatedFirst(cs[0], more, inflate);
      UnpackedAll(more, behind, left - |inflate(cs[0]).value|, inflate);
      UnpackedOneMore(cs[0], more, behind, left, inflate);
    }
  }

  lemma BeginsBehind(cs: seq<seq<byte>>, behind: seq<byte>)
    requires Begins(behind) && (cs == [] || Begins(cs[0]))
    ensures Begins(JoinedChunks(cs) + behind)
  {
    JoinedBegins(cs);
    hide JoinedChunks, Odd;
    var s := JoinedChunks(cs);
    if s == [] {
      assert s + behind == behind;
    } else {
      assert (s + behind)[0] == s[0];
    }
  }

  lemma UnpackedNothing(cs: seq<seq<byte>>, behind: seq<byte>, left: uint32, inflate: OldInflater)
    requires (cs == [] || left == 0) && |Inflated(cs, inflate)| <= left
    requires behind == [] || |Inflated(cs, inflate)| == left
    ensures UnpacksAll(cs, behind, left, inflate)
  {
    hide JoinedChunks, ChunkEnd, EndSearchable;
    if left != 0 {
      NothingJoined();
    }
  }

  lemma NothingJoined()
    ensures JoinedChunks([]) == []
  {
  }
}
