/**
 The chunks of old cabinets, told apart by a marker that may also occur inside of them (lib/file.c).
 */
module OldChunks {
  import opened Bytes
  import opened Cabinet

  const END_OF_CHUNK: seq<byte> := [0x00, 0x00, 0xFF, 0xFF]

  predicate MarkerAt(s: seq<byte>, i: nat) {
    i + 4 <= |s| && s[i] == 0x00 && s[i + 1] == 0x00 && s[i + 2] == 0xFF && s[i + 3] == 0xFF
  }

  predicate Odd(b: byte) { b & 1 != 0 }

  lemma OddInNumbers(b: byte)
    ensures Odd(b) <==> b as int % 2 == 1
  {
  }

  /** The four bytes of the marker. */
  predicate HasMarker(s: seq<byte>, i: nat) {
    i + 4 <= |s| && s[i..i + 4] == [0x00, 0x00, 0xFF, 0xFF]
  }

  lemma MarkerInBytes(s: seq<byte>, i: nat)
    ensures MarkerAt(s, i) <==> HasMarker(s, i)
  {
    if i + 4 <= |s| {
      var t := s[i..i + 4];
      assert t[0] == s[i] && t[1] == s[i + 1] && t[2] == s[i + 2] && t[3] == s[i + 3];
    }
  }

  /** A marker ends its chunk unless an odd byte follows. */
  predicate EndsChunk(s: seq<byte>, i: nat) {
    MarkerAt(s, i) && (i + 4 == |s| || !Odd(s[i + 4]))
  }

  predicate Terminated(s: seq<byte>) {
    |s| >= 4 && MarkerAt(s, |s| - 4)
  }

  /** Markers do not overlap. */
  lemma NoOverlap(s: seq<byte>, i: nat, j: nat)
    requires MarkerAt(s, i) && MarkerAt(s, j) && i < j
    ensures i + 4 <= j
  {
  }

  // ----- Splitting -----

  /** The length of the first chunk: the first marker from `from` on that ends a chunk. */
  function ChunkEnd(s: seq<byte>, from: nat): (r: Option<nat>)
    ensures r.Some? ==> from <= r.value && r.value + 4 <= |s| && EndsChunk(s, r.value)
    ensures forall i :: from <= i < (if r.Some? then r.value else |s|) ==> !EndsChunk(s, i)
    decreases |s| - from
  {
    if from + 4 > |s| then None
    else if EndsChunk(s, from) then Some(from)
    else ChunkEnd(s, from + 1)
  }

  lemma RestTerminated(s: seq<byte>, e: nat)
    requires Terminated(s) && MarkerAt(s, e)
    ensures s[e + 4..] == [] || Terminated(s[e + 4..])
  {
    if e < |s| - 4 {
      NoOverlap(s, e, |s| - 4);
    }
  }

  lemma TerminatedEnds(s: seq<byte>)
    requires Terminated(s)
    ensures ChunkEnd(s, 0).Some?
  {
    assert EndsChunk(s, |s| - 4);
  }

  function Chunks(s: seq<byte>): seq<seq<byte>>
    requires s == [] || Terminated(s)
    decreases |s|
  {
    if s == [] then []
    else
      TerminatedEnds(s);
      var e := ChunkEnd(s, 0).value;
      RestTerminated(s, e);
      [s[..e]] + Chunks(s[e + 4..])
  }

  function JoinedChunks(cs: seq<seq<byte>>): seq<byte> {
    if cs == [] then [] else cs[0] + END_OF_CHUNK + JoinedChunks(cs[1..])
  }

  lemma MarkerBytes(s: seq<byte>, i: nat)
    requires MarkerAt(s, i)
    ensures s[i..i + 4] == END_OF_CHUNK && s == s[..i] + END_OF_CHUNK + s[i + 4..]
  {
    assert s[i..i + 4] == END_OF_CHUNK;
    assert s == s[..i] + s[i..i + 4] + s[i + 4..];
  }

  lemma ChunksFirst(s: seq<byte>)
    requires Terminated(s)
    ensures
      && ChunkEnd(s, 0).Some?
      && var e := ChunkEnd(s, 0).value;
         (s[e + 4..] == [] || Terminated(s[e + 4..])) && Chunks(s) == [s[..e]] + Chunks(s[e + 4..])
  {
    hide ChunkEnd, MarkerAt;
    TerminatedEnds(s);
    RestTerminated(s, ChunkEnd(s, 0).value);
  }

  /** Splitting loses nothing: joined again, the chunks are what was split. */
  lemma {:induction false} JoinedAgain(s: seq<byte>)
    requires s == [] || Terminated(s)
    ensures JoinedChunks(Chunks(s)) == s
    decreases |s|
  {
    if s != [] {
      ChunksFirst(s);
      var e := ChunkEnd(s, 0).value;
      MarkerBytes(s, e);
      hide Chunks, ChunkEnd, MarkerAt, Terminated;
      var rest := s[e + 4..];
      JoinedAgain(rest);
      assert ([s[..e]] + Chunks(rest))[1..] == Chunks(rest);
    }
  }

  // ----- When joining can be undone -----

  /** Read with its closing marker, the chunk has an odd byte behind every other marker in it. */
  predicate Unbroken(c: seq<byte>) {
    var s := c + [0x00, 0x00, 0xFF, 0xFF];
    forall j :: 0 <= j < |c| && HasMarker(s, j) ==> s[j + 4] as int % 2 == 1
  }

  predicate Begins(s: seq<byte>) {
    s == [] || s[0] as int % 2 == 0
  }

  /** Chunks that can be told apart: each is unbroken, and none after the first starts with an odd byte. */
  predicate Separable(cs: seq<seq<byte>>) {
    && (forall i :: 0 <= i < |cs| ==> Unbroken(cs[i]))
    && (forall i :: 1 <= i < |cs| ==> Begins(cs[i]))
  }

  lemma {:induction false} JoinedTerminated(cs: seq<seq<byte>>)
    ensures JoinedChunks(cs) == [] || Terminated(JoinedChunks(cs))
    ensures JoinedChunks(cs) == [] <==> cs == []
  {
    if cs != [] {
      JoinedTerminated(cs[1..]);
      var s, rest := JoinedChunks(cs), JoinedChunks(cs[1..]);
      assert s[|s| - |rest|..] == rest;
    }
  }

  lemma JoinedBegins(cs: seq<seq<byte>>)
    ensures Begins(JoinedChunks(cs)) <==> cs == [] || Begins(cs[0])
  {
    if cs != [] && cs[0] == [] {
      assert JoinedChunks(cs)[0] == 0;
    }
  }

  lemma AppendedMarker(c: seq<byte>, rest: seq<byte>, j: nat)
    requires j <= |c|
    ensures MarkerAt(c + END_OF_CHUNK + rest, |c|)
    ensures MarkerAt(c + END_OF_CHUNK + rest, j) ==> j == |c| || j + 4 <= |c|
    ensures MarkerAt(c + END_OF_CHUNK + rest, j) <==> MarkerAt(c + END_OF_CHUNK, j)
  {
    var s, t := c + END_OF_CHUNK + rest, c + END_OF_CHUNK;
    assert forall k :: 0 <= k < |t| ==> s[k] == t[k];
    if MarkerAt(s, j) && j < |c| {
      NoOverlap(s, j, |c|);
    }
  }

  lemma AppendedEnds(c: seq<byte>, rest: seq<byte>, j: nat)
    requires j <= |c|
    ensures EndsChunk(c + END_OF_CHUNK + rest, |c|) <==> Begins(rest)
    ensures j < |c| ==>
      (EndsChunk(c + END_OF_CHUNK + rest, j)
       <==> MarkerAt(c + END_OF_CHUNK, j) && !Odd((c + END_OF_CHUNK)[j + 4]))
  {
    AppendedMarker(c, rest, j);
    hide MarkerAt, Odd;
    var s, t := c + END_OF_CHUNK + rest, c + END_OF_CHUNK;
    assert forall k :: 0 <= k < |t| ==> s[k] == t[k];
    if rest != [] {
      assert s[|c| + 4] == rest[0];
      OddInNumbers(rest[0]);
    }
  }

  /** The first chunk found in `c`, a marker and `rest` is `c` itself exactly when `c` is unbroken and
      `rest` starts with no odd byte. */
  lemma FirstChunk(c: seq<byte>, rest: seq<byte>)
    ensures ChunkEnd(c + END_OF_CHUNK + rest, 0) == Some(|c|) <==> Unbroken(c) && Begins(rest)
  {
    var s := c + END_OF_CHUNK + rest;
    AppendedEnds(c, rest, |c|);
    forall j | 0 <= j < |c|
      ensures EndsChunk(s, j) <==> MarkerAt(c + END_OF_CHUNK, j) && !Odd((c + END_OF_CHUNK)[j + 4])
    {
      AppendedEnds(c, rest, j);
    }
    UnbrokenMeans(c);
    hide MarkerAt, Odd, EndsChunk, Begins, Unbroken, ChunkEnd;
    var e := ChunkEnd(s, 0);
    assert e == None ==> !EndsChunk(s, |c|);
    assert e.Some? ==> e.value <= |c| || !EndsChunk(s, |c|);
  }

  lemma UnbrokenMeans(c: seq<byte>)
    ensures Unbroken(c)
       <==> forall j :: 0 <= j < |c| ==> !(MarkerAt(c + END_OF_CHUNK, j) && !Odd((c + END_OF_CHUNK)[j + 4]))
  {
    var s := c + END_OF_CHUNK;
    forall j | 0 <= j < |c|
      ensures MarkerAt(s, j) <==> HasMarker(s, j)
      ensures Odd(s[j + 4]) <==> s[j + 4] as int % 2 == 1
    {
      MarkerInBytes(s, j);
      OddInNumbers(s[j + 4]);
    }
    hide MarkerAt, HasMarker, Odd;
  }

  lemma BehindMarker(c: seq<byte>, rest: seq<byte>)
    ensures (c + END_OF_CHUNK + rest)[..|c|] == c && (c + END_OF_CHUNK + rest)[|c| + 4..] == rest
  {
  }

  /** Splitting gives the first chunk back exactly when it can be told from what follows. */
  lemma SplitFirst(c: seq<byte>, rest: seq<byte>)
    requires Terminated(c + END_OF_CHUNK + rest) && (rest == [] || Terminated(rest))
    ensures
      var split := Chunks(c + END_OF_CHUNK + rest);
      && split != []
      && if Unbroken(c) && Begins(rest) then split == [c] + Chunks(rest) else split[0] != c
  {
    hide Chunks, Unbroken, Begins, ChunkEnd, Terminated;
    var s := c + END_OF_CHUNK + rest;
    FirstChunk(c, rest);
    ChunksFirst(s);
    BehindMarker(c, rest);
    var e := ChunkEnd(s, 0).value;
    assert e != |c| ==> |Chunks(s)[0]| == e;
  }

  /** Splitting what was joined gives the chunks back exactly when they can be told apart. */
  lemma {:induction false} SplitAgain(cs: seq<seq<byte>>)
    ensures JoinedChunks(cs) == [] || Terminated(JoinedChunks(cs))
    ensures Chunks(JoinedChunks(cs)) == cs <==> Separable(cs)
  {
    hide Chunks, Separable, Unbroken, Begins, Terminated;
    JoinedTerminated(cs);
    if cs == [] {
      assert JoinedChunks(cs) == [];
      NoChunks();
    } else {
      var more := cs[1..];
      SeparableStep(cs);
      JoinedTerminated(more);
      SplitFirst(cs[0], JoinedChunks(more));
      SplitAgain(more);
      JoinedBegins(more);
      hide JoinedChunks;
      assert cs == [cs[0]] + more;
      assert ([cs[0]] + Chunks(JoinedChunks(more)))[1..] == Chunks(JoinedChunks(more));
    }
  }

  lemma NoChunks()
    ensures Chunks([]) == [] && Separable([])
  {
  }

  lemma SeparableStep(cs: seq<seq<byte>>)
    requires cs != []
    ensures Separable(cs) <==> Unbroken(cs[0]) && Separable(cs[1..]) && (cs[1..] == [] || Begins(cs[1..][0]))
  {
    hide Unbroken, Begins;
    var ds := cs[1..];
    assert forall i :: 0 <= i < |ds| ==> ds[i] == cs[i + 1];
    if Unbroken(cs[0]) && Separable(ds) && (ds == [] || Begins(ds[0])) {
      forall i | 0 <= i < |cs|
        ensures Unbroken(cs[i]) && (i > 0 ==> Begins(cs[i]))
      {
        if i > 0 {
          assert cs[i] == ds[i - 1];
        }
      }
    }
  }
}
