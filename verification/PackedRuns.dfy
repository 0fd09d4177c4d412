/**
 Whole runs of queries and saves over cabinets of version 6 and later whose files are packed: what every reply
 says, whatever came before it (lib/file.c).
 */
module PackedRuns {
  import opened Bytes
  import opened Cabinet
  import opened Reader
  import opened SaveLoops
  import opened Outcomes
  import opened OldChunks
  import opened Leaves
  import opened SecondSaves
  import opened OldSaves
  import opened Unshield
  import opened Session
  import opened Packing
  import Unpacking
  import Md5
  import Openings

  /** A file as it was packed: as it is, in frames for a save, or in rows of chunks for an old save. */
  datatype File =
    | Plainly(parts: seq<Part>, contents: seq<byte>)
    | Framed(parts: seq<Part>, frames: seq<Frame>)
    | InChunks(parts: seq<Part>, rows: seq<seq<seq<byte>>>)

  /** What the volumes have of it, in plain. */
  function RowsOf(rows: seq<seq<seq<byte>>>): seq<byte> {
    if rows == [] then [] else Chunked(rows[0]) + RowsOf(rows[1..])
  }

  function Raw(file: File): seq<byte> {
    match file
    case Plainly(_, contents) => contents
    case Framed(_, frames) => Joined(frames)
    case InChunks(_, rows) => RowsOf(rows)
  }

  ghost predicate Framable(c: Setting, d: Descriptor, file: File)
    requires file.Framed?
  {
    var output := SaveLoops.Inflated(file.frames, c.inflate);
    && ValidFrames(file.frames, c.inflate) && FramesClear(file.frames, file.parts, 0)
    && |output| % 0x1_0000_0000_0000_0000 == d.expandedSize && Md5.Digest(output) == d.md5
  }

  ghost predicate Chunkable(c: Setting, d: Descriptor, file: File)
    requires file.InChunks?
  {
    && ChunksIn(file.parts, file.rows, d.flags, 0) && Unpacking.AllInflate(Flatten(file.rows), c.oldInflate)
    && |Unpacking.Inflated(Flatten(file.rows), c.oldInflate)| == d.expandedSize < 0x1_0000_0000
  }

  /** The file is packed in its first volume and those behind it, and none of them ends where a save would start
      to read. */
  ghost predicate HasFile(c: Setting, i: nat, file: File)
    requires i < |c.table|
  {
    var d := c.table[i];
    && Packed(c.archive, i, d, d.volume, file.parts) && Together(file.parts) == Stored(d.flags, Raw(file), 0)
    && BuffersClear(file.parts, |Raw(file)|) && (file.Plainly? <==> !Compressed(d.flags))
    && (file.Plainly? ==> Md5.Digest(file.contents) == d.md5)
    && (file.Framed? ==> Framable(c, d, file)) && (file.InChunks? ==> Chunkable(c, d, file))
  }

  /** One link after the other leads to a file that is not linked. */
  ghost predicate Leads(c: Setting, path: seq<nat>)
  {
    && path != [] && path[0] < |c.table|
    && var d := c.table[path[0]];
       if |path| == 1 then d.linkFlags % 2 == 0
       else
         && d.linkFlags % 2 == 1 && d.linkPrevious == path[1] && d.flags / 8 % 2 == 0 && d.dataOffset != 0
         && Leads(c, path[1..])
  }

  function Last(path: seq<nat>): nat
    requires path != []
  {
    path[|path| - 1]
  }

  ghost predicate AllPacked(c: Setting, files: seq<File>, paths: seq<seq<nat>>) {
    && c.archive.majorVersion >= 6 && Sensible(c) && |files| == |paths| == |c.table| < 0x8000_0000
    && forall i :: 0 <= i < |paths| ==> PathOf(c, files, i, paths[i])
  }

  ghost predicate PathOf(c: Setting, files: seq<File>, i: nat, path: seq<nat>) {
    && path != [] && path[0] == i && Leads(c, path) && Last(path) < |c.table| == |files|
    && HasFile(c, Last(path), files[Last(path)])
  }

  /** A reply tells that these bytes were written, where the file can be opened and has room for them. */
  predicate Writes(reply: Reply, sink: Sink, bytes: seq<byte>) {
    && (reply.success <==> sink.Discarded? || (sink.openable && |bytes| <= sink.room))
    && (reply.success && sink.Into? ==> reply.written == bytes)
  }

  /** Without regard to anything that came before. A save of what is in chunks, and an old save of what is in
      frames, are left open. */
  ghost predicate Expected(c: Setting, files: seq<File>, paths: seq<seq<nat>>, op: Operation, reply: Reply)
    requires AllPacked(c, files, paths)
  {
    if !(0 <= op.index < |c.table|) then !reply.success
    else
      assert PathOf(c, files, op.index, paths[op.index]);
      var file := files[Last(paths[op.index])];
      match op
      case Query(_) => reply.success
      case Saving(_, sink) =>
        && (file.Plainly? ==> Writes(reply, sink, file.contents))
        && (file.Framed? ==> Writes(reply, sink, SaveLoops.Inflated(file.frames, c.inflate)))
      case SavingRaw(_, sink) => Writes(reply, sink, Raw(file))
      case SavingOld(_, _, sink) =>
        && (file.Plainly? ==> Writes(reply, sink, file.contents))
        && (file.InChunks? ==> Writes(reply, sink, Unpacking.Inflated(Flatten(file.rows), c.oldInflate)))
  }

  /** The entries as a fresh parse gives them. */
  function Parsed(c: Setting): seq<Entry> {
    seq(|c.table|, i requires 0 <= i < |c.table| => (c.table[i].flags, c.table[i].volume))
  }

  // ----- Links -----

  lemma {:induction false} EndOfLinks(c: Setting, path: seq<nat>)
    requires Sensible(c) && |c.table| < 0x8000_0000 && Leads(c, path)
    ensures Target(c.table, c.archive.fileCount, c.rank, path[0]) == Last(path)
    decreases |path|
  {
    var d := c.table[path[0]];
    FlagsInNumbers(d.flags);
    LinkedInNumbers(d);
    LinkParity(d.linkFlags);
    hide IsInvalid, IsLinked;
    assert IsIndex(path[0], c.archive.fileCount);
    if |path| > 1 {
      EndOfLinks(c, path[1..]);
    }
  }

  lemma LinkParity(f: bv8)
    ensures f % 2 == 0 || f % 2 == 1
  {
  }

  lemma NoSuchFile(c: Setting, index: int)
    requires Sensible(c) && |c.table| < 0x8000_0000
    ensures !(0 <= index < |c.table|) ==> Target(c.table, c.archive.fileCount, c.rank, index) == index
    ensures IsIndex(index, c.archive.fileCount) <==> 0 <= index < |c.table|
  {
  }

  lemma TargetIsLast(c: Setting, files: seq<File>, paths: seq<seq<nat>>, op: Operation)
    requires AllPacked(c, files, paths)
    ensures
      if !(0 <= op.index < |c.table|) then TargetOf(c, op) == None
      else
        && PathOf(c, files, op.index, paths[op.index])
        && TargetOf(c, op) == Some(if op.Query? then op.index else Last(paths[op.index]))
  {
    hide IsIndex, Sensible, Leads, HasFile, Target;
    NoSuchFile(c, op.index);
    if 0 <= op.index < |c.table| {
      assert PathOf(c, files, op.index, paths[op.index]);
      EndOfLinks(c, paths[op.index]);
      NoSuchFile(c, Last(paths[op.index]));
    }
  }

  // ----- Entries stay as they are -----

  lemma NothingShown(a: Archive, index: nat, d: Descriptor, f: flags, v: int)
    requires a.majorVersion >= 6
    ensures Settled(a, index, d, f, v)
    ensures v in a.volumes ==>
      FlagsAfter(a, index, d, f, ReadHeader(a, v)) == f && !ComesLater(a, index, ReadHeader(a, v))
  {
    hide IsSplit, ReadHeader;
  }

  lemma SearchedHere(a: Archive, index: nat, d: Descriptor, f: flags, v: uint16, gap: nat)
    requires Missing(a, gap) && a.majorVersion >= 6
    ensures Searched(a, index, d, f, v, gap) == (f, v)
    ensures Steady(a, index, d, f, v, gap) && OldSteady(a, index, d, f, v, gap)
  {
    hide FlagsAfter, ReadHeader, ComesLater, Start, Searched, Settled, Opened;
    NothingShown(a, index, d, f, v);
    StartStep(a, index, d, f, v, AT_REST, gap);
    if v in a.volumes {
      var c := Opened(a, index, d, f, AT_REST, v);
      NothingShown(a, index, d, f, 1);
      NothingShown(a, index, d, f, c.volume + 1);
    }
  }

  lemma RawStays(a: Archive, index: nat, d: Descriptor, f: flags, v: uint16, gap: nat, sink: Sink)
    requires Missing(a, gap) && a.majorVersion >= 6
    ensures RawLeaves(a, index, d, f, v, gap, sink) == (f, v)
  {
    SearchedHere(a, index, d, f, v, gap);
    BeginSearched(a, index, d, f, v, gap);
    hide IsInvalid, Searched, Begin, LoopReached, IsObfuscated, SizeInVolume, Steady, OldSteady;
    if Begin(a, index, d, f, v, gap).Some? {
      var (s, f') := Begin(a, index, d, f, v, gap).value;
      SteadyFlags(a, index, d, f, v, gap);
      LoopFlags(s, IsObfuscated(f'), false, SizeInVolume(d, f'), NotInflated, RoomIn(sink), f');
    }
  }

  lemma EntryStays(c: Setting, op: Operation, t: nat)
    requires Sensible(c) && c.archive.majorVersion >= 6 && t < |c.table|
    ensures var e := (c.table[t].flags, c.table[t].volume); Session.Left(c, op, t, e) == e
  {
    var a, d := c.archive, c.table[t];
    var f, v := d.flags, d.volume;
    SearchedHere(a, t, d, f, v, c.gap);
    hide IsInvalid, Searched, SaveLeaves, RawLeaves, OldLeaves, Steady, OldSteady;
    match op
    case Query(_) =>
    case Saving(_, sink) =>
      if IsInvalid(f) || d.dataOffset == 0 {
        NothingLeft(a, t, d, f, v, c.gap, sink);
      } else {
        LeavesSearched(a, t, d, f, v, c.gap, c.inflate, sink);
      }
    case SavingRaw(_, sink) =>
      RawStays(a, t, d, f, v, c.gap, sink);
    case SavingOld(_, external, sink) =>
      if IsInvalid(f) || d.dataOffset == 0 {
        NothingLeft(a, t, d, f, v, c.gap, sink);
      } else {
        OldLeavesSearched(a, t, d, f, v, c.gap, Lookup(external, t), c.oldInflate, sink);
      }
  }

  lemma EntriesStay(c: Setting, op: Operation)
    requires Sensible(c) && c.archive.majorVersion >= 6
    ensures Session.After(c, Parsed(c), op) == Parsed(c)
  {
    hide Sensible, Session.Left;
    if TargetOf(c, op).Some? {
      EntryStays(c, op, TargetOf(c, op).value);
    }
  }

  lemma {:induction false} AllStays(c: Setting, ops: seq<Operation>)
    requires Sensible(c) && c.archive.majorVersion >= 6
    ensures AfterAll(c, Parsed(c), ops) == Parsed(c)
    decreases |ops|
  {
    hide Sensible, Session.After;
    if ops != [] {
      AllStays(c, ops[..|ops| - 1]);
      EntriesStay(c, ops[|ops| - 1]);
    }
  }

  // ----- Replies -----

  lemma RawFound(c: Setting, i: nat, file: File)
    requires Sensible(c) && i < |c.table| && HasFile(c, i, file)
    ensures RawOutcome(c.archive, i, c.table[i], c.table[i].flags, c.table[i].volume, c.gap) == Some(Raw(file))
  {
    hide Packed, RawOutcome, BuffersClear, Together, Stored, Framable, Chunkable;
    RawOfPacked(c.archive, i, c.table[i], c.table[i].volume, file.parts, Raw(file), c.gap);
  }

  lemma PlainFound(c: Setting, i: nat, file: File, external: Option<seq<byte>>)
    requires Sensible(c) && i < |c.table| && HasFile(c, i, file) && file.Plainly?
    ensures
      var d := c.table[i];
      && SaveOutcome(c.archive, i, d, d.flags, d.volume, c.gap, c.inflate) == Some(file.contents)
      && OldOutcome(c.archive, i, d, d.flags, d.volume, c.gap, external, c.oldInflate) == Some(file.contents)
  {
    hide Packed, SaveOutcome, OldOutcome, BuffersClear, Together, Stored, Md5.Digest;
    var d := c.table[i];
    SaveOfPacked(c.archive, i, d, d.volume, file.parts, file.contents, c.gap, c.inflate);
    OldOfPacked(c.archive, i, d, d.volume, file.parts, file.contents, c.gap, external, c.oldInflate);
  }

  lemma FramedFound(c: Setting, i: nat, file: File)
    requires Sensible(c) && i < |c.table| && HasFile(c, i, file) && file.Framed?
    ensures
      var d := c.table[i];
      SaveOutcome(c.archive, i, d, d.flags, d.volume, c.gap, c.inflate)
      == Some(SaveLoops.Inflated(file.frames, c.inflate))
  {
    hide Packed, SaveOutcome, BuffersClear, Together, Stored, Md5.Digest, ValidFrames, FramesClear, SaveLoops.Inflated;
    var d := c.table[i];
    SaveOfFramed(c.archive, i, d, d.volume, file.parts, file.frames, c.gap, c.inflate);
  }

  lemma ChunksFound(c: Setting, i: nat, file: File, external: Option<seq<byte>>)
    requires Sensible(c) && i < |c.table| && HasFile(c, i, file) && file.InChunks?
    ensures
      var d := c.table[i];
      && OldReadable(c.archive, i, d, d.flags, d.volume, c.gap, external, c.oldInflate)
      && OldOutcome(c.archive, i, d, d.flags, d.volume, c.gap, external, c.oldInflate)
         == Some(Unpacking.Inflated(Flatten(file.rows), c.oldInflate))
  {
    hide Packed, OldOutcome, OldReadable, BuffersClear, Together, Stored, ChunksIn, Unpacking.AllInflate;
    hide Unpacking.Inflated, Flatten;
    var d := c.table[i];
    OldOfChunks(c.archive, i, d, d.volume, file.parts, file.rows, c.gap, external, c.oldInflate);
  }

  /** What an operation on a file that is there is defined to come to. */
  lemma Found(c: Setting, i: nat, file: File, op: Operation)
    requires Sensible(c) && i < |c.table| && HasFile(c, i, file)
    ensures
      var outcome := Outcome(c, op, i, (c.table[i].flags, c.table[i].volume));
      && (op.SavingRaw? ==> outcome == Some(Raw(file)))
      && (!op.Query? && file.Plainly? ==> outcome == Some(file.contents))
      && (op.Saving? && file.Framed? ==> outcome == Some(SaveLoops.Inflated(file.frames, c.inflate)))
      && (op.SavingOld? && file.InChunks? ==>
            outcome == Some(Unpacking.Inflated(Flatten(file.rows), c.oldInflate)))
  {
    RawFound(c, i, file);
    var external := if op.SavingOld? then Lookup(op.external, i) else None;
    hide Sensible, HasFile, SaveOutcome, RawOutcome, OldOutcome, Unpacking.Inflated, SaveLoops.Inflated, Flatten;
    hide OldReadable;
    if file.Plainly? {
      PlainFound(c, i, file, external);
    } else if file.Framed? {
      FramedFound(c, i, file);
    } else {
      ChunksFound(c, i, file, external);
    }
  }

  lemma Answered(c: Setting, op: Operation, i: nat, reply: Reply)
    requires Sensible(c) && TargetOf(c, op) == Some(i) && Answers(c, Parsed(c), op, reply)
    ensures
      var outcome := Outcome(c, op, i, (c.table[i].flags, c.table[i].volume));
      outcome.Some? ==> (op.Query? ==> reply.success) && (!op.Query? ==> Writes(reply, op.sink, outcome.value))
  {
    hide Sensible, TargetOf, SaveOutcome, RawOutcome, OldOutcome;
  }

  /** What the reply of an operation on a file of its own says. */
  lemma FileReplies(c: Setting, i: nat, file: File, op: Operation, reply: Reply)
    requires Sensible(c) && i < |c.table| && HasFile(c, i, file) && !op.Query?
    requires TargetOf(c, op) == Some(i) && Answers(c, Parsed(c), op, reply)
    ensures op.SavingRaw? ==> Writes(reply, op.sink, Raw(file))
    ensures file.Plainly? ==> Writes(reply, op.sink, file.contents)
    ensures op.Saving? && file.Framed? ==> Writes(reply, op.sink, SaveLoops.Inflated(file.frames, c.inflate))
    ensures op.SavingOld? && file.InChunks? ==>
      Writes(reply, op.sink, Unpacking.Inflated(Flatten(file.rows), c.oldInflate))
  {
    Answered(c, op, i, reply);
    Found(c, i, file, op);
    hide *;
  }

  lemma OtherReplies(c: Setting, op: Operation, reply: Reply)
    requires Sensible(c) && Answers(c, Parsed(c), op, reply)
    ensures TargetOf(c, op) == None ==> !reply.success
    ensures op.Query? && TargetOf(c, op) != None ==> reply.success
  {
    if op.Query? && TargetOf(c, op).Some? {
      QueryFound(c, op, TargetOf(c, op).value);
      Answered(c, op, TargetOf(c, op).value, reply);
    }
    hide Sensible, TargetOf, Outcome, Writes;
  }

  lemma ReplyExpected(c: Setting, files: seq<File>, paths: seq<seq<nat>>, op: Operation, reply: Reply)
    requires AllPacked(c, files, paths) && Answers(c, Parsed(c), op, reply)
    ensures Expected(c, files, paths, op, reply)
  {
    hide Sensible, HasFile, TargetOf, Answers, Writes, Leads, Unpacking.Inflated, SaveLoops.Inflated, Flatten;
    TargetIsLast(c, files, paths, op);
    OtherReplies(c, op, reply);
    if 0 <= op.index < |c.table| && !op.Query? {
      assert PathOf(c, files, op.index, paths[op.index]);
      var i := Last(paths[op.index]);
      FileReplies(c, i, files[i], op, reply);
    }
  }

  lemma QueryFound(c: Setting, op: Operation, t: nat)
    requires Sensible(c) && t < |c.table|
    ensures op.Query? ==> Outcome(c, op, t, (c.table[t].flags, c.table[t].volume)).Some?
  {
  }

  /** In a run of any queries and saves, in any order, over such a cabinet, every reply is what was packed, and
      the entries stay as they were parsed. */
  lemma RunOfPacked(c: Setting, files: seq<File>, paths: seq<seq<nat>>, ops: seq<Operation>, replies: seq<Reply>)
    requires AllPacked(c, files, paths) && |replies| <= |ops| && AllAnswer(c, Parsed(c), ops, replies)
    ensures forall k :: 0 <= k < |replies| ==> Expected(c, files, paths, ops[k], replies[k])
    ensures AfterAll(c, Parsed(c), ops) == Parsed(c)
  {
    AllStays(c, ops);
    hide Sensible, PathOf, Answers, Expected, AfterAll;
    forall k | 0 <= k < |replies|
      ensures Expected(c, files, paths, ops[k], replies[k])
    {
      AllStays(c, ops[..k]);
      ReplyExpected(c, files, paths, ops[k], replies[k]);
    }
  }

  /** An old save is not asked for what is in frames. */
  ghost predicate Suitable(c: Setting, files: seq<File>, paths: seq<seq<nat>>, op: Operation)
    requires AllPacked(c, files, paths)
  {
    op.SavingOld? && 0 <= op.index < |c.table| ==>
      assert PathOf(c, files, op.index, paths[op.index]);
      !files[Last(paths[op.index])].Framed?
  }

  lemma CanPerform(c: Setting, files: seq<File>, paths: seq<seq<nat>>, op: Operation)
    requires AllPacked(c, files, paths) && Suitable(c, files, paths, op)
    ensures Performable(c, Parsed(c), op)
  {
    TargetIsLast(c, files, paths, op);
    if op.SavingOld? && 0 <= op.index < |c.table| {
      assert PathOf(c, files, op.index, paths[op.index]);
      var i := Last(paths[op.index]);
      var external := Lookup(op.external, i);
      hide Sensible, Leads, HasFile, TargetOf, OldReadable, AllPacked, Lookup;
      if files[i].Plainly? {
        PlainReadable(c, i, files[i], external);
      } else {
        ChunksFound(c, i, files[i], external);
      }
    }
  }

  lemma PlainReadable(c: Setting, i: nat, file: File, external: Option<seq<byte>>)
    requires Sensible(c) && i < |c.table| && HasFile(c, i, file) && file.Plainly?
    ensures
      var d := c.table[i];
      OldReadable(c.archive, i, d, d.flags, d.volume, c.gap, external, c.oldInflate)
  {
    var d := c.table[i];
    var s, g := PackedBegins(c.archive, i, d, d.volume, file.parts, c.gap);
    hide Begin, OldBegin, Packed, IsObfuscated, IsCompressed, Together, Stored, BuffersClear, Md5.Digest, Compressed;
    OldBeginInside(c.archive, i, d, d.flags, d.volume, c.gap, external);
  }

  /** Such a run can be performed, as far as old saves are only asked for files of their own or plain ones. */
  lemma RunPerformable(c: Setting, files: seq<File>, paths: seq<seq<nat>>, ops: seq<Operation>)
    requires AllPacked(c, files, paths) && forall k :: 0 <= k < |ops| ==> Suitable(c, files, paths, ops[k])
    ensures AllPerformable(c, Parsed(c), ops)
  {
    hide Sensible, PathOf, Performable, AfterAll, Suitable;
    forall k | 0 <= k < |ops|
      ensures Performable(c, AfterAll(c, Parsed(c), ops[..k]), ops[k])
    {
      AllStays(c, ops[..k]);
      CanPerform(c, files, paths, ops[k]);
    }
  }

  // ----- There are such cabinets -----

  /** A file in one part, not obfuscated and not compressed, known to be split or not. */
  lemma HasPlain(c: Setting, i: nat, parts: seq<Part>, contents: seq<byte>)
    requires i < |c.table| && c.table[i].flags < 2 && Packed(c.archive, i, c.table[i], c.table[i].volume, parts)
    requires Together(parts) == contents && BuffersClear(parts, |contents|) && Md5.Digest(contents) == c.table[i].md5
    ensures HasFile(c, i, Plainly(parts, contents))
  {
    SmallFlags(c.table[i].flags);
    hide Packed, Together, BuffersClear, Md5.Digest;
  }

  lemma SmallFlags(f: flags)
    requires f < 2
    ensures f / 2 % 2 == 0 && f / 4 % 2 == 0 && f / 8 % 2 == 0 && (f % 2 == 1 <==> f == 1)
  {
  }

  lemma WholePacked(a: Archive, i: nat, d: Descriptor, p: Part)
    requires a.majorVersion >= 6 && i < 0x8000_0000 && d.flags == 0 && d.volume in a.volumes
    requires IsIn(a.volumes[d.volume], p) && |p.front| == d.dataOffset != 0
    requires |p.bytes| == d.expandedSize < 0x1_0000_0000
    ensures Packed(a, i, d, d.volume, [p]) && Together([p]) == p.bytes && BuffersClear([p], |p.bytes|)
  {
    SmallFlags(d.flags);
    OnePart([p]);
    assert [p][0] == p;
  }

  function Plain(f: flags, offset: uint32, volume: uint16, contents: seq<byte>): Descriptor
    requires |contents| < 0x1_0000_0000
  {
    Descriptor(f, |contents|, |contents|, offset, Md5.Digest(contents), volume, 0, 0)
  }

  function TableFor(front: Part, back: Part): seq<Descriptor>
    requires TwoParts(front, back) && |front.bytes| + |back.bytes| < 0x1_0000_0000
  {
    [Plain(0, 84, 1, front.front[84..]), Plain(1, |front.front|, 1, front.bytes + back.bytes),
     Plain(0, 84 + |back.bytes|, 2, back.back)]
  }

  /** Three files in two volumes, the second of them across the edge. */
  ghost predicate Three(c: Setting, front: Part, back: Part) {
    && AcrossEdge(c.archive, front, back) && |front.front| > 84 && back.back != []
    && |front.bytes| + |back.bytes| < 0x1_0000_0000 && |front.bytes| % 0x1_0000 != 0
    && c.table == TableFor(front, back)
  }

  lemma FirstThere(c: Setting, front: Part, back: Part, p: Part)
    requires Three(c, front, back) && p == Part(front.front[..84], front.front[84..], front.bytes)
    ensures 1 in c.archive.volumes && IsIn(c.archive.volumes[1], p)
  {
    hide Plain;
    assert p.front + p.bytes + p.back == front.front + front.bytes;
  }

  lemma FirstOfThree(c: Setting, front: Part, back: Part, p: Part)
    requires Three(c, front, back) && p == Part(front.front[..84], front.front[84..], front.bytes)
    ensures HasFile(c, 0, Plainly([p], p.bytes))
  {
    FirstThere(c, front, back, p);
    var d := c.table[0];
    assert d.flags == 0 && d.volume == 1 && d.dataOffset == |p.front| && d.expandedSize == |p.bytes|;
    assert Md5.Digest(p.bytes) == d.md5 && c.archive.majorVersion == 6;
    hide *;
    WholePacked(c.archive, 0, d, p);
    HasPlain(c, 0, [p], p.bytes);
  }

  lemma SecondOfThree(c: Setting, front: Part, back: Part)
    requires Three(c, front, back)
    ensures HasFile(c, 1, Plainly([front, back], front.bytes + back.bytes))
  {
    hide Md5.Digest, Packed, Together, BuffersClear, HasFile, Stored;
    EdgePacked(c.archive, c.table[1], front, back);
    HasPlain(c, 1, [front, back], front.bytes + back.bytes);
  }

  lemma ThirdThere(c: Setting, front: Part, back: Part, p: Part)
    requires Three(c, front, back) && p == Part(back.front + back.bytes, back.back, [])
    ensures 2 in c.archive.volumes && IsIn(c.archive.volumes[2], p)
  {
    hide Plain;
    assert p.front + p.bytes + p.back == back.front + back.bytes + back.back;
  }

  lemma ThirdOfThree(c: Setting, front: Part, back: Part, p: Part)
    requires Three(c, front, back) && p == Part(back.front + back.bytes, back.back, [])
    ensures HasFile(c, 2, Plainly([p], p.bytes))
  {
    ThirdThere(c, front, back, p);
    var d := c.table[2];
    assert d.flags == 0 && d.volume == 2 && d.dataOffset == |p.front| && d.expandedSize == |p.bytes|;
    assert Md5.Digest(p.bytes) == d.md5 && c.archive.majorVersion == 6;
    hide *;
    WholePacked(c.archive, 2, d, p);
    HasPlain(c, 2, [p], p.bytes);
  }

  lemma NoLinks(c: Setting, front: Part, back: Part)
    requires Three(c, front, back) && c.gap == 0 && FitsBuffer(c.inflate) && FitsBuffer(c.oldInflate)
    ensures Sensible(c) && c.archive.majorVersion == 6 && |c.table| == 3
    ensures Leads(c, [0]) && Leads(c, [1]) && Leads(c, [2])
  {
    hide Md5.Digest, FitsBuffer;
    assert c.table[0].linkFlags == 0 && c.table[1].linkFlags == 0 && c.table[2].linkFlags == 0;
  }

  predicate ThreeContents(files: seq<File>, front: Part, back: Part) {
    && |files| == 3 && |front.front| > 84 && Raw(files[0]) == front.front[84..]
    && Raw(files[1]) == front.bytes + back.bytes && Raw(files[2]) == back.back
  }

  lemma SettingOf(front: Part, back: Part, inflate: Inflater, oldInflate: Unpacking.OldInflater) returns (c: Setting)
    requires TwoParts(front, back) && |front.front| > 84 && back.back != [] && |front.bytes| % 0x1_0000 != 0
    requires |front.bytes| + |back.bytes| < 0x1_0000_0000
    ensures Three(c, front, back) && c.gap == 0 && c.inflate == inflate && c.oldInflate == oldInflate
  {
    hide AcrossEdge, TableFor;
    var a := AcrossEdgeExists(front, back);
    c := Setting(a, TableFor(front, back), inflate, oldInflate, 0, i => 0);
  }

  lemma PackedExists(front: Part, back: Part, inflate: Inflater, oldInflate: Unpacking.OldInflater)
    returns (c: Setting, files: seq<File>, paths: seq<seq<nat>>)
    requires TwoParts(front, back) && |front.front| > 84 && back.back != [] && |front.bytes| % 0x1_0000 != 0
    requires |front.bytes| + |back.bytes| < 0x1_0000_0000 && FitsBuffer(inflate) && FitsBuffer(oldInflate)
    ensures AllPacked(c, files, paths) && ThreeContents(files, front, back)
  {
    hide *;
    c := SettingOf(front, back, inflate, oldInflate);
    files, paths := ThreeFiles(c, front, back);
  }

  lemma ThreeFiles(c: Setting, front: Part, back: Part) returns (files: seq<File>, paths: seq<seq<nat>>)
    requires Three(c, front, back) && c.gap == 0 && FitsBuffer(c.inflate) && FitsBuffer(c.oldInflate)
    ensures AllPacked(c, files, paths) && ThreeContents(files, front, back)
  {
    assert |front.front| > 84 && |c.table| == 3 && c.archive.majorVersion == 6;
    hide *;
    var first, last := Part(front.front[..84], front.front[84..], front.bytes),
                       Part(back.front + back.bytes, back.back, []);
    FirstOfThree(c, front, back, first);
    SecondOfThree(c, front, back);
    ThirdOfThree(c, front, back, last);
    NoLinks(c, front, back);
    files := [Plainly([first], first.bytes), Plainly([front, back], front.bytes + back.bytes),
              Plainly([last], last.bytes)];
    paths := [[0], [1], [2]];
    ContentsAre(files, first, last, front, back);
    OwnPath(c, files, 0);
    OwnPath(c, files, 1);
    OwnPath(c, files, 2);
    ThreePaths(c, files, paths);
  }

  lemma ContentsAre(files: seq<File>, first: Part, last: Part, front: Part, back: Part)
    requires |front.front| > 84 && first.bytes == front.front[84..] && last.bytes == back.back
    requires
      files == [Plainly([first], first.bytes), Plainly([front, back], front.bytes + back.bytes),
                Plainly([last], last.bytes)]
    ensures ThreeContents(files, front, back)
  {
  }

  lemma OwnPath(c: Setting, files: seq<File>, i: nat)
    requires i < |files| == |c.table| && HasFile(c, i, files[i]) && Leads(c, [i])
    ensures PathOf(c, files, i, [i])
  {
    hide HasFile, Leads;
  }

  lemma ThreePaths(c: Setting, files: seq<File>, paths: seq<seq<nat>>)
    requires c.archive.majorVersion >= 6 && Sensible(c) && |files| == |c.table| == 3 && paths == [[0], [1], [2]]
    requires PathOf(c, files, 0, [0]) && PathOf(c, files, 1, [1]) && PathOf(c, files, 2, [2])
    ensures AllPacked(c, files, paths)
  {
    hide Sensible, PathOf;
    forall i | 0 <= i < 3
      ensures PathOf(c, files, i, paths[i])
    {
      assert paths[0] == [0] && paths[1] == [1] && paths[2] == [2];
    }
  }
}
