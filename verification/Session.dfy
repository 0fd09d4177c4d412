/**
 Whole runs of queries and saves on an open set of cabinets, from one state of its cache to the next
 (lib/file.c).
 */
module Session {
  import opened Bytes
  import opened Cabinet
  import opened Reader
  import opened SaveLoops
  import opened Outcomes
  import opened Extraction
  import opened Leaves
  import opened Unpacking
  import opened OldSaves
  import opened Unshield

  datatype Operation =
    | Query(index: int)
    | Saving(index: int, sink: Sink)
    | SavingRaw(index: int, sink: Sink)
    | SavingOld(index: int, external: map<int, seq<byte>>, sink: Sink)

  /** Whether an operation succeeds, and what it has written into its file. */
  datatype Reply = Reply(success: bool, written: seq<byte>)

  /** What a run works on: the volumes, the descriptors as parsed, and how payloads and chunks are inflated.
      The last two fields serve proofs only: a volume that is not there, and a measure that links lower. */
  datatype Setting = Setting(archive: Archive, table: seq<Descriptor>, inflate: Inflater, oldInflate: OldInflater,
                             ghost gap: nat, ghost rank: int -> nat)

  ghost predicate Sensible(c: Setting) {
    && |c.table| == c.archive.fileCount && Missing(c.archive, c.gap) && Acyclic(c.table, c.rank)
    && FitsBuffer(c.inflate) && FitsBuffer(c.oldInflate)
  }

  /** The file that an operation is about, where links lead to one. */
  ghost function TargetOf(c: Setting, op: Operation): Option<nat>
    requires Sensible(c)
    ensures TargetOf(c, op).Some? ==> TargetOf(c, op).value < |c.table|
  {
    var t := if op.Query? then op.index else Target(c.table, c.archive.fileCount, c.rank, op.index);
    if IsIndex(t, c.archive.fileCount) then Some(t) else None
  }

  /** What an operation leaves of the entry of that file. */
  ghost function Left(c: Setting, op: Operation, t: nat, e: Entry): Entry
    requires Sensible(c) && t < |c.table|
  {
    match op
    case Query(_) => e
    case Saving(_, sink) => SaveLeaves(c.archive, t, c.table[t], e.0, e.1, c.gap, c.inflate, sink)
    case SavingRaw(_, sink) => RawLeaves(c.archive, t, c.table[t], e.0, e.1, c.gap, sink)
    case SavingOld(_, external, sink) =>
      OldLeaves(c.archive, t, c.table[t], e.0, e.1, c.gap, Lookup(external, t), c.oldInflate, sink)
  }

  /** What an operation writes, where there is room for it. */
  ghost function Outcome(c: Setting, op: Operation, t: nat, e: Entry): Option<seq<byte>>
    requires Sensible(c) && t < |c.table|
  {
    match op
    case Query(_) => Some([])
    case Saving(_, _) => SaveOutcome(c.archive, t, c.table[t], e.0, e.1, c.gap, c.inflate)
    case SavingRaw(_, _) => RawOutcome(c.archive, t, c.table[t], e.0, e.1, c.gap)
    case SavingOld(_, external, _) =>
      OldOutcome(c.archive, t, c.table[t], e.0, e.1, c.gap, Lookup(external, t), c.oldInflate)
  }

  /** The entries of all files after an operation. */
  ghost function After(c: Setting, entries: seq<Entry>, op: Operation): seq<Entry>
    requires Sensible(c) && |entries| == |c.table|
    ensures |After(c, entries, op)| == |entries|
  {
    match TargetOf(c, op)
    case None => entries
    case Some(t) => entries[t := Left(c, op, t, entries[t])]
  }

  function SinkFor(op: Operation): Sink {
    if op.Query? then Discarded else op.sink
  }

  /** A reply tells what is defined for the operation in a state of the entries. */
  ghost predicate Answers(c: Setting, entries: seq<Entry>, op: Operation, reply: Reply)
    requires Sensible(c) && |entries| == |c.table|
  {
    match TargetOf(c, op)
    case None => !reply.success
    case Some(t) =>
      match Outcome(c, op, t, entries[t])
      case None => !reply.success
      case Some(bytes) =>
        var sink := SinkFor(op);
        && (reply.success <==> Opens(sink) && Fits(|bytes|, RoomIn(sink)))
        && (reply.success && sink.Into? ==> reply.written == bytes)
  }

  /** What an old save needs: its searches read only the pieces. */
  ghost predicate Performable(c: Setting, entries: seq<Entry>, op: Operation)
    requires Sensible(c) && |entries| == |c.table|
  {
    op.SavingOld? ==>
      match TargetOf(c, op)
      case None => true
      case Some(t) =>
        OldReadable(c.archive, t, c.table[t], entries[t].0, entries[t].1, c.gap, Lookup(op.external, t), c.oldInflate)
  }

  ghost function AfterAll(c: Setting, entries: seq<Entry>, ops: seq<Operation>): seq<Entry>
    requires Sensible(c) && |entries| == |c.table|
    ensures |AfterAll(c, entries, ops)| == |entries|
  {
    if ops == [] then entries else After(c, AfterAll(c, entries, ops[..|ops| - 1]), ops[|ops| - 1])
  }

  lemma AfterNext(c: Setting, entries: seq<Entry>, ops: seq<Operation>, k: nat)
    requires Sensible(c) && |entries| == |c.table| && k < |ops|
    ensures AfterAll(c, entries, ops[..k + 1]) == After(c, AfterAll(c, entries, ops[..k]), ops[k])
  {
    hide Sensible, After;
    assert ops[..k + 1][..k] == ops[..k];
  }

  /** The state of the cache as a row: of files that are not parsed yet, what a fresh parse gives. */
  ghost function Row(u: Unshield): (row: seq<Entry>)
    reads u, u.fileDescriptors.Values
    ensures |row| == |u.table| && forall i :: 0 <= i < |row| ==> row[i] == u.EntryOf(i)
  {
    seq(|u.table|, i requires 0 <= i < |u.table| reads u, u.fileDescriptors.Values => u.EntryOf(i))
  }

  method OutputFor(sink: Sink) returns (output: Output?)
    ensures SinkOf(output) == sink && (output != null ==> fresh(output))
  {
    if sink.Discarded? {
      return null;
    }
    output := new Output(sink.openable, sink.room);
  }

  function Told(success: bool, output: Output?): Reply
    reads output
  {
    Reply(success, if output == null then [] else output.content)
  }

  /** What a save ensures is what is defined for the operation. */
  lemma SaveAnswers(c: Setting, before: seq<Entry>, after: seq<Entry>, op: Operation, success: bool, output: Output?)
    requires Sensible(c) && |before| == |after| == |c.table| && !op.Query? && SinkOf(output) == op.sink
    requires
      match TargetOf(c, op)
      case None => !success && after == before
      case Some(t) =>
        && (forall i :: 0 <= i < |c.table| && i != t ==> after[i] == before[i])
        && Delivers(success, Outcome(c, op, t, before[t]), output) && after[t] == Left(c, op, t, before[t])
    ensures Answers(c, before, op, Told(success, output)) && after == After(c, before, op)
  {
    hide Sensible, TargetOf, Outcome, Left;
  }

  lemma QueryAnswers(c: Setting, before: seq<Entry>, after: seq<Entry>, op: Operation, success: bool)
    requires Sensible(c) && |before| == |c.table| && op.Query? && after == before
    requires success <==> IsIndex(op.index, c.archive.fileCount)
    ensures Answers(c, before, op, Reply(success, [])) && after == After(c, before, op)
  {
    hide Sensible, IsIndex;
  }

  method PerformQuery(u: Unshield, op: Operation, c: Setting) returns (reply: Reply)
    requires Sensible(c) && c.archive == u.archive && c.table == u.table && u.Valid() && op.Query?
    modifies u`fileDescriptors
    ensures u.Valid() && CacheKept(c.archive, c.table, old(u.Entries()), u.Entries())
    ensures u.SameOrFresh(old(u.fileDescriptors))
    ensures Answers(c, old(Row(u)), op, reply) && Row(u) == After(c, old(Row(u)), op)
  {
    hide Sensible, IsIndex, CacheKept, Answers, After, CacheFits;
    ghost var before := Row(u);
    var fd := u.GetFileDescriptor(op.index);
    reply := Reply(fd != null, []);
    QueryAnswers(c, before, Row(u), op, fd != null);
  }

  method PerformSave(u: Unshield, op: Operation, c: Setting) returns (reply: Reply)
    requires Sensible(c) && c.archive == u.archive && c.table == u.table && u.Valid() && op.Saving?
    modifies u`fileDescriptors, u.fileDescriptors.Values
    ensures u.Valid() && CacheKept(c.archive, c.table, old(u.Entries()), u.Entries())
    ensures u.SameOrFresh(old(u.fileDescriptors))
    ensures Answers(c, old(Row(u)), op, reply) && Row(u) == After(c, old(Row(u)), op)
  {
    hide IsIndex, CacheKept, Answers, After, CacheFits, Target, SaveOutcome, SaveLeaves, Delivers, Missing, Acyclic;
    hide FitsBuffer;
    ghost var before := Row(u);
    var output := OutputFor(op.sink);
    var ok := u.Save(op.index, output, c.inflate, c.gap, c.rank);
    reply := Told(ok, output);
    ghost var after := Row(u);
    assert TargetOf(c, op) == None ==> after == before;
    SaveAnswers(c, before, after, op, ok, output);
  }

  method PerformRaw(u: Unshield, op: Operation, c: Setting) returns (reply: Reply)
    requires Sensible(c) && c.archive == u.archive && c.table == u.table && u.Valid() && op.SavingRaw?
    modifies u`fileDescriptors, u.fileDescriptors.Values
    ensures u.Valid() && CacheKept(c.archive, c.table, old(u.Entries()), u.Entries())
    ensures u.SameOrFresh(old(u.fileDescriptors))
    ensures Answers(c, old(Row(u)), op, reply) && Row(u) == After(c, old(Row(u)), op)
  {
    hide IsIndex, CacheKept, Answers, After, CacheFits, Target, RawOutcome, RawLeaves, Delivers, Missing, Acyclic;
    hide FitsBuffer;
    ghost var before := Row(u);
    var output := OutputFor(op.sink);
    var ok := u.SaveRaw(op.index, output, c.gap, c.rank);
    reply := Told(ok, output);
    ghost var after := Row(u);
    assert TargetOf(c, op) == None ==> after == before;
    SaveAnswers(c, before, after, op, ok, output);
  }

  method PerformOld(u: Unshield, op: Operation, c: Setting) returns (reply: Reply)
    requires Sensible(c) && c.archive == u.archive && c.table == u.table && u.Valid() && op.SavingOld?
    requires Performable(c, Row(u), op)
    modifies u`fileDescriptors, u.fileDescriptors.Values
    ensures u.Valid() && CacheKept(c.archive, c.table, old(u.Entries()), u.Entries())
    ensures u.SameOrFresh(old(u.fileDescriptors))
    ensures Answers(c, old(Row(u)), op, reply) && Row(u) == After(c, old(Row(u)), op)
  {
    hide IsIndex, CacheKept, Answers, After, CacheFits, Target, OldOutcome, OldLeaves, Delivers, Missing, Acyclic;
    hide FitsBuffer, OldReadable;
    ghost var before := Row(u);
    var output := OutputFor(op.sink);
    var ok := u.SaveOld(op.index, op.external, output, c.oldInflate, c.gap, c.rank);
    reply := Told(ok, output);
    ghost var after := Row(u);
    assert TargetOf(c, op) == None ==> after == before;
    SaveAnswers(c, before, after, op, ok, output);
  }

  /** One operation has the outcome that is defined for it in the state of the cache, and leaves the state
      that is defined. */
  method Perform(u: Unshield, op: Operation, c: Setting) returns (reply: Reply)
    requires Sensible(c) && c.archive == u.archive && c.table == u.table && u.Valid()
    requires Performable(c, Row(u), op)
    modifies u`fileDescriptors, u.fileDescriptors.Values
    ensures u.Valid() && CacheKept(c.archive, c.table, old(u.Entries()), u.Entries())
    ensures u.SameOrFresh(old(u.fileDescriptors))
    ensures Answers(c, old(Row(u)), op, reply) && Row(u) == After(c, old(Row(u)), op)
  {
    hide Sensible, CacheKept, Answers, After, CacheFits, Performable;
    match op {
      case Query(_) => reply := PerformQuery(u, op, c);
      case Saving(_, _) => reply := PerformSave(u, op, c);
      case SavingRaw(_, _) => reply := PerformRaw(u, op, c);
      case SavingOld(_, _, _) => reply := PerformOld(u, op, c);
    }
  }

  // ----- Runs -----

  /** Every operation of a run can be performed when its turn comes. */
  ghost predicate AllPerformable(c: Setting, entries: seq<Entry>, ops: seq<Operation>)
    requires Sensible(c) && |entries| == |c.table|
  {
    forall k :: 0 <= k < |ops| ==> Performable(c, AfterAll(c, entries, ops[..k]), ops[k])
  }

  /** Every reply of a run is what is defined in the state that the operations before have left. */
  ghost predicate AllAnswer(c: Setting, entries: seq<Entry>, ops: seq<Operation>, replies: seq<Reply>)
    requires Sensible(c) && |entries| == |c.table| && |replies| <= |ops|
  {
    forall k :: 0 <= k < |replies| ==> Answers(c, AfterAll(c, entries, ops[..k]), ops[k], replies[k])
  }

  lemma OneMoreAnswers(c: Setting, entries: seq<Entry>, ops: seq<Operation>, replies: seq<Reply>, reply: Reply)
    requires Sensible(c) && |entries| == |c.table| && |replies| < |ops| && AllAnswer(c, entries, ops, replies)
    requires Answers(c, AfterAll(c, entries, ops[..|replies|]), ops[|replies|], reply)
    ensures AllAnswer(c, entries, ops, replies + [reply])
  {
    hide Sensible, Answers, AfterAll;
    var more := replies + [reply];
    assert forall k :: 0 <= k < |replies| ==> more[k] == replies[k];
  }

  /** From each state of a run to the next, the cache is kept. */
  ghost predicate AllKept(c: Setting, states: seq<map<int, Entry>>) {
    forall k :: 0 <= k < |states| - 1 ==> CacheKept(c.archive, c.table, states[k], states[k + 1])
  }

  lemma OneMoreKept(c: Setting, states: seq<map<int, Entry>>, state: map<int, Entry>)
    requires AllKept(c, states) && states != []
    requires CacheKept(c.archive, c.table, states[|states| - 1], state)
    ensures AllKept(c, states + [state])
  {
    hide CacheKept;
    var more := states + [state];
    forall k | 0 <= k < |more| - 1
      ensures CacheKept(c.archive, c.table, more[k], more[k + 1])
    {
      assert more[k] == states[k];
      if k + 1 < |states| {
        assert more[k + 1] == states[k + 1];
      }
    }
  }

  lemma KeptThroughout(c: Setting, states: seq<map<int, Entry>>)
    requires AllKept(c, states) && states != [] && CacheFits(c.archive, c.table, states[0])
    ensures
      forall m, n :: 0 <= m <= n < |states| ==>
        CacheEvolves(c.archive, states[m], states[n]) && CacheFits(c.archive, c.table, states[n])
  {
    hide CacheKept, CacheFits, CacheEvolves;
    forall m, n | 0 <= m <= n < |states|
      ensures CacheEvolves(c.archive, states[m], states[n]) && CacheFits(c.archive, c.table, states[n])
    {
      CacheRun(c.archive, c.table, states, m, n);
    }
  }

  lemma RunStarts(c: Setting, entries: seq<Entry>, ops: seq<Operation>, state: map<int, Entry>)
    requires Sensible(c) && |entries| == |c.table|
    ensures AllAnswer(c, entries, ops, []) && AllKept(c, [state]) && AfterAll(c, entries, ops[..0]) == entries
  {
  }

  lemma KeyOf<K, V>(m: map<K, V>, value: V) returns (key: K)
    requires value in m.Values
    ensures key in m && m[key] == value
  {
    key :| key in m && m[key] == value;
  }

  twostate lemma SameOrFreshValues(u: Unshield)
    requires u.SameOrFresh(old(u.fileDescriptors))
    ensures forall fd :: fd in u.fileDescriptors.Values ==> fd in old(u.fileDescriptors.Values) || fresh(fd)
  {
    forall fd | fd in u.fileDescriptors.Values
      ensures fd in old(u.fileDescriptors.Values) || fresh(fd)
    {
      var i := KeyOf(u.fileDescriptors, fd);
    }
  }

  /** A whole run of any operations. Each has the outcome that is defined for it in the state that those
      before it have left; and from any state of the cache to any later one, entries stay, their volumes do
      not go back, and of their flags only the split flag may come up. */
  method Run(u: Unshield, ops: seq<Operation>, c: Setting)
    returns (replies: seq<Reply>, ghost states: seq<map<int, Entry>>)
    requires Sensible(c) && c.archive == u.archive && c.table == u.table && u.Valid()
    requires AllPerformable(c, Row(u), ops)
    modifies u`fileDescriptors, u.fileDescriptors.Values
    ensures u.Valid() && |replies| == |ops| && AllAnswer(c, old(Row(u)), ops, replies)
    ensures Row(u) == AfterAll(c, old(Row(u)), ops)
    ensures |states| == |ops| + 1 && states[0] == old(u.Entries()) && states[|ops|] == u.Entries()
    ensures
      forall m, n :: 0 <= m <= n <= |ops| ==>
        CacheEvolves(c.archive, states[m], states[n]) && CacheFits(c.archive, c.table, states[n])
  {
    hide Sensible, CacheKept, CacheFits, Performable, Answers, After, AfterAll, AllAnswer, AllKept, CacheEvolves;
    ghost var before := Row(u);
    replies, states := [], [u.Entries()];
    RunStarts(c, before, ops, u.Entries());
    for k := 0 to |ops|
      invariant u.Valid() && u.SameOrFresh(old(u.fileDescriptors))
      invariant |replies| == k && AllAnswer(c, before, ops, replies) && Row(u) == AfterAll(c, before, ops[..k])
      invariant |states| == k + 1 && AllKept(c, states)
      invariant states[0] == old(u.Entries()) && states[k] == u.Entries()
    {
      SameOrFreshValues(u);
      var reply := Perform(u, ops[k], c);
      OneMoreAnswers(c, before, ops, replies, reply);
      OneMoreKept(c, states, u.Entries());
      AfterNext(c, before, ops, k);
      replies, states := replies + [reply], states + [u.Entries()];
    }
    assert ops[..|ops|] == ops;
    KeptThroughout(c, states);
  }
}
