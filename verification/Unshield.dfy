/**
 An open set of cabinets: its cache of descriptors, and the saves that use and change them (lib/file.c).
 */
module Unshield {
  import opened Bytes
  import opened Cabinet
  import opened Reader
  import opened SaveLoops
  import opened Outcomes
  import opened Extraction
  import opened Leaves
  import opened Unpacking
  import opened OldSaves
  import opened OldExtraction

  // ----- The cache of descriptors -----

  /** From one state of the cache to a later one, entries stay, and of each only the split flag may come
      up and the volume may grow. */
  ghost predicate CacheEvolves(a: Archive, before: map<int, Entry>, after: map<int, Entry>) {
    forall i :: i in before ==>
      i in after && Evolves(before[i].0, after[i].0) && (0xFFFF !in a.volumes ==> before[i].1 <= after[i].1)
  }

  /** An entry and the descriptor that it was parsed from differ in the volume and in the split flag only. */
  ghost predicate CacheFits(a: Archive, table: seq<Descriptor>, entries: map<int, Entry>) {
    forall i :: i in entries ==>
      && 0 <= i < |table| && Evolves(table[i].flags, entries[i].0)
      && (0xFFFF !in a.volumes ==> table[i].volume <= entries[i].1)
  }

  /** What every operation keeps: entries that are there evolve, and new ones fit. */
  ghost predicate CacheKept(a: Archive, table: seq<Descriptor>, before: map<int, Entry>, after: map<int, Entry>) {
    && CacheEvolves(a, before, after)
    && CacheFits(a, table, after - before.Keys)
  }

  lemma CacheUnchanged(a: Archive, entries: map<int, Entry>)
    ensures CacheEvolves(a, entries, entries)
  {
    hide Evolves;
    forall i | i in entries
      ensures Evolves(entries[i].0, entries[i].0)
    {
      EvolvesFurther(entries[i].0, entries[i].0, entries[i].0);
    }
  }

  lemma CacheFurther(a: Archive, first: map<int, Entry>, s: map<int, Entry>, t: map<int, Entry>)
    requires CacheEvolves(a, first, s) && CacheEvolves(a, s, t)
    ensures CacheEvolves(a, first, t)
  {
    hide Evolves;
    forall i | i in first
      ensures i in t && Evolves(first[i].0, t[i].0) && (0xFFFF !in a.volumes ==> first[i].1 <= t[i].1)
    {
      EvolvesFurther(first[i].0, s[i].0, t[i].0);
    }
  }

  lemma CacheStillFits(a: Archive, table: seq<Descriptor>, s: map<int, Entry>, t: map<int, Entry>)
    requires CacheFits(a, table, s) && CacheKept(a, table, s, t)
    ensures CacheFits(a, table, t)
  {
    hide Evolves;
    forall i | i in t
      ensures 0 <= i < |table| && Evolves(table[i].flags, t[i].0)
      ensures 0xFFFF !in a.volumes ==> table[i].volume <= t[i].1
    {
      if i in s {
        EvolvesFurther(table[i].flags, s[i].0, t[i].0);
      } else {
        assert i in t - s.Keys;
      }
    }
  }

  lemma KeptFurther(a: Archive, table: seq<Descriptor>, first: map<int, Entry>, s: map<int, Entry>, t: map<int, Entry>)
    requires CacheKept(a, table, first, s) && CacheKept(a, table, s, t)
    ensures CacheKept(a, table, first, t)
  {
    CacheFurther(a, first, s, t);
    var u, w := s - first.Keys, t - first.Keys;
    assert forall i :: i in u ==> i in s && i in w && s[i] == u[i] && t[i] == w[i];
    assert forall i :: i in t - s.Keys <==> i in w - u.Keys;
    assert t - s.Keys == w - u.Keys;
    hide Evolves;
    CacheStillFits(a, table, u, w);
  }

  lemma EntryFits(a: Archive, table: seq<Descriptor>, entries: map<int, Entry>, index: int)
    requires CacheFits(a, table, entries) && index in entries
    ensures 0 <= index < |table| && Evolves(table[index].flags, entries[index].0)
    ensures IsInvalid(table[index].flags) == IsInvalid(entries[index].0)
  {
    hide Evolves, IsInvalid;
    EvolvedFlags(table[index].flags, entries[index].0);
  }

  /** Over any run of operations, each of which keeps to this, the whole run does. */
  lemma {:induction false} CacheRun(a: Archive, table: seq<Descriptor>, states: seq<map<int, Entry>>, m: nat, n: nat)
    requires m <= n < |states| && CacheFits(a, table, states[0])
    requires forall k :: 0 <= k < |states| - 1 ==> CacheKept(a, table, states[k], states[k + 1])
    ensures CacheEvolves(a, states[m], states[n]) && CacheFits(a, table, states[n])
    decreases n
  {
    hide CacheFits, CacheEvolves;
    if n > 0 {
      assert CacheKept(a, table, states[n - 1], states[n - 1 + 1]);
      CacheRun(a, table, states, if m < n then m else n - 1, n - 1);
      CacheStillFits(a, table, states[n - 1], states[n]);
    }
    if m < n {
      CacheFurther(a, states[m], states[n - 1], states[n]);
    } else {
      CacheUnchanged(a, states[n]);
    }
  }

  // ----- Links -----

  /** Links lead nowhere in circles: following one lowers the rank. */
  ghost predicate Acyclic(table: seq<Descriptor>, rank: int -> nat) {
    forall i :: 0 <= i < |table| && IsLinked(table[i]) ==> rank(ToInt32(table[i].linkPrevious)) < rank(i)
  }

  predicate IsIndex(index: int, fileCount: uint32) {
    0 <= index < ToInt32(fileCount)
  }

  /** The file whose data a save writes: links are followed, but not from an invalid entry. */
  ghost function Target(table: seq<Descriptor>, fileCount: uint32, rank: int -> nat, index: int): int
    requires |table| == fileCount && Acyclic(table, rank)
    decreases rank(index)
  {
    if IsIndex(index, fileCount) && !IsInvalid(table[index].flags) && table[index].dataOffset != 0
       && IsLinked(table[index])
    then Target(table, fileCount, rank, ToInt32(table[index].linkPrevious))
    else index
  }

  // ----- What a save does -----

  /** The part of `unshield_file_save` from the reader on. */
  method SaveFile(archive: Archive, index: nat, fd: FileDescriptor, output: Output?, inflate: Inflater,
                  ghost gap: nat)
    returns (success: bool)
    requires FitsBuffer(inflate) && Missing(archive, gap) && !IsInvalid(fd.flags) && fd.parsed.dataOffset != 0
    modifies fd, output
    ensures
      Delivers(success, SaveOutcome(archive, index, fd.parsed, old(fd.flags), old(fd.volume), gap, inflate), output)
    ensures
      (fd.flags, fd.volume)
      == SaveLeaves(archive, index, fd.parsed, old(fd.flags), old(fd.volume), gap, inflate, SinkOf(output))
    ensures Evolves(old(fd.flags), fd.flags) && (0xFFFF !in archive.volumes ==> old(fd.volume) <= fd.volume)
  {
    hide IsInvalid, IsObfuscated, IsCompressed, Evolves, Searched, Begin, Saved, Checks, SizeInVolume, FitsBuffer;
    hide LoopReached;
    BeginSearched(archive, index, fd.parsed, fd.flags, fd.volume, gap);
    var reader := OpenReader(archive, index, fd, gap);
    if reader == null {
      return false;
    }
    ghost var f' := fd.flags;
    if output != null {
      var ok := output.Open();
      if !ok {
        EvolvesFurther(old(fd.flags), f', f');
        return false;
      }
    }
    success := SaveAll(reader, output, inflate);
    EvolvesFurther(old(fd.flags), f', fd.flags);
  }

  /** The part of `unshield_file_save_raw` from the reader on. */
  method SaveFileRaw(archive: Archive, index: nat, fd: FileDescriptor, output: Output?, ghost gap: nat)
    returns (success: bool)
    requires Missing(archive, gap) && !IsInvalid(fd.flags) && fd.parsed.dataOffset != 0
    modifies fd, output
    ensures
      Delivers(success, RawOutcome(archive, index, fd.parsed, old(fd.flags), old(fd.volume), gap), output)
    ensures
      (fd.flags, fd.volume)
      == RawLeaves(archive, index, fd.parsed, old(fd.flags), old(fd.volume), gap, SinkOf(output))
    ensures Evolves(old(fd.flags), fd.flags) && (0xFFFF !in archive.volumes ==> old(fd.volume) <= fd.volume)
  {
    hide IsInvalid, IsObfuscated, IsCompressed, Evolves, Searched, Begin, Copied, SizeInVolume;
    hide LoopReached;
    BeginSearched(archive, index, fd.parsed, fd.flags, fd.volume, gap);
    var reader := OpenReader(archive, index, fd, gap);
    if reader == null {
      return false;
    }
    ghost var f' := fd.flags;
    if output != null {
      var ok := output.Open();
      if !ok {
        EvolvesFurther(old(fd.flags), f', f');
        return false;
      }
    }
    success := RawLoop(reader, output, SizeInVolume(fd.parsed, fd.flags));
    EvolvesFurther(old(fd.flags), f', fd.flags);
  }

  lemma NothingToSave(a: Archive, index: nat, d: Descriptor, f: flags, v: uint16, gap: nat, inflate: Inflater,
                      output: Output?)
    requires Missing(a, gap) && (IsInvalid(f) || d.dataOffset == 0)
    ensures Delivers(false, SaveOutcome(a, index, d, f, v, gap, inflate), output)
  {
    hide Start, IsInvalid;
  }

  lemma NothingToCopy(a: Archive, index: nat, d: Descriptor, f: flags, v: uint16, gap: nat, output: Output?)
    requires Missing(a, gap) && (IsInvalid(f) || d.dataOffset == 0)
    ensures Delivers(false, RawOutcome(a, index, d, f, v, gap), output)
  {
    hide Start, IsInvalid;
  }

  function Lookup(external: map<int, seq<byte>>, index: int): Option<seq<byte>> {
    if index in external then Some(external[index]) else None
  }

  lemma NothingOld(a: Archive, index: nat, d: Descriptor, f: flags, v: uint16, gap: nat, external: Option<seq<byte>>,
                   inflate: OldInflater, output: Output?)
    requires Missing(a, gap) && (IsInvalid(f) || d.dataOffset == 0)
    ensures Delivers(false, OldOutcome(a, index, d, f, v, gap, external, inflate), output)
  {
    hide Start, IsInvalid;
  }

  lemma NothingLeft(a: Archive, index: nat, d: Descriptor, f: flags, v: uint16, gap: nat, sink: Sink)
    requires Missing(a, gap) && (IsInvalid(f) || d.dataOffset == 0)
    ensures forall inflate: Inflater :: SaveLeaves(a, index, d, f, v, gap, inflate, sink) == (f, v)
    ensures RawLeaves(a, index, d, f, v, gap, sink) == (f, v)
    ensures
      forall external: Option<seq<byte>>, inflate: OldInflater ::
        OldLeaves(a, index, d, f, v, gap, external, inflate, sink) == (f, v)
  {
    hide IsInvalid;
  }

  lemma EntryChanged(a: Archive, table: seq<Descriptor>, entries: map<int, Entry>, index: int, e: Entry)
    requires index in entries && CacheFits(a, table, entries)
    requires Evolves(entries[index].0, e.0) && (0xFFFF !in a.volumes ==> entries[index].1 <= e.1)
    ensures CacheKept(a, table, entries, entries[index := e]) && CacheFits(a, table, entries[index := e])
  {
    hide Evolves;
    var after := entries[index := e];
    forall i | i in entries
      ensures Evolves(entries[i].0, after[i].0) && (0xFFFF !in a.volumes ==> entries[i].1 <= after[i].1)
    {
      EvolvesFurther(entries[i].0, entries[i].0, entries[i].0);
    }
    CacheStillFits(a, table, entries, after);
  }

  lemma TargetStep(table: seq<Descriptor>, fileCount: uint32, rank: int -> nat, index: int)
    requires |table| == fileCount && Acyclic(table, rank)
    ensures
      var t := Target(table, fileCount, rank, index);
      if IsIndex(index, fileCount) && !IsInvalid(table[index].flags) && table[index].dataOffset != 0
         && IsLinked(table[index])
      then
        var previous := ToInt32(table[index].linkPrevious);
        t == Target(table, fileCount, rank, previous) && rank(previous) < rank(index)
      else t == index
  {
  }

  class Unshield {
    const archive: Archive
    /** The descriptors as a fresh parse of the header gives them. */
    const table: seq<Descriptor>
    /** The descriptors parsed so far. */
    var fileDescriptors: map<int, FileDescriptor>

    ghost function Entries(): map<int, Entry>
      reads this, fileDescriptors.Values
    {
      map i | i in fileDescriptors :: (fileDescriptors[i].flags, fileDescriptors[i].volume)
    }

    ghost predicate Valid()
      reads this, fileDescriptors.Values
    {
      && |table| == archive.fileCount
      && (forall i :: i in fileDescriptors ==>
            0 <= i < |table| && fileDescriptors[i].parsed == table[i] && fileDescriptors[i].index == i)
      && CacheFits(archive, table, Entries())
    }

    /** The entry of a file, parsed or not. */
    ghost function EntryOf(i: int): Entry
      requires 0 <= i < |table|
      reads this, fileDescriptors.Values
    {
      if i in fileDescriptors then (fileDescriptors[i].flags, fileDescriptors[i].volume)
      else (table[i].flags, table[i].volume)
    }

    /** Descriptors stay where they are once they are parsed. */
    twostate predicate SameOrFresh(before: map<int, FileDescriptor>)
      reads this
    {
      && before.Keys <= fileDescriptors.Keys
      && forall i :: i in fileDescriptors ==>
           if i in before then fileDescriptors[i] == before[i] else fresh(fileDescriptors[i])
    }

    constructor (archive: Archive, table: seq<Descriptor>)
      requires |table| == archive.fileCount
      ensures Valid() && fileDescriptors == map[] && this.archive == archive && this.table == table
    {
      this.archive, this.table := archive, table;
      fileDescriptors := map[];
    }

    /** `unshield_get_file_descriptor`: parses each descriptor once. */
    method GetFileDescriptor(index: int) returns (fd: FileDescriptor?)
      requires Valid()
      modifies `fileDescriptors
      ensures Valid() && CacheKept(archive, table, old(Entries()), Entries())
      ensures fd != null <==> IsIndex(index, archive.fileCount)
      ensures fd != null ==> index in fileDescriptors && fileDescriptors[index] == fd
      ensures fileDescriptors == if fd == null then old(fileDescriptors) else old(fileDescriptors)[index := fd]
      ensures fd != null && index in old(fileDescriptors) ==> fd == old(fileDescriptors)[index]
      ensures fd != null && index !in old(fileDescriptors) ==> fresh(fd)
      ensures forall i :: 0 <= i < |table| ==> EntryOf(i) == old(EntryOf(i))
    {
      hide Evolves;
      CacheUnchanged(archive, Entries());
      if index < 0 || index >= ToInt32(archive.fileCount) {
        return null;
      }
      if index !in fileDescriptors {
        var parsed := new FileDescriptor(table[index], index);
        fileDescriptors := fileDescriptors[index := parsed];
        EvolvesFurther(table[index].flags, table[index].flags, table[index].flags);
      }
      return fileDescriptors[index];
    }

    /** The part of a save that is left when the entry is known to be valid and not linked. */
    method SaveOne(index: int, output: Output?, inflate: Inflater, ghost gap: nat) returns (success: bool)
      requires Valid() && index in fileDescriptors && FitsBuffer(inflate) && Missing(archive, gap)
      requires !IsInvalid(fileDescriptors[index].flags) && table[index].dataOffset != 0
      modifies fileDescriptors[index], output
      ensures forall i :: 0 <= i < |table| && i != index ==> EntryOf(i) == old(EntryOf(i))
      ensures Valid() && CacheKept(archive, table, old(Entries()), Entries())
      ensures
        var (f, v) := old(EntryOf(index));
        && Delivers(success, SaveOutcome(archive, index, table[index], f, v, gap, inflate), output)
        && EntryOf(index) == SaveLeaves(archive, index, table[index], f, v, gap, inflate, SinkOf(output))
    {
      hide IsInvalid, CacheFits, CacheKept, SaveOutcome, SaveLeaves, Delivers, Evolves;
      ghost var before := Entries();
      var fd := fileDescriptors[index];
      success := SaveFile(archive, index, fd, output, inflate, gap);
      ghost var after := Entries();
      forall i | i in fileDescriptors && i != index
        ensures after[i] == before[i]
      {
        assert fileDescriptors[i].index == i;
      }
      forall i | 0 <= i < |table| && i != index
        ensures EntryOf(i) == old(EntryOf(i))
      {
        if i in fileDescriptors {
          assert EntryOf(i) == after[i] == before[i];
        }
      }
      assert after == before[index := (fd.flags, fd.volume)];
      EntryChanged(archive, table, before, index, (fd.flags, fd.volume));
    }

    /** The part of a raw save that is left when the entry is known to be valid and not linked. */
    method SaveOneRaw(index: int, output: Output?, ghost gap: nat) returns (success: bool)
      requires Valid() && index in fileDescriptors && Missing(archive, gap)
      requires !IsInvalid(fileDescriptors[index].flags) && table[index].dataOffset != 0
      modifies fileDescriptors[index], output
      ensures forall i :: 0 <= i < |table| && i != index ==> EntryOf(i) == old(EntryOf(i))
      ensures Valid() && CacheKept(archive, table, old(Entries()), Entries())
      ensures
        var (f, v) := old(EntryOf(index));
        && Delivers(success, RawOutcome(archive, index, table[index], f, v, gap), output)
        && EntryOf(index) == RawLeaves(archive, index, table[index], f, v, gap, SinkOf(output))
    {
      hide IsInvalid, CacheFits, CacheKept, RawOutcome, RawLeaves, Delivers, Evolves;
      ghost var before := Entries();
      var fd := fileDescriptors[index];
      success := SaveFileRaw(archive, index, fd, output, gap);
      ghost var after := Entries();
      forall i | i in fileDescriptors && i != index
        ensures after[i] == before[i]
      {
        assert fileDescriptors[i].index == i;
      }
      forall i | 0 <= i < |table| && i != index
        ensures EntryOf(i) == old(EntryOf(i))
      {
        if i in fileDescriptors {
          assert EntryOf(i) == after[i] == before[i];
        }
      }
      assert after == before[index := (fd.flags, fd.volume)];
      EntryChanged(archive, table, before, index, (fd.flags, fd.volume));
    }

    /** The part of an old save that is left when the entry is known to be valid and not linked. */
    method SaveOneOld(index: int, external: Option<seq<byte>>, output: Output?, inflate: OldInflater, ghost gap: nat)
      returns (success: bool)
      requires Valid() && index in fileDescriptors && FitsBuffer(inflate) && Missing(archive, gap)
      requires !IsInvalid(fileDescriptors[index].flags) && table[index].dataOffset != 0
      requires OldReadable(archive, index, table[index], EntryOf(index).0, EntryOf(index).1, gap, external, inflate)
      modifies fileDescriptors[index], output
      ensures forall i :: 0 <= i < |table| && i != index ==> EntryOf(i) == old(EntryOf(i))
      ensures Valid() && CacheKept(archive, table, old(Entries()), Entries())
      ensures
        var (f, v) := old(EntryOf(index));
        && Delivers(success, OldOutcome(archive, index, table[index], f, v, gap, external, inflate), output)
        && EntryOf(index) == OldLeaves(archive, index, table[index], f, v, gap, external, inflate, SinkOf(output))
    {
      hide IsInvalid, CacheFits, CacheKept, OldOutcome, OldReadable, OldLeaves, Delivers, Evolves;
      ghost var before := Entries();
      var fd := fileDescriptors[index];
      success := SaveFileOld(archive, index, fd, external, output, inflate, gap);
      ghost var after := Entries();
      forall i | i in fileDescriptors && i != index
        ensures after[i] == before[i]
      {
        assert fileDescriptors[i].index == i;
      }
      forall i | 0 <= i < |table| && i != index
        ensures EntryOf(i) == old(EntryOf(i))
      {
        if i in fileDescriptors {
          assert EntryOf(i) == after[i] == before[i];
        }
      }
      assert after == before[index := (fd.flags, fd.volume)];
      EntryChanged(archive, table, before, index, (fd.flags, fd.volume));
    }

    /** `unshield_file_save`. */
    method Save(index: int, output: Output?, inflate: Inflater, ghost gap: nat, ghost rank: int -> nat)
      returns (success: bool)
      requires Valid() && FitsBuffer(inflate) && Missing(archive, gap) && Acyclic(table, rank)
      modifies `fileDescriptors, fileDescriptors.Values, output
      ensures Valid() && CacheKept(archive, table, old(Entries()), Entries())
      ensures SameOrFresh(old(fileDescriptors))
      ensures
        var t := Target(table, archive.fileCount, rank, index);
        forall i :: 0 <= i < |table| && !(i == t && IsIndex(t, archive.fileCount)) ==> EntryOf(i) == old(EntryOf(i))
      ensures
        var t := Target(table, archive.fileCount, rank, index);
        if IsIndex(t, archive.fileCount) then
          var (f, v) := old(EntryOf(t));
          && Delivers(success, SaveOutcome(archive, t, table[t], f, v, gap, inflate), output)
          && EntryOf(t) == SaveLeaves(archive, t, table[t], f, v, gap, inflate, SinkOf(output))
        else !success
      decreases rank(index)
    {
      hide IsInvalid, IsLinked, Evolves, SaveOutcome, CacheFits, CacheKept, Delivers, SaveLeaves, Target, Acyclic;
      hide Missing, FitsBuffer;
      TargetStep(table, archive.fileCount, rank, index);
      ghost var before := Entries();
      var fd := GetFileDescriptor(index);
      if fd == null {
        return false;
      }
      ghost var mid := Entries();
      EntryFits(archive, table, mid, index);
      if IsInvalid(fd.flags) || fd.parsed.dataOffset == 0 {
        NothingToSave(archive, index, table[index], fd.flags, fd.volume, gap, inflate, output);
        NothingLeft(archive, index, table[index], fd.flags, fd.volume, gap, SinkOf(output));
        return false;
      }
      if IsLinked(fd.parsed) {
        success := Save(ToInt32(fd.parsed.linkPrevious), output, inflate, gap, rank);
        KeptFurther(archive, table, before, mid, Entries());
        return;
      }
      success := SaveOne(index, output, inflate, gap);
      KeptFurther(archive, table, before, mid, Entries());
    }

    /** `unshield_file_save_raw`. */
    method SaveRaw(index: int, output: Output?, ghost gap: nat, ghost rank: int -> nat) returns (success: bool)
      requires Valid() && Missing(archive, gap) && Acyclic(table, rank)
      modifies `fileDescriptors, fileDescriptors.Values, output
      ensures Valid() && CacheKept(archive, table, old(Entries()), Entries())
      ensures SameOrFresh(old(fileDescriptors))
      ensures
        var t := Target(table, archive.fileCount, rank, index);
        forall i :: 0 <= i < |table| && !(i == t && IsIndex(t, archive.fileCount)) ==> EntryOf(i) == old(EntryOf(i))
      ensures
        var t := Target(table, archive.fileCount, rank, index);
        if IsIndex(t, archive.fileCount) then
          var (f, v) := old(EntryOf(t));
          && Delivers(success, RawOutcome(archive, t, table[t], f, v, gap), output)
          && EntryOf(t) == RawLeaves(archive, t, table[t], f, v, gap, SinkOf(output))
        else !success
      decreases rank(index)
    {
      hide IsInvalid, IsLinked, Evolves, RawOutcome, CacheFits, CacheKept, Delivers, RawLeaves, Target, Acyclic;
      hide Missing;
      TargetStep(table, archive.fileCount, rank, index);
      ghost var before := Entries();
      var fd := GetFileDescriptor(index);
      if fd == null {
        return false;
      }
      ghost var mid := Entries();
      EntryFits(archive, table, mid, index);
      if IsInvalid(fd.flags) || fd.parsed.dataOffset == 0 {
        NothingToCopy(archive, index, table[index], fd.flags, fd.volume, gap, output);
        NothingLeft(archive, index, table[index], fd.flags, fd.volume, gap, SinkOf(output));
        return false;
      }
      if IsLinked(fd.parsed) {
        success := SaveRaw(ToInt32(fd.parsed.linkPrevious), output, gap, rank);
        KeptFurther(archive, table, before, mid, Entries());
        return;
      }
      success := SaveOneRaw(index, output, gap);
      KeptFurther(archive, table, before, mid, Entries());
    }

    /** `unshield_file_save_old`. The map gives the contents of the files that are not inside of the cabinet. */
    method SaveOld(index: int, external: map<int, seq<byte>>, output: Output?, inflate: OldInflater, ghost gap: nat,
                   ghost rank: int -> nat)
      returns (success: bool)
      requires Valid() && FitsBuffer(inflate) && Missing(archive, gap) && Acyclic(table, rank)
      requires
        var t := Target(table, archive.fileCount, rank, index);
        IsIndex(t, archive.fileCount) ==>
          OldReadable(archive, t, table[t], EntryOf(t).0, EntryOf(t).1, gap, Lookup(external, t), inflate)
      modifies `fileDescriptors, fileDescriptors.Values, output
      ensures Valid() && CacheKept(archive, table, old(Entries()), Entries())
      ensures SameOrFresh(old(fileDescriptors))
      ensures
        var t := Target(table, archive.fileCount, rank, index);
        forall i :: 0 <= i < |table| && !(i == t && IsIndex(t, archive.fileCount)) ==> EntryOf(i) == old(EntryOf(i))
      ensures
        var t := Target(table, archive.fileCount, rank, index);
        if IsIndex(t, archive.fileCount) then
          var (f, v) := old(EntryOf(t));
          && Delivers(success, OldOutcome(archive, t, table[t], f, v, gap, Lookup(external, t), inflate), output)
          && EntryOf(t) == OldLeaves(archive, t, table[t], f, v, gap, Lookup(external, t), inflate, SinkOf(output))
        else !success
      decreases rank(index)
    {
      hide IsInvalid, IsLinked, Evolves, OldOutcome, OldReadable, CacheFits, CacheKept, Delivers, OldLeaves, Target;
      hide Acyclic, Missing, FitsBuffer;
      TargetStep(table, archive.fileCount, rank, index);
      ghost var before := Entries();
      var fd := GetFileDescriptor(index);
      if fd == null {
        return false;
      }
      ghost var mid := Entries();
      EntryFits(archive, table, mid, index);
      if IsInvalid(fd.flags) || fd.parsed.dataOffset == 0 {
        NothingLeft(archive, index, table[index], fd.flags, fd.volume, gap, SinkOf(output));
        NothingOld(archive, index, table[index], fd.flags, fd.volume, gap, Lookup(external, index), inflate, output);
        return false;
      }
      if IsLinked(fd.parsed) {
        success := SaveOld(ToInt32(fd.parsed.linkPrevious), external, output, inflate, gap, rank);
        KeptFurther(archive, table, before, mid, Entries());
        return;
      }
      success := SaveOneOld(index, Lookup(external, index), output, inflate, gap);
      KeptFurther(archive, table, before, mid, Entries());
    }
  }
}
