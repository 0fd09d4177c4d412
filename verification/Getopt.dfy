/**
 The scanner of command lines that moves operands behind options as it goes, a call at a time
 (win32_msvc/getopt.h, src/unshield.c).
 */
module Getopt {
  import opened Cabinet
  import opened Arguments

  // ----- The state between two calls -----

  /** The arguments and the variables that last from call to call. `optnext` is what is left of a group
      of short options, and empty where the source has no pointer. From `start` up to `end` are the
      operands that the last call went over, if `start` is not zero. */
  datatype Cursor = Cursor(argv: seq<string>, optind: int, optnext: string, vars: Vars, start: int, end: int)

  /** The variables as they are initialized. */
  const AT_START := Vars(None, '?' as int, 0, map[])

  predicate Bounds(s: Cursor) {
    && 1 <= s.optind <= |s.argv|
    && (s.start == 0 || 1 <= s.start < s.end <= s.optind)
    && (s.optnext != "" ==> s.optind < |s.argv|)
  }

  /** The operands that are waiting to be moved. */
  function Held(s: Cursor): seq<string>
    requires Bounds(s)
  {
    if s.start == 0 then [] else s.argv[s.start..s.end]
  }

  /** The options that were read, with their arguments. */
  function Done(s: Cursor): seq<string>
    requires Bounds(s)
  {
    if s.start == 0 then s.argv[1..s.optind] else s.argv[1..s.start] + s.argv[s.end..s.optind]
  }

  function Rest(s: Cursor): seq<string>
    requires Bounds(s)
  {
    s.argv[s.optind..]
  }

  /** What was reported, read and passed over so far, and what the rest comes to, is the plan. */
  ghost predicate OnTrack(c: Config, s: Cursor, program: string, reported: seq<Result>, plan: Parse) {
    && Bounds(s) && s.argv[0] == program
    && (forall i :: 0 <= i < |Held(s)| ==> !IsOption(Held(s)[i]))
    && (Held(s) != [] ==> c.mode == Permute)
    && plan == Onto(reported, Done(s), Held(s), ParseFrom(c, Rest(s), s.optnext, s.vars))
  }

  /** The end of a run: options with their arguments come first, then the operands, then what was not
      looked at; the index is behind the options, or behind the dashes if there are any; and the variables
      are what they should be. */
  ghost predicate Finished(s: Cursor, program: string, reported: seq<Result>, plan: Parse) {
    && reported == plan.results && s.vars == plan.vars
    && s.argv == [program] + plan.options + plan.operands + plan.behind
    && s.optind == 1 + |plan.options| + (if plan.dashes then |plan.operands| + 1 else 0)
  }

  lemma OntoTwice(a: seq<Result>, b: seq<string>, c: seq<string>, d: seq<Result>, e: seq<string>, f: seq<string>,
                  p: Parse)
    ensures Onto(a, b, c, Onto(d, e, f, p)) == Onto(a + d, b + e, c + f, p)
    ensures Onto([], [], [], p) == p
  {
    assert a + (d + p.results) == (a + d) + p.results;
    assert b + (e + p.options) == (b + e) + p.options;
    assert c + (f + p.operands) == (c + f) + p.operands;
    assert [] + p.results == p.results && [] + p.options == p.options && [] + p.operands == p.operands;
  }

  /** Operands in front of the rest are passed over. */
  lemma {:induction false} OperandsInFront(c: Config, held: seq<string>, rest: seq<string>, vars: Vars)
    requires c.mode == Permute && forall i :: 0 <= i < |held| ==> !IsOption(held[i])
    ensures ParseFrom(c, held + rest, "", vars) == Onto([], [], held, ParseFrom(c, rest, "", vars))
  {
    hide IsOption;
    if held == [] {
      assert held + rest == rest;
      OntoTwice([], [], [], [], [], [], ParseFrom(c, rest, "", vars));
    } else {
      var whole := held + rest;
      assert whole[0] == held[0] && whole[1..] == held[1..] + rest;
      OperandsInFront(c, held[1..], rest, vars);
      OntoTwice([], [], [held[0]], [], [], held[1..], ParseFrom(c, rest, "", vars));
      assert held == [held[0]] + held[1..];
    }
  }

  // ----- What each part of a call keeps -----

  function Rotated(s: Cursor): Cursor
    requires Bounds(s)
  {
    Cursor([s.argv[0]] + Done(s) + Held(s) + Rest(s), 1 + |Done(s)|, s.optnext, s.vars, 0, s.end)
  }

  lemma RotatedOnTrack(c: Config, s: Cursor, end: int, program: string, reported: seq<Result>, plan: Parse)
    requires OnTrack(c, s, program, reported, plan) && s.optnext == "" && s.start != 0
    ensures OnTrack(c, Rotated(s).(end := end), program, reported, plan)
  {
    hide IsOption, ParseFrom;
    var t := Rotated(s).(end := end);
    var p := ParseFrom(c, Rest(s), "", s.vars);
    assert Done(t) == Done(s);
    assert Rest(t) == Held(s) + Rest(s);
    OperandsInFront(c, Held(s), Rest(s), s.vars);
    OntoTwice(reported, Done(s), [], [], [], Held(s), p);
    assert [] + Held(s) == Held(s) && Done(s) + [] == Done(s) && reported + [] == reported;
  }

  /** Going over operands. */
  lemma SkippedOnTrack(c: Config, s: Cursor, i: int, program: string, reported: seq<Result>, plan: Parse)
    requires OnTrack(c, s, program, reported, plan) && s.optnext == "" && s.start == 0 && c.mode == Permute
    requires s.optind < i <= |s.argv| && forall k :: s.optind <= k < i ==> !IsOption(s.argv[k])
    ensures OnTrack(c, s.(start := s.optind, end := i, optind := i), program, reported, plan)
  {
    hide IsOption, ParseFrom;
    var t := s.(start := s.optind, end := i, optind := i);
    assert Rest(s) == Held(t) + Rest(t);
    assert Done(t) == Done(s);
    OperandsInFront(c, Held(t), Rest(t), s.vars);
    OntoTwice(reported, Done(s), [], [], [], Held(t), ParseFrom(c, Rest(t), "", s.vars));
    assert [] + Held(t) == Held(t) && Done(s) + [] == Done(s) && reported + [] == reported;
  }

  /** The cursor behind one option. */
  function After(s: Cursor, step: Step): Cursor {
    if step.suffix != "" then s.(optnext := step.suffix, vars := step.result.vars)
    else s.(optind := s.optind + step.taken, optnext := "", vars := step.result.vars)
  }

  lemma SteppedOnTrack(c: Config, s: Cursor, step: Step, program: string, reported: seq<Result>, plan: Parse)
    requires OnTrack(c, s, program, reported, plan) && step.taken <= |Rest(s)| && Rest(s) != []
    requires
      var rest, r := Rest(s), step.result;
      ParseFrom(c, rest, s.optnext, s.vars)
      == if step.suffix != "" then Onto([r], [], [], ParseFrom(c, rest, step.suffix, r.vars))
         else Onto([r], rest[..step.taken], [], ParseFrom(c, rest[step.taken..], "", r.vars))
    ensures OnTrack(c, After(s, step), program, reported + [step.result], plan)
  {
    hide IsOption, ParseFrom;
    var t := After(s, step);
    var more := if step.suffix != "" then [] else Rest(s)[..step.taken];
    if step.suffix == "" {
      TakenParts(s, step.taken, step.result.vars);
    }
    hide Done, Rest;
    assert Done(t) == Done(s) + more && Held(t) == Held(s);
    OntoTwice(reported, Done(s), Held(s), [step.result], more, [], ParseFrom(c, Rest(t), t.optnext, t.vars));
    assert Held(s) + [] == Held(s);
  }

  lemma TakenParts(s: Cursor, n: nat, vars: Vars)
    requires Bounds(s) && n <= |Rest(s)|
    ensures
      var t := s.(optind := s.optind + n, optnext := "", vars := vars);
      Bounds(t) && Held(t) == Held(s) && Rest(t) == Rest(s)[n..] && Done(t) == Done(s) + Rest(s)[..n]
  {
    var t := s.(optind := s.optind + n, optnext := "", vars := vars);
    var from := if s.start == 0 then 1 else s.end;
    assert s.argv[from..s.optind + n] == s.argv[from..s.optind] + Rest(s)[..n];
  }

  lemma TrackBounds(c: Config, s: Cursor, program: string, reported: seq<Result>, plan: Parse)
    requires OnTrack(c, s, program, reported, plan)
    ensures Bounds(s)
  {
  }

  lemma FreshOnTrack(c: Config, s: Cursor, program: string, reported: seq<Result>, plan: Parse)
    requires OnTrack(c, s, program, reported, plan)
    ensures OnTrack(c, s.(vars := Fresh(s.vars)), program, reported, plan)
  {
    hide IsOption, ParseFrom, Fresh;
    var t := s.(vars := Fresh(s.vars));
    assert Done(t) == Done(s) && Held(t) == Held(s) && Rest(t) == Rest(s);
    ParseFresh(c, Rest(s), s.optnext, s.vars);
  }

  lemma OperandFirst(c: Config, rest: seq<string>, vars: Vars)
    requires c.mode == InOrder && rest != [] && !IsOption(rest[0])
    ensures
      var r := Operand(rest[0], vars);
      ParseFrom(c, rest, "", vars) == Onto([r], rest[..1], [], ParseFrom(c, rest[1..], "", r.vars))
  {
    hide IsOption, Operand;
    assert rest[..1] == [rest[0]];
  }

  /** An operand that is reported where it stands. */
  lemma InOrderOnTrack(c: Config, s: Cursor, program: string, reported: seq<Result>, plan: Parse)
    requires OnTrack(c, s, program, reported, plan) && s.optnext == "" && s.start == 0 && s.optind < |s.argv|
    requires c.mode == InOrder && !IsOption(s.argv[s.optind])
    ensures
      var r := Operand(s.argv[s.optind], s.vars);
      OnTrack(c, s.(optind := s.optind + 1, vars := r.vars), program, reported + [r], plan)
  {
    hide IsOption, ParseFrom, Operand, Done, Held;
    assert Rest(s)[0] == s.argv[s.optind];
    OperandFirst(c, Rest(s), s.vars);
    SteppedOnTrack(c, s, Step(Operand(s.argv[s.optind], s.vars), "", 1), program, reported, plan);
  }

  /** Going into a group of short options. */
  lemma GroupOnTrack(c: Config, s: Cursor, program: string, reported: seq<Result>, plan: Parse)
    requires OnTrack(c, s, program, reported, plan) && s.optnext == "" && s.optind < |s.argv|
    requires
      var arg := s.argv[s.optind];
      IsOption(arg) && arg[1] != '-'
    ensures OnTrack(c, s.(optnext := s.argv[s.optind][1..]), program, reported, plan)
  {
    var t := s.(optnext := s.argv[s.optind][1..]);
    assert Rest(s)[0] == s.argv[s.optind];
    assert Done(t) == Done(s) && Held(t) == Held(s) && Rest(t) == Rest(s);
  }

  lemma ShortOnTrack(c: Config, s: Cursor, program: string, reported: seq<Result>, plan: Parse)
    requires OnTrack(c, s, program, reported, plan) && s.optnext != ""
    ensures Bounds(s)
    ensures
      var step := ShortStep(c.optstring, s.optnext, Next(Rest(s)), Fresh(s.vars));
      OnTrack(c, After(s, step), program, reported + [step.result], plan)
  {
    hide IsOption, ShortStep;
    SteppedOnTrack(c, s, ShortStep(c.optstring, s.optnext, Next(Rest(s)), Fresh(s.vars)), program, reported, plan);
  }

  lemma LongOnTrack(c: Config, s: Cursor, program: string, reported: seq<Result>, plan: Parse)
    requires OnTrack(c, s, program, reported, plan) && s.optnext == "" && s.optind < |s.argv|
    requires
      var arg := s.argv[s.optind];
      IsOption(arg) && arg != "--" && arg[1] == '-'
    ensures Bounds(s)
    ensures
      var step := LongStep(c, s.argv[s.optind][2..], Next(Rest(s)), Fresh(s.vars));
      OnTrack(c, After(s, step), program, reported + [step.result], plan)
  {
    hide LongStep;
    assert Rest(s)[0] == s.argv[s.optind];
    SteppedOnTrack(c, s, LongStep(c, s.argv[s.optind][2..], Next(Rest(s)), Fresh(s.vars)), program, reported, plan);
  }

  /** The ways in which a run ends. */
  predicate AtEnd(c: Config, s: Cursor)
    requires Bounds(s)
  {
    && s.optnext == "" && s.start == 0
    && (s.optind == |s.argv| || (c.mode == Stop && !IsOption(s.argv[s.optind])))
  }

  lemma EndIsFinished(c: Config, s: Cursor, program: string, reported: seq<Result>, plan: Parse)
    requires OnTrack(c, s, program, reported, plan) && AtEnd(c, s)
    ensures Finished(s.(vars := Ended(s.vars)), program, reported, plan)
  {
    hide IsOption;
    assert s.argv == [s.argv[0]] + s.argv[1..s.optind] + [] + s.argv[s.optind..];
    assert reported + [] == reported && Done(s) + [] == Done(s);
  }

  lemma OperandsAreFinished(c: Config, s: Cursor, program: string, reported: seq<Result>, plan: Parse)
    requires OnTrack(c, s.(start := s.optind, end := |s.argv|, optind := |s.argv|), program, reported, plan)
    requires s.optnext == "" && 1 <= s.optind < |s.argv|
    ensures Finished(s.(vars := Ended(s.vars)), program, reported, plan)
  {
    hide IsOption;
    var t := s.(start := s.optind, end := |s.argv|, optind := |s.argv|);
    assert s.argv == [s.argv[0]] + s.argv[1..s.optind] + s.argv[s.optind..] + [];
    assert Done(t) == s.argv[1..s.optind];
    assert reported + [] == reported && Done(t) + [] == Done(t) && Held(t) + [] == Held(t);
  }

  lemma DashesEnd(c: Config, rest: seq<string>, vars: Vars)
    requires rest != [] && rest[0] == "--"
    ensures ParseFrom(c, rest, "", vars) == Parse([], [], [], rest, true, Fresh(vars))
  {
  }

  lemma ArgvInParts(s: Cursor)
    requires Bounds(s) && (s.start == 0 || s.end == s.optind)
    ensures s.argv == [s.argv[0]] + Done(s) + Held(s) + Rest(s) && s.optind == 1 + |Done(s)| + |Held(s)|
  {
    if s.start != 0 {
      assert Done(s) == s.argv[1..s.start];
    }
  }

  lemma DashesAreFinished(c: Config, s: Cursor, program: string, reported: seq<Result>, plan: Parse)
    requires OnTrack(c, s, program, reported, plan) && s.optnext == "" && s.optind < |s.argv|
    requires s.argv[s.optind] == "--" && (s.start == 0 || s.end == s.optind)
    ensures Finished(s.(optind := s.optind + 1, vars := Fresh(s.vars)), program, reported, plan)
  {
    hide IsOption, ParseFrom, Done, Held, Fresh;
    DashesEnd(c, Rest(s), s.vars);
    ArgvInParts(s);
    assert reported + [] == reported && Done(s) + [] == Done(s) && Held(s) + [] == Held(s);
  }

  function Bag(p: Parse): multiset<string> {
    multiset(p.options) + multiset(p.operands) + multiset(p.behind)
  }

  lemma BagOnto(results: seq<Result>, options: seq<string>, operands: seq<string>, p: Parse)
    ensures Bag(Onto(results, options, operands, p)) == multiset(options) + multiset(operands) + Bag(p)
  {
  }

  lemma BagOfRest(c: Config, rest: seq<string>, suffix: string, vars: Vars)
    requires suffix != "" ==> rest != []
    ensures Bag(ParseFrom(c, rest, suffix, vars)) == multiset(rest)
  {
    hide IsOption, ParseFrom, Merges;
    var p := ParseFrom(c, rest, suffix, vars);
    ParseIsPartition(c, rest, suffix, vars);
    MergesMultiset(rest[..|rest| - |p.behind|], p.options, p.operands);
    assert rest == rest[..|rest| - |p.behind|] + p.behind;
  }

  lemma BagOfCursor(s: Cursor)
    requires Bounds(s)
    ensures multiset(s.argv) == multiset{s.argv[0]} + multiset(Done(s)) + multiset(Held(s)) + multiset(Rest(s))
  {
    if s.start == 0 {
      assert s.argv == [s.argv[0]] + (Done(s) + Rest(s));
    } else {
      var a, b := s.argv[1..s.start], s.argv[s.end..s.optind];
      assert multiset(Done(s)) == multiset(a) + multiset(b);
      hide Done;
      assert s.argv == [s.argv[0]] + (a + (Held(s) + (b + Rest(s))));
    }
  }

  /** At every point of a run, the arguments are those of the plan, in some order. */
  lemma OnTrackPermutes(c: Config, s: Cursor, program: string, reported: seq<Result>, plan: Parse)
    requires OnTrack(c, s, program, reported, plan)
    ensures multiset(s.argv) == multiset{program} + Bag(plan)
  {
    hide IsOption, ParseFrom, Bag, Done, Held;
    BagOfCursor(s);
    BagOfRest(c, Rest(s), s.optnext, s.vars);
    BagOnto(reported, Done(s), Held(s), ParseFrom(c, Rest(s), s.optnext, s.vars));
  }

  lemma FinishedPermutes(s: Cursor, program: string, reported: seq<Result>, plan: Parse)
    requires Finished(s, program, reported, plan)
    ensures multiset(s.argv) == multiset{program} + Bag(plan)
  {
  }

  // ----- Moving elements -----

  /** The element at `from` is at `last`, and those behind it up to there have come forward. */
  function Moved(a: seq<string>, from: int, last: int): seq<string>
    requires 0 <= from <= last < |a|
  {
    a[..from] + a[from + 1..last + 1] + [a[from]] + a[last + 1..]
  }

  lemma MovedMeans(a: seq<string>, from: int, last: int, b: seq<string>)
    requires 0 <= from <= last < |a| == |b| && b[last] == a[from]
    requires forall k :: 0 <= k < from ==> b[k] == a[k]
    requires forall k :: from <= k < last ==> b[k] == a[k + 1]
    requires forall k :: last < k < |a| ==> b[k] == a[k]
    ensures b == Moved(a, from, last)
  {
  }

  /** Of the operands up to `e`, those from `end` on are behind the options from `e` up to `last`. */
  function Moving(a: seq<string>, end: int, e: int, last: int): (b: seq<string>)
    requires 0 <= end <= e <= last + 1 <= |a|
    ensures |b| == |a|
  {
    a[..end] + a[e..last + 1] + a[end..e] + a[last + 1..]
  }

  lemma MovedOnce(a: seq<string>, end: int, e: int, last: int)
    requires 0 < end <= e <= last + 1 <= |a|
    ensures Moved(Moving(a, end, e, last), end - 1, last - (e - end)) == Moving(a, end - 1, e, last)
  {
    var b, to := Moving(a, end, e, last), last - (e - end);
    assert b[..end - 1] == a[..end - 1];
    assert b[end..to + 1] == a[e..last + 1];
    assert b[to + 1..] == a[end..e] + a[last + 1..];
    assert [a[end - 1]] + a[end..e] == a[end - 1..e];
  }

  lemma MovedAll(s: Cursor)
    requires Bounds(s) && s.start != 0
    ensures Moving(s.argv, s.end, s.end, s.optind - 1) == s.argv
    ensures Moving(s.argv, s.start, s.end, s.optind - 1) == [s.argv[0]] + Done(s) + Held(s) + Rest(s)
    ensures 1 + |Done(s)| == s.optind - (s.end - s.start)
  {
    assert s.argv[..s.start] == [s.argv[0]] + s.argv[1..s.start];
  }

  class Scanner {
    const config: Config
    const argv: array<string>
    var optind: int
    var optnext: string
    var optarg: Option<string>
    var optopt: int
    var longindex: int
    var stored: map<nat, int>
    var start: int
    var end: int
    /** What the command line came to before anything was moved, and what was reported of it. */
    ghost const program: string
    ghost const plan: Parse
    ghost var reported: seq<Result>

    function Variables(): Vars
      reads this
    {
      Vars(optarg, optopt, longindex, stored)
    }

    ghost function At(): Cursor
      reads this, argv
    {
      Cursor(argv[..], optind, optnext, Variables(), start, end)
    }

    ghost predicate Valid()
      reads this, argv
    {
      OnTrack(config, At(), program, reported, plan)
    }

    constructor (argv: array<string>, optstring: string, longopts: seq<LongOption>, posixlyCorrect: bool)
      requires argv.Length > 0
      ensures Valid() && reported == [] && this.argv == argv
      ensures config == Configured(optstring, longopts, posixlyCorrect)
      ensures program == argv[0] && plan == ParseFrom(config, argv[1..], "", AT_START)
    {
      this.argv, config := argv, Configured(optstring, longopts, posixlyCorrect);
      optind, optnext, start, end := 1, "", 0, 0;
      optarg, optopt, longindex, stored := None, '?' as int, 0, map[];
      program := argv[0];
      plan := ParseFrom(Configured(optstring, longopts, posixlyCorrect), argv[1..], "", AT_START);
      reported := [];
      new;
      OntoTwice([], [], [], [], [], [], plan);
    }

    /** The element at `from` goes to `last`, and those behind it up to there come forward. */
    method MoveBack(from: int, last: int)
      requires 0 <= from <= last < argv.Length
      modifies argv
      ensures argv[..] == Moved(old(argv[..]), from, last)
    {
      hide Moved;
      ghost var a := argv[..];
      var arg := argv[from];
      var i := from;
      while i < last
        invariant from <= i <= last
        invariant forall k :: 0 <= k < from ==> argv[k] == a[k]
        invariant forall k :: from <= k < i ==> argv[k] == a[k + 1]
        invariant forall k :: i <= k < argv.Length ==> argv[k] == a[k]
      {
        argv[i] := argv[i + 1];
        i := i + 1;
      }
      argv[i] := arg;
      MovedMeans(a, from, last, argv[..]);
    }

    /** The operands that the last call went over go behind the option that it found. */
    method Rotate()
      requires Bounds(At()) && start != 0
      modifies argv, `start, `end, `optind
      ensures At() == Rotated(old(At())).(end := end)
    {
      hide Moving, Moved, Done, Held, Rest;
      ghost var a, s, e := argv[..], At(), end;
      MovedAll(s);
      var lastPos := optind - 1;
      ghost var last := lastPos;
      var back := optind - (end - start);
      if back <= 0 {
        back := 1;
      }
      optind := back;
      while true
        invariant start == s.start <= end <= e && lastPos == last - (e - end)
        invariant argv[..] == Moving(a, end, e, last)
        decreases end
        modifies argv, `end
      {
        if start >= end {
          end := end - 1;
          break;
        }
        MovedOnce(a, end, e, last);
        end := end - 1;
        MoveBack(end, lastPos);
        lastPos := lastPos - 1;
      }
      start := 0;
    }

    /** `ya_getopt_shortopts`. */
    method ReadShort() returns (ret: int)
      requires Valid() && optnext != "" && optopt != '?' as int
      modifies `optind, `optnext, `optarg, `optopt, `reported
      ensures Valid() && ret != -1 && reported == old(reported) + [Result(ret, Variables())]
    {
      hide IsOption, OnTrack, Find;
      ghost var s := At();
      ShortOnTrack(config, s, program, reported, plan);
      ghost var step := ShortStep(config.optstring, optnext, Next(Rest(s)), s.vars);
      var opt := optnext[0];
      ret := opt as int;
      match Find(config.optstring, opt) {
      case None =>
        optarg := None;
        optopt := opt as int;
        optnext := optnext[1..];
        if optnext == "" {
          optind := optind + 1;
        }
        ret := '?' as int;
      case Some(i) =>
        if Colon(config.optstring, i + 1) {
          if |optnext| == 1 {
            optind := optind + 1;
            if Colon(config.optstring, i + 2) {
              optarg := None;
            } else if optind == argv.Length {
              optarg := None;
              optopt := opt as int;
              ret := if Colon(config.optstring, 0) then ':' as int else '?' as int;
            } else {
              optarg := Some(argv[optind]);
              optind := optind + 1;
            }
          } else {
            optarg := Some(optnext[1..]);
            optind := optind + 1;
          }
          optnext := "";
        } else {
          optarg := None;
          optnext := optnext[1..];
          if optnext == "" {
            optind := optind + 1;
          }
        }
      }
      assert At() == After(s, step) && step.result == Result(ret, Variables());
      reported := reported + [Result(ret, Variables())];
    }

    /** The loop of `ya_getopt_longopts`: the first option that the argument spells. */
    method FindLong(arg: string) returns (found: Option<nat>)
      ensures found == FirstSpelled(config.longopts, arg)
    {
      hide FirstSpelled, Spells;
      var i := 0;
      while i < |config.longopts|
        invariant 0 <= i <= |config.longopts|
        invariant forall k :: 0 <= k < i ==> !Spells(config.longopts[k], arg)
      {
        if Spells(config.longopts[i], arg) {
          return Some(i);
        }
        i := i + 1;
      }
      return None;
    }

    /** `ya_getopt_longopts`. */
    method ReadLong(arg: string) returns (ret: int)
      requires Valid() && optnext == "" && 0 <= optind < argv.Length && Distinguishable(config.longopts)
      requires IsOption(argv[optind]) && argv[optind] != "--" && argv[optind][1] == '-' && arg == argv[optind][2..]
      requires optopt != '?' as int
      modifies `optind, `optarg, `optopt, `longindex, `stored, `reported
      ensures Valid() && ret != -1 && reported == old(reported) + [Result(ret, Variables())]
    {
      hide OnTrack, FirstSpelled, Distinguishable;
      ghost var s := At();
      LongOnTrack(config, s, program, reported, plan);
      ghost var step := LongStep(config, arg, Next(Rest(s)), s.vars);
      ret := '?' as int;
      var idx := FindLong(arg);
      match idx {
      case None =>
        optind := optind + 1;
      case Some(i) =>
        var opt := config.longopts[i];
        var val, found := None, true;
        if |arg| == |opt.name| {
          if opt.hasArgument == RequiredArgument {
            optind := optind + 1;
            if optind == argv.Length {
              found := false;
              optarg, optopt := None, opt.value;
              ret := if Colon(config.optstring, 0) then ':' as int else '?' as int;
            } else {
              val := Some(argv[optind]);
            }
          }
        } else if opt.hasArgument == NoArgument {
          found := false;
          optind := optind + 1;
          optarg, optopt := None, opt.value;
        } else {
          val := Some(arg[|opt.name| + 1..]);
        }
        if found {
          Found(opt, i, val);
          ret := Value(opt);
        }
      }
      assert At() == After(s, step) && step.result == Result(ret, Variables());
      reported := reported + [Result(ret, Variables())];
    }

    /** The end of `ya_getopt_longopts` for an option that is found. */
    method Found(opt: LongOption, idx: nat, val: Option<string>)
      modifies `optind, `optarg, `longindex, `stored
      ensures optind == old(optind) + 1 && Result(Value(opt), Variables()) == FoundLong(opt, idx, val, old(Variables()))
    {
      optarg := val;
      optind := optind + 1;
      if opt.flag.Some? {
        stored := stored[opt.flag.value := opt.value];
      }
      longindex := idx;
    }

    /** The search of `ya_getopt_internal` for an option behind the operands from the index on. */
    method SkipOperands() returns (found: bool)
      requires Valid() && optnext == "" && start == 0 && optind < argv.Length && config.mode == Permute
      requires 0 <= optind && !IsOption(argv[optind])
      modifies `start, `end, `optind
      ensures found ==> Valid() && start != 0 && 0 <= end == optind < argv.Length && IsOption(argv[optind])
      ensures !found ==> Finished(At().(vars := Ended(At().vars)), program, reported, plan)
    {
      hide IsOption, ParseFrom, Onto, Done, Held, Rest, OnTrack;
      TrackBounds(config, At(), program, reported, plan);
      ghost var s := At();
      start := optind;
      var i := optind + 1;
      while i < argv.Length && !IsOption(argv[i])
        invariant optind < i <= argv.Length
        invariant forall k :: optind <= k < i ==> !IsOption(argv[k])
      {
        i := i + 1;
      }
      SkippedOnTrack(config, s, i, program, reported, plan);
      if i == argv.Length {
        OperandsAreFinished(config, At(), program, reported, plan);
        return false;
      }
      end := i;
      optind := i;
      return true;
    }

    /** The part of `ya_getopt_internal` that looks at an option where it starts. */
    method ReadOption() returns (ret: int)
      requires Valid() && Distinguishable(config.longopts) && optopt != '?' as int
      requires optnext == "" && 0 <= optind < argv.Length && IsOption(argv[optind]) && (start == 0 || end == optind)
      modifies `optind, `optnext, `optarg, `optopt, `longindex, `stored, `reported
      ensures ret != -1 ==> Valid() && reported == old(reported) + [Result(ret, Variables())]
      ensures ret == -1 ==> Finished(At(), program, reported, plan) && reported == old(reported)
    {
      hide ParseFrom, Onto, Done, Held, Rest, OnTrack, Distinguishable;
      if argv[optind] == "--" {
        DashesAreFinished(config, At(), program, reported, plan);
        optind := optind + 1;
        return -1;
      }
      if argv[optind][1] == '-' {
        ret := ReadLong(argv[optind][2..]);
        return;
      }
      GroupOnTrack(config, At(), program, reported, plan);
      optnext := argv[optind][1..];
      ret := ReadShort();
    }

    /** `ya_getopt_internal`. */
    method Internal() returns (ret: int)
      requires Valid() && Distinguishable(config.longopts)
      modifies this, argv
      ensures ret != -1 ==> Valid() && reported == old(reported) + [Result(ret, Variables())]
      ensures ret == -1 ==> Finished(At(), program, reported, plan) && reported == old(reported)
    {
      hide IsOption, ParseFrom, Onto, Done, Held, Rest, OnTrack, Distinguishable;
      FreshOnTrack(config, At(), program, reported, plan);
      if optopt == '?' as int {
        optopt := 0;
      }
      TrackBounds(config, At(), program, reported, plan);
      if optnext == "" && start != 0 {
        ghost var s := At();
        Rotate();
        RotatedOnTrack(config, s, end, program, reported, plan);
        TrackBounds(config, At(), program, reported, plan);
      }
      if optind >= argv.Length {
        EndIsFinished(config, At(), program, reported, plan);
        optarg := None;
        return -1;
      }
      if optnext == "" {
        if !IsOption(argv[optind]) {
          match config.mode
          case InOrder =>
            InOrderOnTrack(config, At(), program, reported, plan);
            optarg := Some(argv[optind]);
            optind := optind + 1;
            start := 0;
            reported := reported + [Result(1, Variables())];
            return 1;
          case Stop =>
            EndIsFinished(config, At(), program, reported, plan);
            optarg := None;
            return -1;
          case Permute =>
            var found := SkipOperands();
            if !found {
              optarg := None;
              return -1;
            }
        }
        ret := ReadOption();
      } else {
        ret := ReadShort();
      }
    }

    /** `ya_getopt_long`: reports one option, or in order mode one operand, or that there are no more. What
        the arguments are does not change, only their order. */
    method GetoptLong() returns (ret: int)
      requires Valid() && Distinguishable(config.longopts)
      modifies this, argv
      ensures ret != -1 ==> Valid() && reported == old(reported) + [Result(ret, Variables())]
      ensures ret == -1 ==> Finished(At(), program, reported, plan) && reported == old(reported)
      ensures multiset(argv[..]) == old(multiset(argv[..]))
    {
      hide OnTrack, Finished, Distinguishable, Bag;
      OnTrackPermutes(config, At(), program, reported, plan);
      ret := Internal();
      if ret == -1 {
        FinishedPermutes(At(), program, reported, plan);
      } else {
        OnTrackPermutes(config, At(), program, reported, plan);
      }
    }

    /** The loop over the options in `handle_parameters`: all reports, up to the first end. */
    method Run() returns (results: seq<Result>)
      requires Valid() && reported == [] && Distinguishable(config.longopts)
      modifies this, argv
      ensures results == plan.results && Finished(At(), program, results, plan)
    {
      hide OnTrack, Finished, Distinguishable;
      results := [];
      while true
        invariant Valid() && reported == results
        decreases |plan.results| - |results|
      {
        ResultsAhead(config, At(), program, reported, plan);
        var c := GetoptLong();
        if c == -1 {
          FinishedResults(At(), program, reported, plan);
          return;
        }
        results := results + [Result(c, Variables())];
      }
    }
  }

  lemma ResultsAhead(c: Config, s: Cursor, program: string, reported: seq<Result>, plan: Parse)
    requires OnTrack(c, s, program, reported, plan)
    ensures reported <= plan.results
  {
  }

  lemma FinishedResults(s: Cursor, program: string, reported: seq<Result>, plan: Parse)
    requires Finished(s, program, reported, plan)
    ensures reported == plan.results
  {
  }

  lemma BehindDashes(c: Config, args: seq<string>, p: Parse)
    requires Partitions(c, args, p) && p.behind != [] && c.mode != Stop
    ensures "--" in args
  {
    hide IsOption, Merges;
    assert args[|args| - |p.behind|] == p.behind[0];
  }

  /** Without dashes on the command line, and where operands are not to stay in place, a whole run sorts
      it: first the options with their arguments, in order, then the operands, in order, and the index is
      at the first of these. */
  lemma StablePartition(c: Config, args: seq<string>, s: Cursor, program: string, reported: seq<Result>)
    requires c.mode == Permute && "--" !in args
    requires Finished(s, program, reported, ParseFrom(c, args, "", AT_START))
    ensures
      var p := ParseFrom(c, args, "", AT_START);
      && s.argv == [program] + p.options + p.operands && Merges(args, p.options, p.operands)
      && 1 <= s.optind <= |s.argv| && s.argv[1..s.optind] == p.options && s.argv[s.optind..] == p.operands
      && (forall i :: s.optind <= i < |s.argv| ==> !IsOption(s.argv[i]))
  {
    hide IsOption, ParseFrom;
    var p := ParseFrom(c, args, "", AT_START);
    ParseIsPartition(c, args, "", AT_START);
    if p.behind != [] {
      BehindDashes(c, args, p);
      assert false;
    }
    assert args[..|args|] == args;
    assert s.argv == [program] + p.options + p.operands;
  }

  /** Behind dashes the index is at what follows them, and operands in front of the dashes are left
      between. They are missed by a caller that goes on from the index, unless there are none. */
  lemma OperandsBeforeDashes(c: Config, args: seq<string>, s: Cursor, program: string, reported: seq<Result>)
    requires Finished(s, program, reported, ParseFrom(c, args, "", AT_START)) && ParseFrom(c, args, "", AT_START).dashes
    ensures
      var p := ParseFrom(c, args, "", AT_START);
      && 1 <= s.optind <= |s.argv| && s.argv[..s.optind] == [program] + p.options + p.operands + ["--"]
      && s.argv[s.optind..] == p.behind[1..]
      && (s.argv[1..s.optind] == p.options + ["--"] <==> p.operands == [])
  {
    hide IsOption, ParseFrom, Merges;
    var p := ParseFrom(c, args, "", AT_START);
    ParseIsPartition(c, args, "", AT_START);
    assert p.behind == ["--"] + p.behind[1..];
    assert s.argv == [program] + p.options + p.operands + ["--"] + p.behind[1..];
    assert s.argv[1..s.optind] == p.options + p.operands + ["--"];
    if s.argv[1..s.optind] == p.options + ["--"] {
      assert |p.options + p.operands + ["--"]| == |p.options + ["--"]|;
    } else {
      assert p.operands == [] ==> p.options + p.operands == p.options;
    }
  }

  /** Where operands are not moved, nothing is. */
  lemma StaysInPlace(c: Config, args: seq<string>)
    requires c.mode != Permute
    ensures
      var p := ParseFrom(c, args, "", AT_START);
      && p.operands == [] && args == p.options + p.behind
      && (p.dashes ==> p.behind != [] && p.behind[0] == "--")
      && (p.behind != [] && !p.dashes ==> c.mode == Stop && !IsOption(p.behind[0]))
  {
    hide IsOption, ParseFrom;
    var p := ParseFrom(c, args, "", AT_START);
    ParseIsPartition(c, args, "", AT_START);
    OnlyOne(args[..|args| - |p.behind|], p.options);
  }

  lemma {:induction false} OnlyOne(whole: seq<string>, a: seq<string>)
    ensures Merges(whole, a, []) ==> whole == a
  {
    if whole != [] && a != [] {
      OnlyOne(whole[1..], a[1..]);
      assert whole == [whole[0]] + whole[1..] && a == [a[0]] + a[1..];
    }
  }

  /** The sign in front of the option string, if there is one. */
  function SignOf(optstring: string): string {
    if optstring != "" && (optstring[0] == '+' || optstring[0] == '-') then [optstring[0]] else ""
  }

  lemma SignDecides(optstring: string, longopts: seq<LongOption>, posixlyCorrect: bool)
    ensures
      var mode, sign := Configured(optstring, longopts, posixlyCorrect).mode, SignOf(optstring);
      && (sign == "" || sign == "+" || sign == "-") && (sign == "-" ==> mode == InOrder)
      && (sign == "+" || (sign == "" && posixlyCorrect) ==> mode == Stop)
      && (sign == "" && !posixlyCorrect ==> mode == Permute)
  {
  }

  /** A whole run from the initial variables, as the command line program makes it: the reports are those of
      the command line as it was, and afterwards it is sorted. Without a sign in front of the option string,
      without dashes, and unless the environment asks for the other order, it is a stable partition with the
      index between the two parts. With a plus, or where the environment asks for it, the run ends at the first
      operand, and with a minus operands are reported where they are; in both cases nothing is moved. */
  method HandleParameters(argv: array<string>, optstring: string, longopts: seq<LongOption>, posixlyCorrect: bool)
    returns (results: seq<Result>, optind: int)
    requires argv.Length > 0 && Distinguishable(longopts)
    modifies argv
    ensures
      var c := Configured(optstring, longopts, posixlyCorrect);
      var p := ParseFrom(c, old(argv[1..]), "", AT_START);
      && results == p.results
      && argv[..] == [old(argv[0])] + p.options + p.operands + p.behind
      && optind == 1 + |p.options| + (if p.dashes then |p.operands| + 1 else 0)
    ensures
      var c := Configured(optstring, longopts, posixlyCorrect);
      var args := old(argv[1..]);
      var p := ParseFrom(c, args, "", AT_START);
      SignOf(optstring) == "" && !posixlyCorrect && "--" !in args ==>
        && Merges(args, p.options, p.operands) && 1 <= optind <= argv.Length
        && argv[1..optind] == p.options && argv[optind..] == p.operands
        && (forall i :: optind <= i < argv.Length ==> !IsOption(argv[i]))
    ensures SignOf(optstring) != "" || posixlyCorrect ==> argv[..] == old(argv[..]) && 1 <= optind <= argv.Length
    ensures
      SignOf(optstring) == "+" || (SignOf(optstring) == "" && posixlyCorrect) ==>
        optind == argv.Length || argv[optind - 1] == "--" || !IsOption(argv[optind])
    ensures SignOf(optstring) == "-" ==> optind == argv.Length || argv[optind - 1] == "--"
  {
    hide IsOption, ParseFrom, OnTrack, Distinguishable, Merges, SignOf, Finished;
    ghost var args, program := argv[1..], argv[0];
    ghost var all := argv[..];
    SignDecides(optstring, longopts, posixlyCorrect);
    var scanner := new Scanner(argv, optstring, longopts, posixlyCorrect);
    results := scanner.Run();
    optind := scanner.optind;
    ghost var c := scanner.config;
    FinishedMeans(scanner.At(), program, results, ParseFrom(c, args, "", AT_START));
    if c.mode == Permute {
      if "--" !in args {
        StablePartition(c, args, scanner.At(), program, results);
      }
    } else {
      StaysInPlace(c, args);
      InPlace(all, program, args, ParseFrom(c, args, "", AT_START), optind);
    }
  }

  lemma FinishedMeans(s: Cursor, program: string, reported: seq<Result>, plan: Parse)
    requires Finished(s, program, reported, plan)
    ensures reported == plan.results && s.argv == [program] + plan.options + plan.operands + plan.behind
    ensures s.optind == 1 + |plan.options| + (if plan.dashes then |plan.operands| + 1 else 0)
  {
  }

  lemma InPlace(all: seq<string>, program: string, args: seq<string>, p: Parse, optind: int)
    requires all != [] && all[0] == program && args == all[1..] == p.options + p.behind && p.operands == []
    requires optind == 1 + |p.options| + (if p.dashes then 1 else 0)
    requires p.dashes ==> p.behind != [] && p.behind[0] == "--"
    ensures [program] + p.options + p.operands + p.behind == all && 1 <= optind <= |all|
    ensures p.dashes ==> all[optind - 1] == "--"
    ensures !p.dashes && optind < |all| ==> p.behind != [] && all[optind] == p.behind[0]
    ensures !p.dashes && p.behind == [] ==> optind == |all|
  {
    assert all == [program] + (p.options + p.behind);
  }
}
