/**
 What a command line says: its options with their arguments, and its operands (win32_msvc/getopt.h).
 */
module Arguments {
  import opened Cabinet

  /** What is done with an operand that is found in front of an option. */
  datatype Mode = Permute | Stop | InOrder

  datatype HasArgument = NoArgument | RequiredArgument | OptionalArgument

  /** A long option. With a flag, which is the variable of some number, the value is stored there and 0
      is returned. */
  datatype LongOption = LongOption(name: string, hasArgument: HasArgument, flag: Option<nat>, value: int)

  datatype Config = Config(optstring: string, longopts: seq<LongOption>, mode: Mode)

  /** `check_gnu_extension`. */
  function ModeOf(optstring: string, posixlyCorrect: bool): Mode {
    if optstring != "" && optstring[0] == '-' then InOrder
    else if (optstring != "" && optstring[0] == '+') || posixlyCorrect then Stop
    else Permute
  }

  function Configured(optstring: string, longopts: seq<LongOption>, posixlyCorrect: bool): Config {
    var rest := if optstring != "" && (optstring[0] == '+' || optstring[0] == '-') then optstring[1..] else optstring;
    Config(rest, longopts, ModeOf(optstring, posixlyCorrect))
  }

  predicate IsOption(arg: string) {
    |arg| > 1 && arg[0] == '-'
  }

  /** The variables through which calls report: the argument of the option, the option that an error is
      about, the index of the long option that was found last, and the variables that flags name. */
  datatype Vars = Vars(optarg: Option<string>, optopt: int, longindex: int, stored: map<nat, int>)

  /** Every call starts with this. */
  function Fresh(vars: Vars): Vars {
    if vars.optopt == '?' as int then vars.(optopt := 0) else vars
  }

  /** What one call reports: its result, and the variables as it leaves them. */
  datatype Result = Result(ret: int, vars: Vars)

  /** What is read at once: the report, what is left of a group of short options, and how many elements
      are used up when nothing is. */
  datatype Step = Step(result: Result, suffix: string, taken: nat)

  function Next(rest: seq<string>): Option<string> {
    if |rest| > 1 then Some(rest[1]) else None
  }

  function Find(optstring: string, c: char): Option<nat> {
    if optstring == "" then None
    else if optstring[0] == c then Some(0)
    else
      match Find(optstring[1..], c)
      case None => None
      case Some(i) => Some(i + 1)
  }

  function Colon(optstring: string, i: nat): bool {
    i < |optstring| && optstring[i] == ':'
  }

  /** The report that an option lacks its argument. */
  function MissingArgument(optstring: string, opt: int, vars: Vars): Result {
    Result((if Colon(optstring, 0) then ':' else '?') as int, vars.(optarg := None, optopt := opt))
  }

  /** One short option of a group. */
  function ShortStep(optstring: string, suffix: string, next: Option<string>, vars: Vars): (s: Step)
    requires suffix != ""
    ensures 1 <= s.taken <= (if next.Some? then 2 else 1) && |s.suffix| < |suffix|
    ensures s.result.ret != -1 && (s.suffix != "" ==> s.taken == 1)
  {
    var opt := suffix[0] as int;
    match Find(optstring, suffix[0])
    case None => Step(Result('?' as int, vars.(optarg := None, optopt := opt)), suffix[1..], 1)
    case Some(i) =>
      if !Colon(optstring, i + 1) then Step(Result(opt, vars.(optarg := None)), suffix[1..], 1)
      else if |suffix| > 1 then Step(Result(opt, vars.(optarg := Some(suffix[1..]))), "", 1)
      else if Colon(optstring, i + 2) then Step(Result(opt, vars.(optarg := None)), "", 1)
      else
        match next
        case None => Step(MissingArgument(optstring, opt, vars), "", 1)
        case Some(arg) => Step(Result(opt, vars.(optarg := Some(arg))), "", 2)
  }

  /** The option is spelled out, and nothing or a value follows. */
  predicate Spells(opt: LongOption, arg: string) {
    opt.name <= arg && (|arg| == |opt.name| || arg[|opt.name|] == '=')
  }

  function FirstSpelled(longopts: seq<LongOption>, arg: string): (r: Option<nat>)
    ensures r.Some? ==> r.value < |longopts| && Spells(longopts[r.value], arg)
    ensures forall i :: 0 <= i < (if r.Some? then r.value else |longopts|) ==> !Spells(longopts[i], arg)
  {
    if longopts == [] then None
    else if Spells(longopts[0], arg) then Some(0)
    else
      match FirstSpelled(longopts[1..], arg)
      case None => None
      case Some(i) => Some(i + 1)
  }

  function Value(opt: LongOption): int {
    if opt.flag.Some? then 0 else opt.value
  }

  /** No option has the value that says that there are no more options. */
  ghost predicate Distinguishable(longopts: seq<LongOption>) {
    forall i :: 0 <= i < |longopts| ==> Value(longopts[i]) != -1
  }

  /** The report that a long option was found. */
  function FoundLong(opt: LongOption, idx: nat, val: Option<string>, vars: Vars): Result {
    var stored := if opt.flag.Some? then vars.stored[opt.flag.value := opt.value] else vars.stored;
    Result(Value(opt), vars.(optarg := val, longindex := idx, stored := stored))
  }

  /** One long option. Where it is not known, the argument of the one before stays. */
  function LongStep(c: Config, arg: string, next: Option<string>, vars: Vars): (s: Step)
    ensures 1 <= s.taken <= (if next.Some? then 2 else 1) && s.suffix == ""
    ensures Distinguishable(c.longopts) ==> s.result.ret != -1
  {
    match FirstSpelled(c.longopts, arg)
    case None => Step(Result('?' as int, vars), "", 1)
    case Some(i) =>
      var opt := c.longopts[i];
      if |arg| > |opt.name| then
        if opt.hasArgument == NoArgument then
          Step(Result('?' as int, vars.(optarg := None, optopt := opt.value)), "", 1)
        else Step(FoundLong(opt, i, Some(arg[|opt.name| + 1..]), vars), "", 1)
      else if opt.hasArgument == RequiredArgument then
        match next
        case None => Step(MissingArgument(c.optstring, opt.value, vars), "", 1)
        case Some(value) => Step(FoundLong(opt, i, Some(value), vars), "", 2)
      else Step(FoundLong(opt, i, None, vars), "", 1)
  }

  /** What a command line comes to: the reports, the options with their arguments, the operands, what is
      not looked at, which starts with the dashes that end the options if there are any, and the variables
      at the end. */
  datatype Parse = Parse(results: seq<Result>, options: seq<string>, operands: seq<string>,
                         behind: seq<string>, dashes: bool, vars: Vars)

  function Onto(results: seq<Result>, options: seq<string>, operands: seq<string>, p: Parse): Parse {
    Parse(results + p.results, options + p.options, operands + p.operands, p.behind, p.dashes, p.vars)
  }

  predicate TwoDashes(arg: string) {
    |arg| >= 2 && arg[1] == '-'
  }

  /** The short options of one element. */
  function Group(arg: string): (suffix: string)
    requires IsOption(arg)
    ensures suffix != ""
  {
    arg[1..]
  }

  /** The variables at the end of a run that no dashes end. */
  function Ended(vars: Vars): Vars {
    Fresh(vars).(optarg := None)
  }

  /** The report of an operand where it stands. */
  function Operand(arg: string, vars: Vars): Result {
    Result(1, Fresh(vars).(optarg := Some(arg)))
  }

  /** The elements from `rest` on, where of the first one only `suffix` is left if that is not empty. */
  function ParseFrom(c: Config, rest: seq<string>, suffix: string, vars: Vars): Parse
    requires suffix != "" ==> rest != []
    decreases |rest|, if suffix == "" then 1 else 0, |suffix|
  {
    if suffix != "" then
      var step := ShortStep(c.optstring, suffix, Next(rest), Fresh(vars));
      if step.suffix != "" then
        Onto([step.result], [], [], ParseFrom(c, rest, step.suffix, step.result.vars))
      else
        Onto([step.result], rest[..step.taken], [], ParseFrom(c, rest[step.taken..], "", step.result.vars))
    else if rest == [] then Parse([], [], [], [], false, Ended(vars))
    else if !IsOption(rest[0]) then
      match c.mode
      case Permute => Onto([], [], [rest[0]], ParseFrom(c, rest[1..], "", vars))
      case Stop => Parse([], [], [], rest, false, Ended(vars))
      case InOrder =>
        var r := Operand(rest[0], vars);
        Onto([r], [rest[0]], [], ParseFrom(c, rest[1..], "", r.vars))
    else if rest[0] == "--" then Parse([], [], [], rest, true, Fresh(vars))
    else if TwoDashes(rest[0]) then
      var step := LongStep(c, rest[0][2..], Next(rest), Fresh(vars));
      Onto([step.result], rest[..step.taken], [], ParseFrom(c, rest[step.taken..], "", step.result.vars))
    else ParseFrom(c, rest, Group(rest[0]), vars)
  }

  /** What a call starts with can be done twice. */
  lemma {:induction false} ParseFresh(c: Config, rest: seq<string>, suffix: string, vars: Vars)
    requires suffix != "" ==> rest != []
    ensures ParseFrom(c, rest, suffix, Fresh(vars)) == ParseFrom(c, rest, suffix, vars)
    decreases |rest|, if suffix == "" then 1 else 0, |suffix|
  {
    assert Fresh(Fresh(vars)) == Fresh(vars);
    hide ShortStep, LongStep, IsOption, Fresh;
    if suffix != "" || rest == [] || rest[0] == "--" {
    } else if !IsOption(rest[0]) {
      if c.mode == Permute {
        ParseFresh(c, rest[1..], "", vars);
      }
    } else if !TwoDashes(rest[0]) {
      ParseFresh(c, rest, Group(rest[0]), vars);
    }
  }

  // ----- What a parse keeps -----

  /** A row of elements is made of two others, each in its own order. */
  predicate Merges(whole: seq<string>, a: seq<string>, b: seq<string>) {
    if whole == [] then a == [] && b == []
    else
      || (a != [] && whole[0] == a[0] && Merges(whole[1..], a[1..], b))
      || (b != [] && whole[0] == b[0] && Merges(whole[1..], a, b[1..]))
  }

  lemma {:induction false} MergesFront(front: seq<string>, whole: seq<string>, a: seq<string>, b: seq<string>)
    requires Merges(whole, a, b)
    ensures Merges(front + whole, front + a, b)
  {
    if front == [] {
      assert front + whole == whole && front + a == a;
    } else {
      MergesFront(front[1..], whole, a, b);
      assert (front + whole)[1..] == front[1..] + whole;
      assert (front + a)[1..] == front[1..] + a;
    }
  }

  lemma {:induction false} MergesMultiset(whole: seq<string>, a: seq<string>, b: seq<string>)
    requires Merges(whole, a, b)
    ensures multiset(whole) == multiset(a) + multiset(b)
  {
    if whole != [] {
      assert whole == [whole[0]] + whole[1..];
      if a != [] && whole[0] == a[0] && Merges(whole[1..], a[1..], b) {
        assert a == [a[0]] + a[1..];
        MergesMultiset(whole[1..], a[1..], b);
      } else {
        assert b == [b[0]] + b[1..];
        MergesMultiset(whole[1..], a, b[1..]);
      }
    }
  }

  /** The options and the operands of `p` are each in the order of `rest`, and together they are all of it
      up to the part that is not looked at. */
  ghost predicate Partitions(c: Config, rest: seq<string>, p: Parse) {
    && |p.behind| <= |rest| && p.behind == rest[|rest| - |p.behind|..]
    && Merges(rest[..|rest| - |p.behind|], p.options, p.operands)
    && (forall i :: 0 <= i < |p.operands| ==> !IsOption(p.operands[i]))
    && (p.dashes ==> p.behind != [] && p.behind[0] == "--")
    && (p.behind != [] && !p.dashes ==> !IsOption(p.behind[0]) && c.mode == Stop)
    && (p.operands != [] ==> c.mode == Permute)
  }

  lemma PartitionsBehind(c: Config, rest: seq<string>, n: nat, results: seq<Result>, p: Parse)
    requires n <= |rest| && Partitions(c, rest[n..], p)
    ensures Partitions(c, rest, Onto(results, rest[..n], [], p))
  {
    hide IsOption;
    var k := |rest| - |p.behind|;
    MergesFront(rest[..n], rest[n..][..k - n], p.options, p.operands);
    assert rest[..k] == rest[..n] + rest[n..][..k - n];
    assert rest[n..][k - n..] == rest[k..];
    assert [] + p.operands == p.operands;
  }

  lemma OperandInFront(c: Config, rest: seq<string>, p: Parse)
    requires rest != [] && !IsOption(rest[0]) && c.mode == Permute && Partitions(c, rest[1..], p)
    ensures Partitions(c, rest, Onto([], [], [rest[0]], p))
  {
    hide IsOption;
    var q := Onto([], [], [rest[0]], p);
    assert q.operands[1..] == p.operands && q.options == p.options;
    assert rest[..|rest| - |p.behind|][1..] == rest[1..][..|rest| - 1 - |p.behind|];
  }

  /** Whatever is on the command line, the parse partitions it in order. */
  lemma {:induction false} ParseIsPartition(c: Config, rest: seq<string>, suffix: string, vars: Vars)
    requires suffix != "" ==> rest != []
    ensures Partitions(c, rest, ParseFrom(c, rest, suffix, vars))
    decreases |rest|, if suffix == "" then 1 else 0, |suffix|
  {
    hide Partitions, ShortStep, LongStep;
    if suffix != "" {
      var step := ShortStep(c.optstring, suffix, Next(rest), Fresh(vars));
      if step.suffix != "" {
        ParseIsPartition(c, rest, step.suffix, step.result.vars);
        assert rest[0..] == rest && rest[..0] == [];
        PartitionsBehind(c, rest, 0, [step.result], ParseFrom(c, rest, step.suffix, step.result.vars));
      } else {
        ParseIsPartition(c, rest[step.taken..], "", step.result.vars);
        PartitionsBehind(c, rest, step.taken, [step.result],
                         ParseFrom(c, rest[step.taken..], "", step.result.vars));
      }
    } else if rest == [] || (!IsOption(rest[0]) && c.mode == Stop) || rest[0] == "--" {
      var p := ParseFrom(c, rest, suffix, vars);
      NothingParsed(c, rest, p.vars);
      assert p == Parse([], [], [], rest, rest != [] && rest[0] == "--", p.vars);
    } else if !IsOption(rest[0]) {
      var vars' := if c.mode == Permute then vars else Operand(rest[0], vars).vars;
      ParseIsPartition(c, rest[1..], "", vars');
      var p := ParseFrom(c, rest[1..], "", vars');
      if c.mode == Permute {
        OperandInFront(c, rest, p);
      } else {
        PartitionsBehind(c, rest, 1, [Operand(rest[0], vars)], p);
        assert rest[..1] == [rest[0]];
      }
    } else if TwoDashes(rest[0]) {
      var step := LongStep(c, rest[0][2..], Next(rest), Fresh(vars));
      ParseIsPartition(c, rest[step.taken..], "", step.result.vars);
      PartitionsBehind(c, rest, step.taken, [step.result], ParseFrom(c, rest[step.taken..], "", step.result.vars));
    } else {
      ParseIsPartition(c, rest, Group(rest[0]), vars);
      assert ParseFrom(c, rest, "", vars) == ParseFrom(c, rest, Group(rest[0]), vars);
    }
  }

  lemma NothingParsed(c: Config, rest: seq<string>, vars: Vars)
    requires rest == [] || (!IsOption(rest[0]) && c.mode == Stop) || rest[0] == "--"
    ensures Partitions(c, rest, Parse([], [], [], rest, rest != [] && rest[0] == "--", vars))
  {
  }

  /** Where there is a next element and it is not taken, it makes no difference. */
  lemma NextNotTaken(c: Config, suffix: string, arg: string, next: Option<string>, other: Option<string>,
                     vars: Vars)
    requires next.Some?
    ensures suffix != "" && ShortStep(c.optstring, suffix, next, vars).taken == 1 ==>
              ShortStep(c.optstring, suffix, other, vars) == ShortStep(c.optstring, suffix, next, vars)
    ensures LongStep(c, arg, next, vars).taken == 1 ==> LongStep(c, arg, other, vars) == LongStep(c, arg, next, vars)
  {
  }

  /** The next element of the options is the next one of all where that matters. */
  lemma SameNext(c: Config, suffix: string, arg: string, rest: seq<string>, taken: nat, more: seq<string>,
                 vars: Vars)
    requires 1 <= taken <= 2 && taken <= |rest| && (taken == |rest| ==> more == [])
    ensures
      var next, other := Next(rest), Next(rest[..taken] + more);
      && (suffix != "" && ShortStep(c.optstring, suffix, next, vars).taken == taken ==>
            ShortStep(c.optstring, suffix, other, vars) == ShortStep(c.optstring, suffix, next, vars))
      && (LongStep(c, arg, next, vars).taken == taken ==>
            LongStep(c, arg, other, vars) == LongStep(c, arg, next, vars))
  {
    hide ShortStep, LongStep;
    var next, other := Next(rest), Next(rest[..taken] + more);
    if taken == 2 || taken == |rest| {
      assert other == next;
    } else {
      NextNotTaken(c, suffix, arg, next, other, vars);
    }
  }

  lemma GroupIgnoresNext(c: Config, suffix: string, next: Option<string>, other: Option<string>, vars: Vars)
    requires suffix != "" && ShortStep(c.optstring, suffix, next, vars).suffix != ""
    ensures ShortStep(c.optstring, suffix, other, vars) == ShortStep(c.optstring, suffix, next, vars)
  {
  }

  lemma OntoNothing(results: seq<Result>, p: Parse)
    ensures [] + p.options == p.options && [] + p.operands == p.operands
    ensures results == [] ==> results + p.results == p.results
  {
  }

  lemma TakenFront(rest: seq<string>, taken: nat, more: seq<string>)
    requires 1 <= taken <= |rest|
    ensures
      var options := rest[..taken] + more;
      options[0] == rest[0] && options[..taken] == rest[..taken] && options[taken..] == more
  {
  }

  /** The options with their arguments, on a command line of their own, give the same reports: operands
      between them make no difference. */
  lemma {:induction false} OptionsAlone(c: Config, rest: seq<string>, suffix: string, vars: Vars)
    requires suffix != "" ==> rest != []
    ensures
      var p := ParseFrom(c, rest, suffix, vars);
      && (suffix != "" ==> p.options != [] && p.options[0] == rest[0])
      && (rest == [] ==> p.options == [])
      && ParseFrom(c, p.options, suffix, vars) == Parse(p.results, p.options, [], [], false, p.vars.(optarg := None))
    decreases |rest|, if suffix == "" then 1 else 0, |suffix|
  {
    hide ShortStep, LongStep, IsOption, Fresh, Operand;
    var p := ParseFrom(c, rest, suffix, vars);
    if suffix != "" {
      var step := ShortStep(c.optstring, suffix, Next(rest), Fresh(vars));
      if step.suffix != "" {
        OptionsAlone(c, rest, step.suffix, step.result.vars);
        OntoNothing([step.result], ParseFrom(c, rest, step.suffix, step.result.vars));
        GroupIgnoresNext(c, suffix, Next(rest), Next(p.options), Fresh(vars));
      } else {
        var more := ParseFrom(c, rest[step.taken..], "", step.result.vars).options;
        OptionsAlone(c, rest[step.taken..], "", step.result.vars);
        SameNext(c, suffix, "", rest, step.taken, more, Fresh(vars));
        TakenFront(rest, step.taken, more);
      }
    } else if rest == [] {
    } else if !IsOption(rest[0]) {
      match c.mode
      case Permute =>
        OptionsAlone(c, rest[1..], "", vars);
        OntoNothing([], ParseFrom(c, rest[1..], "", vars));
      case Stop =>
      case InOrder =>
        OptionsAlone(c, rest[1..], "", Operand(rest[0], vars).vars);
        TakenFront(rest, 1, ParseFrom(c, rest[1..], "", Operand(rest[0], vars).vars).options);
        assert rest[..1] == [rest[0]];
    } else if rest[0] == "--" {
    } else if TwoDashes(rest[0]) {
      var arg := rest[0][2..];
      var step := LongStep(c, arg, Next(rest), Fresh(vars));
      var more := ParseFrom(c, rest[step.taken..], "", step.result.vars).options;
      OptionsAlone(c, rest[step.taken..], "", step.result.vars);
      SameNext(c, "", arg, rest, step.taken, more, Fresh(vars));
      TakenFront(rest, step.taken, more);
    } else {
      OptionsAlone(c, rest, Group(rest[0]), vars);
      assert p == ParseFrom(c, rest, Group(rest[0]), vars);
      assert ParseFrom(c, p.options, "", vars) == ParseFrom(c, p.options, Group(p.options[0]), vars);
    }
  }
}
