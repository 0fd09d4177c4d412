/**
 Command lines that are written out from what they are to say, and option strings from what options there are.
 What the scanner makes of them is said without any function that it reads by (win32_msvc/getopt.h).
 */
module Rendering {
  import opened Cabinet
  import opened Arguments
  import opened Getopt

  // ----- Options -----

  /** A short option, with one colon if it takes an argument and two if it may. */
  datatype Spec = Spec(c: char, colons: nat)

  /** Whether missing arguments are told from unknown options, the short options, and the long ones. */
  datatype Options = Options(quiet: bool, specs: seq<Spec>, longs: seq<LongOption>)

  function Colons(n: nat): (s: string)
    ensures |s| == n && forall i :: 0 <= i < n ==> s[i] == ':'
  {
    seq(n, _ => ':')
  }

  function Written(specs: seq<Spec>): string {
    if specs == [] then "" else [specs[0].c] + Colons(specs[0].colons) + Written(specs[1..])
  }

  function OptString(o: Options): string {
    (if o.quiet then ":" else "") + Written(o.specs)
  }

  ghost predicate Sensible(o: Options) {
    && (forall k :: 0 <= k < |o.specs| ==> o.specs[k].colons <= 2 && o.specs[k].c != ':' && o.specs[k].c != '-')
    && (forall j, k :: 0 <= j < k < |o.specs| ==> o.specs[j].c != o.specs[k].c)
    && (forall i :: 0 <= i < |o.longs| ==> o.longs[i].name != "" && '=' !in o.longs[i].name)
    && (forall i, j :: 0 <= i < j < |o.longs| ==> o.longs[i].name != o.longs[j].name)
  }

  // ----- Items of a command line -----

  /** How a group of short options ends. Options are named by their number. */
  datatype Tail =
    | Nothing
    | Glued(k: nat, arg: string)
    | Apart(k: nat, arg: string)
    | Omitted(k: nat)
    | Lacking(k: nat)
    | Unknown(c: char)

  datatype Item =
    | Word(text: string)
    | Short(flags: seq<nat>, tail: Tail)
    | Long(i: nat)
    | LongGiven(i: nat, arg: string)
    | LongApart(i: nat, arg: string)
    | LongLacking(i: nat)
    | Strange(text: string)

  function Letters(o: Options, ks: seq<nat>): string
    requires forall j :: 0 <= j < |ks| ==> ks[j] < |o.specs|
  {
    if ks == [] then "" else [o.specs[ks[0]].c] + Letters(o, ks[1..])
  }

  ghost predicate LegalTail(o: Options, tail: Tail) {
    match tail
    case Nothing => true
    case Glued(k, arg) => k < |o.specs| && o.specs[k].colons >= 1 && arg != ""
    case Apart(k, arg) => k < |o.specs| && o.specs[k].colons == 1
    case Omitted(k) => k < |o.specs| && o.specs[k].colons == 2
    case Lacking(k) => k < |o.specs| && o.specs[k].colons == 1
    case Unknown(c) => c != ':' && c != '-' && forall k :: 0 <= k < |o.specs| ==> o.specs[k].c != c
  }

  ghost predicate Legal(o: Options, item: Item) {
    match item
    case Word(text) => |text| <= 1 || text[0] != '-'
    case Short(ks, tail) =>
      && (forall j :: 0 <= j < |ks| ==> ks[j] < |o.specs| && o.specs[ks[j]].colons == 0)
      && LegalTail(o, tail) && (ks != [] || !tail.Nothing?)
    case Long(i) => i < |o.longs| && o.longs[i].hasArgument != RequiredArgument
    case LongGiven(i, _) => i < |o.longs|
    case LongApart(i, _) => i < |o.longs| && o.longs[i].hasArgument == RequiredArgument
    case LongLacking(i) => i < |o.longs| && o.longs[i].hasArgument == RequiredArgument
    case Strange(text) =>
      text != "" && forall i :: 0 <= i < |o.longs| ==> text != o.longs[i].name && !(o.longs[i].name + "=" <= text)
  }

  /** Nothing may follow an option that lacks its argument. */
  predicate Lacks(item: Item) {
    item.LongLacking? || (item.Short? && item.tail.Lacking?)
  }

  /** What the group has behind the letters without arguments. */
  ghost function Ending(o: Options, tail: Tail): string
    requires LegalTail(o, tail)
  {
    match tail
    case Nothing => ""
    case Glued(k, arg) => [o.specs[k].c] + arg
    case Apart(k, _) => [o.specs[k].c]
    case Omitted(k) => [o.specs[k].c]
    case Lacking(k) => [o.specs[k].c]
    case Unknown(c) => [c]
  }

  /** The elements of the command line that an item is written as. */
  ghost function Elements(o: Options, item: Item): seq<string>
    requires Legal(o, item)
  {
    match item
    case Word(text) => [text]
    case Short(ks, tail) => ["-" + Letters(o, ks) + Ending(o, tail)] + (if tail.Apart? then [tail.arg] else [])
    case Long(i) => ["--" + o.longs[i].name]
    case LongGiven(i, arg) => ["--" + o.longs[i].name + "=" + arg]
    case LongApart(i, arg) => ["--" + o.longs[i].name, arg]
    case LongLacking(i) => ["--" + o.longs[i].name]
    case Strange(text) => ["--" + text]
  }

  // ----- What they say -----

  /** A question mark in the variable for errors does not last. */
  function Clear(v: Vars): Vars {
    v.(optopt := if v.optopt == 63 then 0 else v.optopt)
  }

  /** The code of the letter, or the code of a question mark or of a colon for errors. */
  function LetterTold(c: char, arg: Option<string>, v: Vars): Result {
    Result(c as int, Clear(v).(optarg := arg))
  }

  function Refused(o: Options, lacking: bool, about: int, v: Vars): Result {
    Result(if lacking && o.quiet then 58 else 63, Clear(v).(optarg := None, optopt := about))
  }

  function LongTold(o: Options, i: nat, arg: Option<string>, v: Vars): Result
    requires i < |o.longs|
  {
    var opt := o.longs[i];
    match opt.flag
    case None => Result(opt.value, Clear(v).(optarg := arg, longindex := i))
    case Some(target) =>
      Result(0, Clear(v).(optarg := arg, longindex := i, stored := v.stored[target := opt.value]))
  }

  ghost function TailTold(o: Options, tail: Tail, v: Vars): seq<Result>
    requires LegalTail(o, tail)
  {
    match tail
    case Nothing => []
    case Glued(k, arg) => [LetterTold(o.specs[k].c, Some(arg), v)]
    case Apart(k, arg) => [LetterTold(o.specs[k].c, Some(arg), v)]
    case Omitted(k) => [LetterTold(o.specs[k].c, None, v)]
    case Lacking(k) => [Refused(o, true, o.specs[k].c as int, v)]
    case Unknown(c) => [Refused(o, false, c as int, v)]
  }

  ghost function GroupTold(o: Options, ks: seq<nat>, tail: Tail, v: Vars): seq<Result>
    requires LegalTail(o, tail) && forall j :: 0 <= j < |ks| ==> ks[j] < |o.specs|
  {
    if ks == [] then TailTold(o, tail, v)
    else
      var r := LetterTold(o.specs[ks[0]].c, None, v);
      [r] + GroupTold(o, ks[1..], tail, r.vars)
  }

  ghost function Told(o: Options, mode: Mode, item: Item, v: Vars): seq<Result>
    requires Legal(o, item)
  {
    match item
    case Word(text) => if mode == InOrder then [Result(1, Clear(v).(optarg := Some(text)))] else []
    case Short(ks, tail) => GroupTold(o, ks, tail, v)
    case Long(i) => [LongTold(o, i, None, v)]
    case LongGiven(i, arg) =>
      if o.longs[i].hasArgument == NoArgument then [Refused(o, false, o.longs[i].value, v)]
      else [LongTold(o, i, Some(arg), v)]
    case LongApart(i, arg) => [LongTold(o, i, Some(arg), v)]
    case LongLacking(i) => [Refused(o, true, o.longs[i].value, v)]
    case Strange(text) => [Result(63, Clear(v))]
  }

  function LastVars(rs: seq<Result>, v: Vars): Vars {
    if rs == [] then v else rs[|rs| - 1].vars
  }

  // ----- Whole command lines -----

  ghost predicate AllLegal(o: Options, mode: Mode, items: seq<Item>, behind: seq<string>) {
    && (forall k :: 0 <= k < |items| ==> Legal(o, items[k]) && (mode == Stop ==> !items[k].Word?))
    && (forall k :: 0 <= k < |items| && Lacks(items[k]) ==> k == |items| - 1 && behind == [])
    && (behind != [] ==>
          behind[0] == "--" || (mode == Stop && (|behind[0]| <= 1 || behind[0][0] != '-')))
  }

  ghost function Line(o: Options, items: seq<Item>): seq<string>
    requires forall k :: 0 <= k < |items| ==> Legal(o, items[k])
  {
    if items == [] then [] else Elements(o, items[0]) + Line(o, items[1..])
  }

  /** The options with their arguments, and the words too where they are reported in their place. */
  ghost function OptionsOf(o: Options, mode: Mode, items: seq<Item>): seq<string>
    requires forall k :: 0 <= k < |items| ==> Legal(o, items[k])
  {
    if items == [] then []
    else (if items[0].Word? && mode == Permute then [] else Elements(o, items[0])) + OptionsOf(o, mode, items[1..])
  }

  function WordsOf(mode: Mode, items: seq<Item>): seq<string> {
    if items == [] then []
    else (if items[0].Word? && mode == Permute then [items[0].text] else []) + WordsOf(mode, items[1..])
  }

  ghost function AllTold(o: Options, mode: Mode, items: seq<Item>, v: Vars): seq<Result>
    requires forall k :: 0 <= k < |items| ==> Legal(o, items[k])
  {
    if items == [] then []
    else
      var rs := Told(o, mode, items[0], v);
      rs + AllTold(o, mode, items[1..], LastVars(rs, v))
  }

  // ----- Letters in option strings -----

  function Later(r: Option<nat>, n: nat): Option<nat> {
    match r
    case None => None
    case Some(i) => Some(i + n)
  }

  lemma {:induction false} FindBehind(p: string, s: string, c: char)
    requires c !in p
    ensures Find(p + s, c) == Later(Find(s, c), |p|)
  {
    if p == "" {
      assert p + s == s;
    } else {
      FindBehind(p[1..], s, c);
      assert (p + s)[1..] == p[1..] + s;
    }
  }

  lemma Associates(x: string, y: string, z: string)
    ensures x + (y + z) == x + y + z
  {
  }

  lemma {:induction false} WrittenInTwo(a: seq<Spec>, b: seq<Spec>)
    ensures Written(a + b) == Written(a) + Written(b)
  {
    hide Colons;
    if a == [] {
      assert a + b == b;
    } else {
      WrittenInTwo(a[1..], b);
      assert (a + b)[1..] == a[1..] + b;
      Associates([a[0].c] + Colons(a[0].colons), Written(a[1..]), Written(b));
    }
  }

  lemma {:induction false} NotWritten(specs: seq<Spec>, c: char)
    requires c != ':' && forall k :: 0 <= k < |specs| ==> specs[k].c != c
    ensures c !in Written(specs)
  {
    if specs != [] {
      NotWritten(specs[1..], c);
    }
  }

  /** Where an option is in the option string. */
  ghost function At(o: Options, k: nat): nat
    requires k < |o.specs|
  {
    (if o.quiet then 1 else 0) + |Written(o.specs[..k])|
  }

  lemma StringInParts(o: Options, k: nat)
    requires k < |o.specs|
    ensures
      var front := (if o.quiet then ":" else "") + Written(o.specs[..k]);
      && OptString(o) == front + ([o.specs[k].c] + Colons(o.specs[k].colons) + Written(o.specs[k + 1..]))
      && |front| == At(o, k)
  {
    var specs := o.specs;
    assert specs == specs[..k] + specs[k..] && specs[k..][1..] == specs[k + 1..];
    WrittenInTwo(specs[..k], specs[k..]);
  }

  /** The option is found, and the colons behind it are those that were written. */
  lemma OptionFound(o: Options, k: nat)
    requires Sensible(o) && k < |o.specs|
    ensures
      var os, n := OptString(o), o.specs[k].colons;
      && Find(os, o.specs[k].c) == Some(At(o, k))
      && (Colon(os, At(o, k) + 1) <==> n >= 1) && (n >= 1 ==> (Colon(os, At(o, k) + 2) <==> n == 2))
  {
    var c, n, rest := o.specs[k].c, o.specs[k].colons, Written(o.specs[k + 1..]);
    var front := (if o.quiet then ":" else "") + Written(o.specs[..k]);
    StringInParts(o, k);
    NotWritten(o.specs[..k], c);
    FindBehind(front, [c] + Colons(n) + rest, c);
    assert rest != "" ==> rest[0] == o.specs[k + 1].c;
    hide Written, Sensible;
    ColonsThere(front, c, n, rest);
  }

  lemma ColonsThere(front: string, c: char, n: nat, rest: string)
    requires n <= 2 && (rest != "" ==> rest[0] != ':')
    ensures
      var os, i := front + ([c] + Colons(n) + rest), |front|;
      (Colon(os, i + 1) <==> n >= 1) && (n >= 1 ==> (Colon(os, i + 2) <==> n == 2))
  {
  }

  lemma OptionNotFound(o: Options, c: char)
    requires c != ':' && forall k :: 0 <= k < |o.specs| ==> o.specs[k].c != c
    ensures Find(OptString(o), c) == None
  {
    NotWritten(o.specs, c);
    FindBehind(OptString(o), "", c);
    assert OptString(o) + "" == OptString(o);
  }

  lemma QuietIs(o: Options)
    requires Sensible(o)
    ensures Colon(OptString(o), 0) <==> o.quiet
  {
  }

  lemma ClearIsFresh(v: Vars)
    ensures Fresh(v) == Clear(v) && Clear(Clear(v)) == Clear(v)
  {
  }

  // ----- One letter -----

  lemma LetterStep(o: Options, k: nat, more: string, next: Option<string>, v: Vars)
    requires Sensible(o) && k < |o.specs| && o.specs[k].colons == 0
    ensures
      ShortStep(OptString(o), [o.specs[k].c] + more, next, Fresh(v))
      == Step(LetterTold(o.specs[k].c, None, v), more, 1)
  {
    OptionFound(o, k);
    ClearIsFresh(v);
    hide Find, OptString, Sensible, Fresh, Clear, Colon;
    assert ([o.specs[k].c] + more)[1..] == more;
  }

  lemma TailStep(o: Options, tail: Tail, next: Option<string>, v: Vars)
    requires Sensible(o) && LegalTail(o, tail) && !tail.Nothing?
    requires (tail.Apart? ==> next == Some(tail.arg)) && (tail.Lacking? ==> next == None)
    ensures
      ShortStep(OptString(o), Ending(o, tail), next, Fresh(v))
      == Step(TailTold(o, tail, v)[0], "", if tail.Apart? then 2 else 1)
  {
    ClearIsFresh(v);
    QuietIs(o);
    if tail.Unknown? {
      OptionNotFound(o, tail.c);
      hide Find, OptString, Sensible, Fresh, Clear, Colon;
    } else {
      var k := tail.k;
      OptionFound(o, k);
      hide Find, OptString, Sensible, Fresh, Clear, Colon;
      if tail.Glued? {
        assert ([o.specs[k].c] + tail.arg)[1..] == tail.arg;
      }
    }
  }

  // ----- One element, from a letter on -----

  ghost function Extra(tail: Tail): seq<string> {
    if tail.Apart? then [tail.arg] else []
  }

  lemma OntoNothing(r: Result, options: seq<string>, p: Parse)
    ensures Onto([], [], [], p) == p
    ensures Onto([r], [], [], Onto([], options, [], p)) == Onto([r], options, [], p)
  {
  }

  lemma OntoMore(r: Result, rs: seq<Result>, options: seq<string>, p: Parse)
    ensures Onto([r], [], [], Onto(rs, options, [], p)) == Onto([r] + rs, options, [], p)
  {
    assert [r] + (rs + p.results) == [r] + rs + p.results;
    assert [] + (options + p.options) == options + p.options;
    assert [] + ([] + p.operands) == [] + p.operands;
  }

  lemma LettersOnly(o: Options, ks: seq<nat>, tail: Tail)
    requires LegalTail(o, tail) && (forall j :: 0 <= j < |ks| ==> ks[j] < |o.specs|)
    ensures Letters(o, ks) + Ending(o, tail) == "" <==> ks == [] && tail.Nothing?
    ensures ks != [] ==>
      Letters(o, ks) + Ending(o, tail) == [o.specs[ks[0]].c] + (Letters(o, ks[1..]) + Ending(o, tail))
  {
  }

  lemma OnShort(c: Config, all: seq<string>, suffix: string, v: Vars, step: Step)
    requires suffix != "" && all != [] && ShortStep(c.optstring, suffix, Next(all), Fresh(v)) == step
    ensures
      && 1 <= step.taken <= |all|
      && ParseFrom(c, all, suffix, v)
         == if step.suffix != "" then Onto([step.result], [], [], ParseFrom(c, all, step.suffix, step.result.vars))
            else Onto([step.result], all[..step.taken], [], ParseFrom(c, all[step.taken..], "", step.result.vars))
  {
    hide ShortStep, Fresh;
  }

  lemma OnLong(c: Config, all: seq<string>, text: string, v: Vars, step: Step)
    requires all != [] && all[0] == "--" + text && text != ""
    requires LongStep(c, text, Next(all), Fresh(v)) == step
    ensures
      && 1 <= step.taken <= |all|
      && ParseFrom(c, all, "", v)
         == Onto([step.result], all[..step.taken], [], ParseFrom(c, all[step.taken..], "", step.result.vars))
  {
    hide LongStep, Fresh;
    assert all[0][2..] == text;
  }

  lemma OnGroup(c: Config, all: seq<string>, suffix: string, v: Vars)
    requires all != [] && suffix != "" && suffix[0] != '-' && all[0] == "-" + suffix
    ensures ParseFrom(c, all, "", v) == ParseFrom(c, all, suffix, v)
  {
    hide ShortStep, LongStep, Fresh;
    assert all[0][1..] == suffix;
  }

  lemma NoLetters(o: Options)
    ensures Letters(o, []) == "" && forall s: string :: "" + s == s
  {
  }

  lemma OneTold(o: Options, tail: Tail, v: Vars)
    requires LegalTail(o, tail) && !tail.Nothing?
    ensures |TailTold(o, tail, v)| == 1
  {
  }

  lemma ElementParts(e: string, extra: seq<string>, rest: seq<string>, n: nat)
    requires n == 1 + |extra|
    ensures
      var all := [e] + extra + rest;
      all[0] == e && all[..n] == [e] + extra && all[n..] == rest
  {
  }

  /** The end of a group that is more than letters without arguments. */
  lemma TailParsed(o: Options, mode: Mode, e: string, tail: Tail, rest: seq<string>, v: Vars)
    requires Sensible(o) && LegalTail(o, tail) && !tail.Nothing? && (tail.Lacking? ==> rest == [])
    ensures
      var c, told := Config(OptString(o), o.longs, mode), TailTold(o, tail, v);
      && |told| == 1
      && ParseFrom(c, [e] + Extra(tail) + rest, Ending(o, tail), v)
         == Onto(told, [e] + Extra(tail), [], ParseFrom(c, rest, "", told[0].vars))
  {
    var c, all := Config(OptString(o), o.longs, mode), [e] + Extra(tail) + rest;
    NoLetters(o);
    LettersOnly(o, [], tail);
    hide ShortStep, OptString, Sensible, Fresh, LegalTail, ParseFrom, TailTold, Ending, Onto;
    TailStep(o, tail, Next(all), v);
    OneTold(o, tail, v);
    var n := if tail.Apart? then 2 else 1;
    OnShort(c, all, Ending(o, tail), v, Step(TailTold(o, tail, v)[0], "", n));
    ElementParts(e, Extra(tail), rest, n);
  }

  /** A letter behind which the element ends. */
  lemma LastLetterParsed(o: Options, mode: Mode, e: string, k: nat, rest: seq<string>, v: Vars)
    requires Sensible(o) && k < |o.specs| && o.specs[k].colons == 0
    ensures
      var c, r := Config(OptString(o), o.longs, mode), LetterTold(o.specs[k].c, None, v);
      ParseFrom(c, [e] + [] + rest, [o.specs[k].c], v) == Onto([r], [e] + [], [], ParseFrom(c, rest, "", r.vars))
  {
    var c, all := Config(OptString(o), o.longs, mode), [e] + [] + rest;
    hide ShortStep, OptString, Sensible, Fresh, LetterTold, ParseFrom, Onto;
    assert [o.specs[k].c] + "" == [o.specs[k].c];
    LetterStep(o, k, "", Next(all), v);
    OnShort(c, all, [o.specs[k].c], v, Step(LetterTold(o.specs[k].c, None, v), "", 1));
    ElementParts(e, [], rest, 1);
  }

  /** A letter behind which the element goes on. */
  lemma LetterParsed(o: Options, mode: Mode, all: seq<string>, k: nat, more: string, v: Vars)
    requires Sensible(o) && k < |o.specs| && o.specs[k].colons == 0 && more != "" && all != []
    ensures
      var c, r := Config(OptString(o), o.longs, mode), LetterTold(o.specs[k].c, None, v);
      ParseFrom(c, all, [o.specs[k].c] + more, v) == Onto([r], [], [], ParseFrom(c, all, more, r.vars))
  {
    hide ShortStep, OptString, Sensible, Fresh, LetterTold, ParseFrom, Onto;
    LetterStep(o, k, more, Next(all), v);
    OnShort(Config(OptString(o), o.longs, mode), all, [o.specs[k].c] + more, v,
            Step(LetterTold(o.specs[k].c, None, v), more, 1));
  }

  lemma {:induction false} GroupParsed(o: Options, mode: Mode, e: string, ks: seq<nat>, tail: Tail, rest: seq<string>,
                                       v: Vars)
    requires Sensible(o) && LegalTail(o, tail) && (ks != [] || !tail.Nothing?)
    requires forall j :: 0 <= j < |ks| ==> ks[j] < |o.specs| && o.specs[ks[j]].colons == 0
    requires tail.Lacking? ==> rest == []
    ensures
      var c, told := Config(OptString(o), o.longs, mode), GroupTold(o, ks, tail, v);
      && told != []
      && ParseFrom(c, [e] + Extra(tail) + rest, Letters(o, ks) + Ending(o, tail), v)
         == Onto(told, [e] + Extra(tail), [], ParseFrom(c, rest, "", LastVars(told, v)))
    decreases |ks|
  {
    hide OptString, Sensible, LegalTail, ParseFrom, TailTold, Letters, Ending, LetterTold, Onto;
    LettersOnly(o, ks, tail);
    if ks == [] {
      NoLetters(o);
      TailParsed(o, mode, e, tail, rest, v);
    } else {
      var r := LetterTold(o.specs[ks[0]].c, None, v);
      LettersOnly(o, ks[1..], tail);
      if ks[1..] == [] && tail.Nothing? {
        LastLetterParsed(o, mode, e, ks[0], rest, v);
        NothingTold(o, r.vars);
        assert ks[1..] == [] && tail == Nothing && [r] + [] == [r];
        assert GroupTold(o, ks, tail, v) == [r] && Extra(tail) == [];
        assert [o.specs[ks[0]].c] + (Letters(o, ks[1..]) + Ending(o, tail)) == [o.specs[ks[0]].c];
      } else {
        var all, told := [e] + Extra(tail) + rest, GroupTold(o, ks[1..], tail, r.vars);
        GroupParsed(o, mode, e, ks[1..], tail, rest, r.vars);
        LetterParsed(o, mode, all, ks[0], Letters(o, ks[1..]) + Ending(o, tail), v);
        OntoMore(r, told, [e] + Extra(tail),
                 ParseFrom(Config(OptString(o), o.longs, mode), rest, "", LastVars(told, r.vars)));
      }
    }
  }

  lemma NothingTold(o: Options, v: Vars)
    ensures GroupTold(o, [], Nothing, v) == []
  {
  }

  // ----- Long options -----

  /** The name, alone or before an equals sign, spells no other option. */
  lemma SpelledOnly(o: Options, i: nat, text: string)
    requires Sensible(o) && i < |o.longs| && (text == o.longs[i].name || o.longs[i].name + "=" <= text)
    ensures FirstSpelled(o.longs, text) == Some(i)
  {
    assert Spells(o.longs[i], text);
    forall j | 0 <= j < |o.longs| && j != i
      ensures !Spells(o.longs[j], text)
    {
      SpellsOne(o.longs[i].name, o.longs[j], text);
    }
    hide Spells;
  }

  lemma SpellsOne(name: string, other: LongOption, text: string)
    requires '=' !in name && '=' !in other.name && name != other.name
    requires text == name || name + "=" <= text
    ensures !Spells(other, text)
  {
    SpellsMeans(other, text);
    InFront(name, text);
    InFront(other.name, text);
    hide Spells;
    assert |other.name| < |name| ==> text[|other.name|] == name[|other.name|];
    if |name| < |other.name| {
      PrefixAt(other.name, text, |name|);
    }
    assert |name| == |other.name| && other.name <= text ==> name == other.name;
  }

  lemma PrefixAt(s: string, t: string, i: nat)
    requires i < |s|
    ensures s <= t ==> i < |t| && t[i] == s[i]
  {
  }

  lemma InFront(name: string, text: string)
    ensures name + "=" <= text ==> name <= text && |text| > |name| && text[|name|] == '='
  {
    if name + "=" <= text {
      assert (name + "=")[|name|] == '=';
    }
  }

  /** A long option is spelled by its name, alone or with an equals sign behind it. */
  lemma SpellsMeans(opt: LongOption, text: string)
    ensures Spells(opt, text) <==> text == opt.name || opt.name + "=" <= text
  {
    InFront(opt.name, text);
    if opt.name <= text && |text| > |opt.name| {
      assert text[..|opt.name| + 1] == opt.name + [text[|opt.name|]];
    }
  }

  lemma NotSpelled(o: Options, text: string)
    requires forall i :: 0 <= i < |o.longs| ==> text != o.longs[i].name && !(o.longs[i].name + "=" <= text)
    ensures FirstSpelled(o.longs, text) == None
  {
    forall i | 0 <= i < |o.longs|
      ensures !Spells(o.longs[i], text)
    {
      SpellsMeans(o.longs[i], text);
    }
    hide Spells;
  }

  lemma LongFound(o: Options, i: nat, arg: Option<string>, v: Vars)
    requires i < |o.longs|
    ensures FoundLong(o.longs[i], i, arg, Fresh(v)) == LongTold(o, i, arg, v)
  {
    ClearIsFresh(v);
    hide Fresh;
  }

  /** What is written behind the dashes of a long option. */
  ghost function LongText(o: Options, item: Item): string
    requires Legal(o, item) && !item.Word? && !item.Short?
  {
    match item
    case Long(i) => o.longs[i].name
    case LongGiven(i, arg) => o.longs[i].name + "=" + arg
    case LongApart(i, _) => o.longs[i].name
    case LongLacking(i) => o.longs[i].name
    case Strange(text) => text
  }

  lemma LongParts(o: Options, item: Item)
    requires Sensible(o) && Legal(o, item) && !item.Word? && !item.Short?
    ensures
      var e := Elements(o, item)[0];
      e == "--" + LongText(o, item) && |e| > 2 && e[2..] == LongText(o, item)
    ensures Elements(o, item)[1..] == if item.LongApart? then [item.arg] else []
  {
    if item.LongGiven? {
      assert "--" + o.longs[item.i].name + "=" + item.arg == "--" + (o.longs[item.i].name + "=" + item.arg);
    }
  }

  lemma LongItemStep(o: Options, mode: Mode, item: Item, next: Option<string>, v: Vars)
    requires Sensible(o) && Legal(o, item) && !item.Word? && !item.Short?
    requires (item.LongApart? ==> next == Some(item.arg)) && (item.LongLacking? ==> next == None)
    ensures
      var c := Config(OptString(o), o.longs, mode);
      LongStep(c, LongText(o, item), next, Fresh(v))
      == Step(Told(o, mode, item, v)[0], "", if item.LongApart? then 2 else 1)
  {
    ClearIsFresh(v);
    QuietIs(o);
    if item.Strange? {
      NotSpelled(o, item.text);
      hide FirstSpelled, OptString, Sensible, Fresh, Clear, Colon;
    } else {
      var name := o.longs[item.i].name;
      if item.LongGiven? {
        GivenParts(name, item.arg);
        LongFound(o, item.i, Some(item.arg), v);
      } else if item.LongApart? {
        LongFound(o, item.i, Some(item.arg), v);
      } else {
        LongFound(o, item.i, None, v);
      }
      SpelledOnly(o, item.i, LongText(o, item));
      hide FirstSpelled, OptString, Sensible, Fresh, Clear, Colon, FoundLong, LongTold;
    }
  }

  lemma GivenParts(name: string, arg: string)
    ensures
      var text := name + "=" + arg;
      name + "=" <= text && |text| > |name| && text[|name| + 1..] == arg
  {
  }

  // ----- One item -----

  lemma LongParsed(o: Options, mode: Mode, item: Item, rest: seq<string>, v: Vars)
    requires Sensible(o) && Legal(o, item) && !item.Word? && !item.Short? && (item.LongLacking? ==> rest == [])
    ensures
      var c, told := Config(OptString(o), o.longs, mode), Told(o, mode, item, v);
      ParseFrom(c, Elements(o, item) + rest, "", v)
      == Onto(told, Elements(o, item), [], ParseFrom(c, rest, "", LastVars(told, v)))
  {
    var all := Elements(o, item) + rest;
    LongParts(o, item);
    LongItemStep(o, mode, item, Next(all), v);
    hide LongStep, OptString, Sensible, Fresh, Clear, Legal, LongTold, Refused, ParseFrom, LongText, Elements;
    var n := |Elements(o, item)|;
    OnLong(Config(OptString(o), o.longs, mode), all, LongText(o, item), v,
           Step(Told(o, mode, item, v)[0], "", if item.LongApart? then 2 else 1));
    assert all[..n] == Elements(o, item) && all[n..] == rest && all[0] == Elements(o, item)[0];
    assert Elements(o, item) == [all[0]] + Elements(o, item)[1..];
  }

  lemma ShortParsed(o: Options, mode: Mode, item: Item, rest: seq<string>, v: Vars)
    requires Sensible(o) && Legal(o, item) && item.Short? && (item.tail.Lacking? ==> rest == [])
    ensures
      var c, told := Config(OptString(o), o.longs, mode), Told(o, mode, item, v);
      ParseFrom(c, Elements(o, item) + rest, "", v)
      == Onto(told, Elements(o, item), [], ParseFrom(c, rest, "", LastVars(told, v)))
  {
    var e := "-" + Letters(o, item.flags) + Ending(o, item.tail);
    var suffix := Letters(o, item.flags) + Ending(o, item.tail);
    LettersOnly(o, item.flags, item.tail);
    LetterNoDash(o, item);
    GroupParsed(o, mode, e, item.flags, item.tail, rest, v);
    assert e == "-" + suffix;
    assert Elements(o, item) == [e] + Extra(item.tail);
    hide OptString, Sensible, Legal, LegalTail, Letters, Ending, GroupTold, ParseFrom, Elements;
    OnGroup(Config(OptString(o), o.longs, mode), [e] + Extra(item.tail) + rest, suffix, v);
  }

  lemma LetterNoDash(o: Options, item: Item)
    requires Sensible(o) && Legal(o, item) && item.Short?
    ensures
      var suffix := Letters(o, item.flags) + Ending(o, item.tail);
      suffix != "" && suffix[0] != '-'
  {
    LettersOnly(o, item.flags, item.tail);
    hide Letters;
  }

  lemma WordParsed(o: Options, mode: Mode, item: Item, rest: seq<string>, v: Vars)
    requires Legal(o, item) && item.Word? && mode != Stop
    ensures
      var c, told := Config(OptString(o), o.longs, mode), Told(o, mode, item, v);
      ParseFrom(c, Elements(o, item) + rest, "", v)
      == Onto(told, if mode == Permute then [] else Elements(o, item), if mode == Permute then [item.text] else [],
              ParseFrom(c, rest, "", LastVars(told, v)))
  {
    ClearIsFresh(v);
    hide OptString, Fresh, Clear;
    var all := Elements(o, item) + rest;
    assert all[0] == item.text && all[1..] == rest;
  }

  lemma ItemParsed(o: Options, mode: Mode, item: Item, rest: seq<string>, v: Vars)
    requires Sensible(o) && Legal(o, item) && (Lacks(item) ==> rest == []) && (mode == Stop ==> !item.Word?)
    ensures
      var c, told := Config(OptString(o), o.longs, mode), Told(o, mode, item, v);
      var moved := item.Word? && mode == Permute;
      ParseFrom(c, Elements(o, item) + rest, "", v)
      == Onto(told, if moved then [] else Elements(o, item), if moved then [item.text] else [],
              ParseFrom(c, rest, "", LastVars(told, v)))
  {
    hide ParseFrom, Told, Elements, OptString, Sensible, Legal, LastVars;
    if item.Word? {
      WordParsed(o, mode, item, rest, v);
    } else if item.Short? {
      ShortParsed(o, mode, item, rest, v);
    } else {
      LongParsed(o, mode, item, rest, v);
    }
  }

  // ----- Whole command lines -----

  lemma BehindParsed(c: Config, behind: seq<string>, v: Vars)
    requires
      behind != [] ==> behind[0] == "--" || (c.mode == Stop && (|behind[0]| <= 1 || behind[0][0] != '-'))
    ensures
      var p := ParseFrom(c, behind, "", v);
      && p.results == [] && p.options == [] && p.operands == [] && p.behind == behind
      && (p.dashes <==> behind != [] && behind[0] == "--")
  {
  }

  lemma LegalRest(o: Options, mode: Mode, items: seq<Item>, behind: seq<string>)
    requires items != [] && AllLegal(o, mode, items, behind)
    ensures AllLegal(o, mode, items[1..], behind) && Legal(o, items[0]) && (mode == Stop ==> !items[0].Word?)
    ensures Lacks(items[0]) ==> items[1..] == [] && behind == []
  {
    hide Legal, Lacks;
    var rest := items[1..];
    assert forall k :: 0 <= k < |rest| ==> rest[k] == items[k + 1];
  }

  /** A command line that is written out says what it was written from: the options are reported in order, each
      with its argument, words are put aside or reported in their place, and what is behind the dashes, or
      behind the first word where options end there, is not looked at. */
  lemma {:induction false} LineParsed(o: Options, mode: Mode, items: seq<Item>, behind: seq<string>, v: Vars)
    requires Sensible(o) && AllLegal(o, mode, items, behind)
    ensures
      var p := ParseFrom(Config(OptString(o), o.longs, mode), Line(o, items) + behind, "", v);
      && p.results == AllTold(o, mode, items, v)
      && p.options == OptionsOf(o, mode, items) && p.operands == WordsOf(mode, items)
      && p.behind == behind && (p.dashes <==> behind != [] && behind[0] == "--")
    decreases |items|
  {
    hide ParseFrom, Told, Elements, OptString, Sensible, Legal, LastVars;
    if items == [] {
      assert Line(o, items) + behind == behind;
      BehindParsed(Config(OptString(o), o.longs, mode), behind, v);
    } else {
      var item, rest := items[0], Line(o, items[1..]) + behind;
      LegalRest(o, mode, items, behind);
      assert Line(o, items) + behind == Elements(o, item) + rest;
      if Lacks(item) {
        assert rest == [];
      }
      ItemParsed(o, mode, item, rest, v);
      LineParsed(o, mode, items[1..], behind, LastVars(Told(o, mode, item, v), v));
    }
  }

  /** What the sign in front of the option string and the environment ask for. */
  function ModeFor(sign: string, posixlyCorrect: bool): Mode {
    if sign == "-" then InOrder else if sign == "+" || posixlyCorrect then Stop else Permute
  }

  lemma ConfiguredFor(o: Options, sign: string, posixlyCorrect: bool)
    requires Sensible(o) && (sign == "" || sign == "+" || sign == "-")
    requires sign == "" && OptString(o) != "" ==> OptString(o)[0] != '+'
    ensures Configured(sign + OptString(o), o.longs, posixlyCorrect)
         == Config(OptString(o), o.longs, ModeFor(sign, posixlyCorrect))
  {
    NoMinus(o);
    hide OptString, Sensible;
    if sign == "" {
      assert sign + OptString(o) == OptString(o);
    } else {
      assert (sign + OptString(o))[1..] == OptString(o);
    }
  }

  lemma NoMinus(o: Options)
    requires Sensible(o)
    ensures OptString(o) != "" ==> OptString(o)[0] != '-'
  {
  }

  /** A whole run over a command line that is written out: it reports what the items say, and leaves the options
      in front, the words behind them unless they stay in place, and then what it has not looked at. */
  method HandleLine(argv: array<string>, sign: string, o: Options, posixlyCorrect: bool, ghost items: seq<Item>,
                    ghost behind: seq<string>)
    returns (results: seq<Result>, optind: int)
    requires argv.Length > 0 && Sensible(o) && (sign == "" || sign == "+" || sign == "-")
    requires sign == "" && OptString(o) != "" ==> OptString(o)[0] != '+'
    requires forall i :: 0 <= i < |o.longs| ==> o.longs[i].flag.Some? || o.longs[i].value != -1
    requires AllLegal(o, ModeFor(sign, posixlyCorrect), items, behind) && argv[1..] == Line(o, items) + behind
    modifies argv
    ensures
      var mode := ModeFor(sign, posixlyCorrect);
      var options, words := OptionsOf(o, mode, items), WordsOf(mode, items);
      && results == AllTold(o, mode, items, Vars(None, 63, 0, map[]))
      && argv[..] == [old(argv[0])] + options + words + behind
      && optind == 1 + |options| + (if behind != [] && behind[0] == "--" then |words| + 1 else 0)
  {
    hide Line, AllLegal, Sensible, OptString, OptionsOf, AllTold, ParseFrom;
    ConfiguredFor(o, sign, posixlyCorrect);
    LineParsed(o, ModeFor(sign, posixlyCorrect), items, behind, Vars(None, 63, 0, map[]));
    hide Configured, SignOf;
    results, optind := HandleParameters(argv, sign + OptString(o), o.longs, posixlyCorrect);
  }
}
