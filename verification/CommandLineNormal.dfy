/** What parsing makes of an argument vector, and when parsing its own result again
    changes nothing. */
module CommandLineNormal {
  import opened Common
  import opened CommandLineSpec
  import opened CommandLineAgree

  /** The element an argument becomes when it is parsed as a switch. */
  function SwitchElement(p: Platform, arg: string): string {
    Element(p, SwitchString(arg), SwitchValue(arg))
  }

  predicate ParsedAsSwitch(p: Platform, arg: string, switchesOn: bool) {
    switchesOn && Trim(p, arg) != TERMINATOR && IsSwitch(p, Trim(p, arg))
  }

  /** The elements parsed as switches, in order. */
  function Switches(p: Platform, args: seq<string>, switchesOn: bool): seq<string>
    decreases |args|
  {
    if args == [] then []
    else
      var on := switchesOn && Trim(p, args[0]) != TERMINATOR;
      (if ParsedAsSwitch(p, args[0], switchesOn) then [SwitchElement(p, Trim(p, args[0]))] else [])
      + Switches(p, args[1..], on)
  }

  /** The elements parsed as arguments, trimmed, in order; the terminator is one of them. */
  function Plain(p: Platform, args: seq<string>, switchesOn: bool): seq<string>
    decreases |args|
  {
    if args == [] then []
    else
      var on := switchesOn && Trim(p, args[0]) != TERMINATOR;
      (if ParsedAsSwitch(p, args[0], switchesOn) then [] else [Trim(p, args[0])])
      + Plain(p, args[1..], on)
  }

  /** The last value given to each key. */
  function Values(p: Platform, m: map<string, string>, args: seq<string>, switchesOn: bool): map<string, string>
    decreases |args|
  {
    if args == [] then m
    else
      var arg := Trim(p, args[0]);
      var on := switchesOn && arg != TERMINATOR;
      Values(p, if ParsedAsSwitch(p, args[0], switchesOn)
                then m[KeyOf(p, Normalize(p, SwitchString(arg))) := SwitchValue(arg)] else m,
             args[1..], on)
  }

  lemma InsertAtDivider<T>(head: seq<T>, sw: seq<T>, tail: seq<T>, pl: seq<T>, x: T)
    ensures (head + [x]) + sw + tail + pl == head + ([x] + sw) + tail + ([] + pl)
    ensures head + sw + (tail + [x]) + pl == head + ([] + sw) + tail + ([x] + pl)
    ensures (head + [x] + tail)[..|head| + 1] == head + [x] && (head + [x] + tail)[|head| + 1..] == tail
    ensures (head + tail + [x])[..|head|] == head && (head + tail + [x])[|head|..] == tail + [x]
  {
  }

  /** Parsing puts the switches at the divider and the arguments at the end. */
  lemma {:induction false} ParseShape(p: Platform, l: Line, args: seq<string>, on: bool)
    requires l.begin <= |l.argv|
    ensures ParseInto(p, l, args, on) ==
            Line(l.argv[..l.begin] + Switches(p, args, on) + l.argv[l.begin..] + Plain(p, args, on),
                 Values(p, l.switches, args, on),
                 l.begin + |Switches(p, args, on)|)
    decreases |args|
  {
    hide Trim, IsSwitch, Element, Normalize, KeyOf, SwitchString, SwitchValue;
    var head, tail := l.argv[..l.begin], l.argv[l.begin..];
    assert l.argv == head + tail;
    if args == [] {
      assert head + [] + tail + [] == l.argv;
    } else {
      var arg := Trim(p, args[0]);
      var on' := on && arg != TERMINATOR;
      var sw, pl := Switches(p, args[1..], on'), Plain(p, args[1..], on');
      if ParsedAsSwitch(p, args[0], on) {
        InsertAtDivider(head, sw, tail, pl, SwitchElement(p, arg));
        ParseShape(p, AppendSwitch(p, l, SwitchString(arg), SwitchValue(arg)), args[1..], on');
      } else {
        InsertAtDivider(head, sw, tail, pl, arg);
        ParseShape(p, AppendArg(l, arg), args[1..], on');
      }
    }
  }

  lemma {:induction false} InitShape(p: Platform, argv: seq<string>)
    ensures InitFromArgv(p, argv) ==
            Line([Trim(p, if argv == [] then "" else argv[0])] + Switches(p, Tail(argv), true) + Plain(p, Tail(argv), true),
                 Values(p, map[], Tail(argv), true),
                 1 + |Switches(p, Tail(argv), true)|)
  {
    var program := Trim(p, if argv == [] then "" else argv[0]);
    var l := SetProgram(p, EMPTY, if argv == [] then "" else argv[0]);
    assert l.argv == [program];
    ParseShape(p, l, Tail(argv), true);
    assert l.argv[..1] == [program] && l.argv[1..] == [];
    var sw := Switches(p, Tail(argv), true);
    assert [program] + sw + [] == [program] + sw;
  }

  /** AppendArguments, program or not: the switches of the other line follow those of this
      one, its arguments follow the arguments, and its values win. */
  lemma {:induction false} AppendArgumentsShape(p: Platform, l: Line, other: seq<string>, includeProgram: bool)
    requires Divided(l) && |other| > 0
    ensures var r := AppendArguments(p, l, other, includeProgram);
      && r.argv[0] == (if includeProgram then Trim(p, other[0]) else l.argv[0])
      && r.argv[1..r.begin] == l.argv[1..l.begin] + Switches(p, other[1..], true)
      && r.argv[r.begin..] == l.argv[l.begin..] + Plain(p, other[1..], true)
      && r.switches == Values(p, l.switches, other[1..], true)
  {
    hide Trim, Switches, Plain, Values, ParseInto;
    var start := if includeProgram then SetProgram(p, l, other[0]) else l;
    ParseShape(p, start, Tail(other), true);
    var sw := Switches(p, other[1..], true);
    assert start.argv[..start.begin] + sw == [start.argv[0]] + (l.argv[1..l.begin] + sw);
    assert start.argv[start.begin..] == l.argv[l.begin..];
  }

  // ----------------------------------------------------------------- GetArgs

  /** The position of the first argument that trims to "--", or the length. */
  function TerminatorAt(p: Platform, args: seq<string>): (n: nat)
    ensures n <= |args|
  {
    if args == [] || Trim(p, args[0]) == "--" then 0 else 1 + TerminatorAt(p, args[1..])
  }

  function TrimAll(p: Platform, args: seq<string>): seq<string> {
    if args == [] then [] else [Trim(p, args[0])] + TrimAll(p, args[1..])
  }

  function NonSwitches(p: Platform, args: seq<string>): seq<string> {
    if args == [] then []
    else (if IsSwitch(p, args[0]) then [] else [args[0]]) + NonSwitches(p, args[1..])
  }

  lemma {:induction false} PlainWhenOff(p: Platform, args: seq<string>)
    ensures Plain(p, args, false) == TrimAll(p, args) && Switches(p, args, false) == []
  {
    hide Trim;
    if args != [] {
      PlainWhenOff(p, args[1..]);
      assert [] + Switches(p, args[1..], false) == [];
    }
  }

  lemma {:induction false} PlainAroundTerminator(p: Platform, args: seq<string>)
    ensures var t := TerminatorAt(p, args);
            && TERMINATOR !in NonSwitches(p, TrimAll(p, args[..t]))
            && Plain(p, args, true) ==
                 NonSwitches(p, TrimAll(p, args[..t])) +
                 if t == |args| then [] else [TERMINATOR] + TrimAll(p, args[t + 1..])
    decreases |args|
  {
    hide Trim, IsSwitch, NonSwitches, TrimAll;
    var t := TerminatorAt(p, args);
    if args == [] {
      TrimAllNone(p);
    } else if t == 0 {
      PlainWhenOff(p, args[1..]);
      assert args[..0] == [];
      TrimAllNone(p);
      assert [] + ([TERMINATOR] + TrimAll(p, args[1..])) == [TERMINATOR] + TrimAll(p, args[1..]);
    } else {
      PlainAroundTerminator(p, args[1..]);
      var arg := Trim(p, args[0]);
      assert args[..t] == [args[0]] + args[1..][..t - 1];
      TrimAllCons(p, args[0], args[1..][..t - 1]);
      assert t < |args| ==> args[t + 1..] == args[1..][t..];
      var before := NonSwitches(p, TrimAll(p, args[1..][..t - 1]));
      var rest := if t == |args| then [] else [TERMINATOR] + TrimAll(p, args[t + 1..]);
      var first := if IsSwitch(p, arg) then [] else [arg];
      assert Plain(p, args, true) == first + Plain(p, args[1..], true);
      assert Plain(p, args[1..], true) == before + rest;
      assert first + (before + rest) == (first + before) + rest;
    }
  }

  lemma TrimAllNone(p: Platform)
    ensures TrimAll(p, []) == [] && NonSwitches(p, TrimAll(p, [])) == []
  {
  }

  lemma TrimAllCons(p: Platform, x: string, args: seq<string>)
    ensures TrimAll(p, [x] + args) == [Trim(p, x)] + TrimAll(p, args)
    ensures NonSwitches(p, TrimAll(p, [x] + args)) ==
            (if IsSwitch(p, Trim(p, x)) then [] else [Trim(p, x)]) + NonSwitches(p, TrimAll(p, args))
  {
    hide Trim, IsSwitch;
    assert ([x] + args)[1..] == args;
    assert ([Trim(p, x)] + TrimAll(p, args))[1..] == TrimAll(p, args);
  }

  lemma {:induction false} WithoutFirstAround(a: seq<string>, x: string, b: seq<string>)
    requires x !in a
    ensures WithoutFirst(a + [x] + b, x) == a + b
    ensures WithoutFirst(a, x) == a
  {
    if a == [] {
      assert a + [x] + b == [x] + b && a + b == b;
    } else {
      WithoutFirstAround(a[1..], x, b);
      assert (a + [x] + b)[1..] == a[1..] + [x] + b;
      assert a + b == [a[0]] + (a[1..] + b);
    }
  }

  /** For every vector: GetArgs() after parsing is the trimmed non-switches before the
      first terminator followed by everything, trimmed, after it. */
  lemma {:induction false} GetArgsAfterParse(p: Platform, argv: seq<string>)
    ensures var args := Tail(argv);
            var t := TerminatorAt(p, args);
            GetArgs(InitFromArgv(p, argv)) ==
              NonSwitches(p, TrimAll(p, args[..t])) + if t == |args| then [] else TrimAll(p, args[t + 1..])
  {
    hide Trim, IsSwitch, Element, IsTrimmed, Normalize, KeyOf, SwitchString, SwitchValue;
    var args := Tail(argv);
    var t := TerminatorAt(p, args);
    var r := InitFromArgv(p, argv);
    InitShape(p, argv);
    PlainAroundTerminator(p, args);
    assert r.argv[r.begin..] == Plain(p, args, true);
    var a := NonSwitches(p, TrimAll(p, args[..t]));
    var b := if t == |args| then [] else TrimAll(p, args[t + 1..]);
    WithoutFirstAround(a, TERMINATOR, b);
    if t < |args| {
      assert a + ([TERMINATOR] + b) == a + [TERMINATOR] + b;
    } else {
      assert a + [] == a;
    }
  }

  // ---------------------------------------------------------- the terminator

  ghost predicate NoTerminator(p: Platform, args: seq<string>) {
    forall i :: 0 <= i < |args| ==> Trim(p, args[i]) != "--"
  }

  /** The first argument that trims to "--" is the one at `t`. */
  ghost predicate FirstTerminator(p: Platform, args: seq<string>, t: nat) {
    t < |args| && Trim(p, args[t]) == "--" && NoTerminator(p, args[..t])
  }

  lemma {:induction false} ParseOff(p: Platform, l: Line, args: seq<string>)
    requires l.begin <= |l.argv|
    ensures ParseInto(p, l, args, false) == l.(argv := l.argv + TrimAll(p, args))
    decreases |args|
  {
    hide Trim, IsSwitch;
    if args == [] {
      assert l.argv + [] == l.argv;
    } else {
      var arg := Trim(p, args[0]);
      ParseOff(p, AppendArg(l, arg), args[1..]);
      assert l.argv + [arg] + TrimAll(p, args[1..]) == l.argv + ([arg] + TrimAll(p, args[1..]));
    }
  }

  /** Whatever the line held: the elements before the first "--" are parsed as if they were
      all, and from it on everything is appended, trimmed, as arguments. */
  lemma {:induction false} ParseAfterTerminator(p: Platform, l: Line, args: seq<string>, t: nat)
    requires l.begin <= |l.argv| && FirstTerminator(p, args, t)
    ensures var b := ParseInto(p, l, args[..t], true);
      ParseInto(p, l, args, true) == b.(argv := b.argv + ["--"] + TrimAll(p, args[t + 1..]))
    decreases |args|
  {
    hide Trim, IsSwitch, AppendSwitch, SwitchString, SwitchValue, TrimAll;
    var arg := Trim(p, args[0]);
    if t == 0 {
      assert args[..0] == [];
      ParseOff(p, AppendArg(l, arg), args[1..]);
    } else {
      assert arg != "--" by { assert args[..t][0] == args[0]; }
      var rest := args[1..];
      assert args[..t][1..] == rest[..t - 1] && args[t + 1..] == rest[t..];
      NoTerminatorAfter(p, args[..t]);
      if IsSwitch(p, arg) {
        StaysDivided(p, l, arg);
        ParseAfterTerminator(p, AppendSwitch(p, l, SwitchString(arg), SwitchValue(arg)), rest, t - 1);
      } else {
        ParseAfterTerminator(p, AppendArg(l, arg), rest, t - 1);
      }
    }
  }

  lemma NoTerminatorAfter(p: Platform, args: seq<string>)
    requires NoTerminator(p, args) && args != []
    ensures NoTerminator(p, args[1..])
  {
    var rest := args[1..];
    forall i | 0 <= i < |rest| ensures Trim(p, rest[i]) != "--" {
      assert rest[i] == args[i + 1];
    }
  }

  lemma StaysDivided(p: Platform, l: Line, arg: string)
    requires l.begin <= |l.argv|
    ensures var r := AppendSwitch(p, l, SwitchString(arg), SwitchValue(arg)); r.begin <= |r.argv|
  {
  }

  lemma {:induction false} PlainWithoutTerminator(p: Platform, args: seq<string>)
    requires NoTerminator(p, args)
    ensures Plain(p, args, true) == NonSwitches(p, TrimAll(p, args)) && "--" !in Plain(p, args, true)
  {
    hide Trim, IsSwitch, NonSwitches, TrimAll;
    if args == [] {
      TrimAllNone(p);
    } else {
      PlainWithoutTerminator(p, args[1..]);
      TrimAllCons(p, args[0], args[1..]);
      assert args == [args[0]] + args[1..];
    }
  }

  /** Without a "--" the arguments are the non-switches, trimmed, and GetArgs() gives all of
      them. */
  lemma {:induction false} NoTerminatorArgs(p: Platform, argv: seq<string>)
    requires NoTerminator(p, Tail(argv))
    ensures var r := InitFromArgv(p, argv);
      GetArgs(r) == r.argv[r.begin..] == NonSwitches(p, TrimAll(p, Tail(argv)))
  {
    hide Trim, IsSwitch, Element, Normalize, KeyOf, SwitchString, SwitchValue, NonSwitches, TrimAll;
    InitShape(p, argv);
    var r, args := InitFromArgv(p, argv), Plain(p, Tail(argv), true);
    PlainWithoutTerminator(p, Tail(argv));
    assert r.argv[r.begin..] == args;
    WithoutFirstAround(args, "--", []);
  }

  /** With a first "--" at `t`: the switches, the map and the divider are those of parsing
      only what is before it; GetArgs() is the trimmed non-switches before it and everything
      after it, trimmed, further "--" included. */
  lemma {:induction false} TerminatorEndsSwitches(p: Platform, argv: seq<string>, t: nat)
    requires FirstTerminator(p, Tail(argv), t)
    ensures var args, r, before := Tail(argv), InitFromArgv(p, argv), InitFromArgv(p, argv[..t + 1]);
      && r.switches == before.switches && r.begin == before.begin
      && r.argv[..r.begin] == before.argv[..before.begin]
      && GetArgs(before) == NonSwitches(p, TrimAll(p, args[..t]))
      && GetArgs(r) == GetArgs(before) + TrimAll(p, args[t + 1..])
  {
    hide Trim, IsSwitch, ParseInto, NonSwitches, TrimAll, WithoutFirst;
    var args, before := Tail(argv), InitFromArgv(p, argv[..t + 1]);
    assert Tail(argv[..t + 1]) == args[..t];
    ParseAfterTerminator(p, SetProgram(p, EMPTY, argv[0]), args, t);
    NoTerminatorArgs(p, argv[..t + 1]);
    PlainWithoutTerminator(p, args[..t]);
    var r, a, b := InitFromArgv(p, argv), before.argv[before.begin..], TrimAll(p, args[t + 1..]);
    assert r.argv == before.argv + ["--"] + b;
    assert r.argv[r.begin..] == a + ["--"] + b;
    WithoutFirstAround(a, "--", b);
  }

  /** `args` is `rest` without its first "--", if it has one. */
  ghost predicate DropsFirst(rest: seq<string>, args: seq<string>) {
    && ("--" !in rest ==> args == rest)
    && forall i :: 0 <= i < |rest| && rest[i] == "--" && "--" !in rest[..i] ==> args == rest[..i] + rest[i + 1..]
  }

  /** The first `x` found at `i`, or none if `i` is the length. */
  lemma {:induction false} WithoutFirstAt(rest: seq<string>, i: nat, x: string)
    requires i <= |rest| && x !in rest[..i] && (i < |rest| ==> rest[i] == x)
    ensures WithoutFirst(rest, x) == if i < |rest| then rest[..i] + rest[i + 1..] else rest
  {
    hide WithoutFirst;
    if i < |rest| {
      assert rest == rest[..i] + [x] + rest[i + 1..];
      WithoutFirstAround(rest[..i], x, rest[i + 1..]);
    } else {
      assert rest[..i] == rest;
      WithoutFirstAround(rest, x, []);
    }
  }

  /** On every line GetArgs() drops the first "--" after the divider and nothing else. */
  lemma {:induction false} GetArgsDropsFirst(l: Line)
    requires Divided(l)
    ensures DropsFirst(l.argv[l.begin..], GetArgs(l))
  {
    hide WithoutFirst;
    var rest := l.argv[l.begin..];
    if "--" !in rest {
      assert rest[..|rest|] == rest;
      WithoutFirstAt(rest, |rest|, "--");
    }
    forall i | 0 <= i < |rest| && rest[i] == "--" && "--" !in rest[..i]
      ensures GetArgs(l) == rest[..i] + rest[i + 1..]
    {
      WithoutFirstAt(rest, i, "--");
    }
  }

  // ------------------------------------------------------------- normal form

  /** A parsed switch that reads the same when parsed again: it has a value, or its name
      goes on after the prefix and does not end in white space. */
  predicate Settled(p: Platform, arg: string) {
    var name := SwitchString(arg);
    SwitchValue(arg) != "" || (PrefixLength(p, name) < |name| && !IsSpace(p, name[|name| - 1]))
  }

  /** Every argument of `args` that is parsed as a switch is settled. */
  predicate AllSettled(p: Platform, args: seq<string>, switchesOn: bool)
    decreases |args|
  {
    args == [] ||
    (&& (ParsedAsSwitch(p, args[0], switchesOn) ==> Settled(p, Trim(p, args[0])))
     && AllSettled(p, args[1..], switchesOn && Trim(p, args[0]) != TERMINATOR))
  }

  /** An element that parses to itself. */
  predicate Fixed(p: Platform, e: string) {
    ParsedAsSwitch(p, e, true) && SwitchElement(p, Trim(p, e)) == e && Trim(p, e) == e
  }

  predicate AllFixed(p: Platform, es: seq<string>) {
    forall i :: 0 <= i < |es| ==> Fixed(p, es[i])
  }

  lemma {:induction false} ElementOfSwitch(p: Platform, arg: string)
    requires IsSwitch(p, arg)
    ensures var e := SwitchElement(p, arg);
            && SwitchString(e) == Normalize(p, SwitchString(arg))
            && SwitchValue(e) == SwitchValue(arg)
            && |e| <= |arg|
            && e == SwitchString(e) + (if SwitchValue(e) == "" then "" else "=" + SwitchValue(e))
  {
    PrefixBeforeEquals(p, arg);
    NormalizeFacts(p, SwitchString(arg));
    ElementReadsBack(p, SwitchString(arg), SwitchValue(arg));
    assert Stem(p, SwitchString(arg)) == Normalize(p, SwitchString(arg));
  }

  /** The element of a trimmed switch is trimmed exactly when it has a value or its name
      does not end in white space. */
  lemma {:induction false} ElementTrimmed(p: Platform, arg: string)
    requires IsSwitch(p, arg) && IsTrimmed(p, arg)
    ensures var name := SwitchString(arg);
            && name != ""
            && (IsTrimmed(p, SwitchElement(p, arg)) <==>
                  SwitchValue(arg) != "" || !IsSpace(p, name[|name| - 1]))
  {
    hide SwitchElement, IsSpace, Normalize, SwitchString, SwitchValue, IsSwitch;
    var e := SwitchElement(p, arg);
    var name, value := SwitchString(arg), SwitchValue(arg);
    EndsOfSwitch(p, arg);
    ElementOfSwitch(p, arg);
    NormalizeSpaces(p, name, 0);
    NormalizeSpaces(p, name, |name| - 1);
    if value != "" {
      assert e[|e| - 1] == value[|value| - 1] == arg[|arg| - 1];
    } else {
      assert e == Normalize(p, name);
    }
  }

  lemma EndsOfSwitch(p: Platform, arg: string)
    requires IsSwitch(p, arg)
    ensures var name, value := SwitchString(arg), SwitchValue(arg);
            && name != "" && arg[0] == name[0]
            && (value != "" ==> arg[|arg| - 1] == value[|value| - 1])
  {
    PrefixBeforeEquals(p, arg);
  }

  /** The element of a switch is a switch, not a terminator, exactly when it has a value or
      its name goes on after the prefix. */
  lemma ElementIsSwitch(p: Platform, arg: string)
    requires IsSwitch(p, arg)
    ensures var name := SwitchString(arg);
            var e := SwitchElement(p, arg);
            e != TERMINATOR && IsSwitch(p, e) <==> SwitchValue(arg) != "" || PrefixLength(p, name) < |name|
  {
    hide SwitchElement, Normalize;
    var e := SwitchElement(p, arg);
    ElementOfSwitch(p, arg);
    PrefixBeforeEquals(p, arg);
    PrefixBeforeEquals(p, e);
    NormalizeFacts(p, SwitchString(arg));
    assert PrefixLength(p, TERMINATOR) == 2;
  }

  lemma {:induction false} ElementOfElement(p: Platform, arg: string)
    requires IsSwitch(p, arg) && IsSwitch(p, SwitchElement(p, arg))
    ensures SwitchElement(p, SwitchElement(p, arg)) == SwitchElement(p, arg)
  {
    hide SwitchElement, Normalize, IsSwitch, SwitchString, SwitchValue;
    ElementOfSwitch(p, arg);
    ElementOfSwitch(p, SwitchElement(p, arg));
    NormalizeFacts(p, SwitchString(arg));
  }

  /** A trimmed switch is settled exactly when the element it becomes parses to itself. */
  lemma {:induction false} SettledIffFixed(p: Platform, arg: string)
    requires IsSwitch(p, arg) && IsTrimmed(p, arg)
    ensures Settled(p, arg) <==> Fixed(p, SwitchElement(p, arg))
  {
    hide SwitchElement, IsSwitch, IsTrimmed, Trim, SwitchString, SwitchValue;
    var e := SwitchElement(p, arg);
    TrimFacts(p, e);
    ElementTrimmed(p, arg);
    ElementIsSwitch(p, arg);
    if IsSwitch(p, e) {
      ElementOfElement(p, arg);
    }
  }

  /** Parsing elements that parse to themselves, then arguments, gives them back. */
  lemma {:induction false} FixedSwitches(p: Platform, es: seq<string>, rest: seq<string>)
    requires AllFixed(p, es)
    ensures Switches(p, es + rest, true) == es + Switches(p, rest, true)
    ensures Plain(p, es + rest, true) == Plain(p, rest, true)
  {
    hide Trim, IsSwitch, Element, IsTrimmed, Normalize, KeyOf, SwitchString, SwitchValue;
    if es == [] {
      assert es + rest == rest;
    } else {
      assert (es + rest)[1..] == es[1..] + rest && (es + rest)[0] == es[0];
      FixedSwitches(p, es[1..], rest);
      assert Fixed(p, es[0]);
    }
  }

  /** The arguments of a parse are arguments again, unchanged. */
  lemma {:induction false} PlainAgain(p: Platform, args: seq<string>, on: bool)
    ensures Plain(p, Plain(p, args, on), on) == Plain(p, args, on)
    ensures Switches(p, Plain(p, args, on), on) == []
    decreases |args|
  {
    hide Trim, IsSwitch, Element, IsTrimmed, Normalize, KeyOf, SwitchString, SwitchValue;
    if args != [] {
      var arg := Trim(p, args[0]);
      TrimFacts(p, args[0]);
      var on' := on && arg != TERMINATOR;
      PlainAgain(p, args[1..], on');
      var pl := Plain(p, args[1..], on');
      if ParsedAsSwitch(p, args[0], on) {
        assert [] + pl == pl;
      } else {
        assert ([arg] + pl)[1..] == pl;
      }
    }
  }

  lemma {:induction false} SwitchesOfConcat(p: Platform, a: seq<string>, b: seq<string>, on: bool)
    requires Switches(p, b, true) == []
    ensures |Switches(p, a + b, on)| <= |a|
    decreases |a|
  {
    if a == [] {
      assert a + b == b;
      if !on { PlainWhenOff(p, b); }
    } else {
      assert (a + b)[1..] == a[1..] + b && (a + b)[0] == a[0];
      SwitchesOfConcat(p, a[1..], b, on && Trim(p, a[0]) != TERMINATOR);
    }
  }

  /** If parsing `es + rest` gives the switches `es` back, each of them parses to itself. */
  lemma {:induction false} BackImpliesFixed(p: Platform, es: seq<string>, rest: seq<string>)
    requires Switches(p, rest, true) == []
    requires Switches(p, es + rest, true) == es
    ensures AllFixed(p, es)
  {
    hide Trim, IsSwitch, Element, IsTrimmed, Normalize, KeyOf, SwitchString, SwitchValue;
    if es != [] {
      var e := es[0];
      var x := Trim(p, e);
      TrimFacts(p, e);
      assert (es + rest)[1..] == es[1..] + rest && (es + rest)[0] == e;
      if x == TERMINATOR {
        PlainWhenOff(p, es[1..] + rest);
        assert false;
      } else if IsSwitch(p, x) {
        assert [SwitchElement(p, x)] + Switches(p, es[1..] + rest, true) == es;
        assert SwitchElement(p, x) == e && Switches(p, es[1..] + rest, true) == es[1..];
        ElementOfSwitch(p, x);
        TrimShorter(p, e);
        BackImpliesFixed(p, es[1..], rest);
        AllFixedCons(p, e, es[1..]);
        assert [e] + es[1..] == es;
      } else {
        SwitchesOfConcat(p, es[1..], rest, true);
        assert false;
      }
    }
  }

  lemma TrimShorter(p: Platform, s: string)
    ensures |Trim(p, s)| == |s| ==> Trim(p, s) == s
  {
    var l := TrimLeft(p, s);
    assert |Trim(p, s)| <= |l| <= |s|;
    if |Trim(p, s)| == |s| {
      assert l == s[0..] == s;
      assert Trim(p, s) == l[..|l|] == l;
    }
  }

  lemma {:induction false} SettledSwitches(p: Platform, args: seq<string>, on: bool)
    ensures AllSettled(p, args, on) <==> AllFixed(p, Switches(p, args, on))
    decreases |args|
  {
    hide Trim, IsSwitch, SwitchElement, IsTrimmed, Fixed, Settled, AllFixed;
    if args != [] {
      var on' := on && Trim(p, args[0]) != TERMINATOR;
      SettledSwitches(p, args[1..], on');
      var rest := Switches(p, args[1..], on');
      if ParsedAsSwitch(p, args[0], on) {
        TrimFacts(p, args[0]);
        SettledIffFixed(p, Trim(p, args[0]));
        AllFixedCons(p, SwitchElement(p, Trim(p, args[0])), rest);
      } else {
        assert [] + rest == rest;
      }
    } else {
      AllFixedNone(p);
    }
  }

  lemma AllFixedNone(p: Platform)
    ensures AllFixed(p, [])
  {
  }

  lemma AllFixedCons(p: Platform, e: string, rest: seq<string>)
    ensures AllFixed(p, [e] + rest) <==> Fixed(p, e) && AllFixed(p, rest)
  {
    hide Fixed;
    var all := [e] + rest;
    assert forall i :: 0 <= i < |rest| ==> rest[i] == all[i + 1];
    assert forall i :: 0 < i < |all| ==> all[i] == rest[i - 1];
    if AllFixed(p, all) {
      assert Fixed(p, all[0]);
    }
  }

  /** The map that a sequence of elements stands for. */
  function Collected(p: Platform, m: map<string, string>, es: seq<string>): map<string, string>
    decreases |es|
  {
    if es == [] then m
    else Collected(p, m[KeyOf(p, SwitchString(es[0])) := SwitchValue(es[0])], es[1..])
  }

  lemma {:induction false} ValuesFromElements(p: Platform, m: map<string, string>, args: seq<string>, on: bool)
    ensures Values(p, m, args, on) == Collected(p, m, Switches(p, args, on))
    decreases |args|
  {
    hide Trim, IsSwitch, SwitchElement, Normalize, KeyOf, SwitchString, SwitchValue;
    if args != [] {
      var arg := Trim(p, args[0]);
      var on' := on && arg != TERMINATOR;
      var rest := Switches(p, args[1..], on');
      if ParsedAsSwitch(p, args[0], on) {
        var e := SwitchElement(p, arg);
        ElementOfSwitch(p, arg);
        assert ([e] + rest)[1..] == rest;
        ValuesFromElements(p, m[KeyOf(p, SwitchString(e)) := SwitchValue(e)], args[1..], on');
      } else {
        assert [] + rest == rest;
        ValuesFromElements(p, m, args[1..], on');
      }
    }
  }

  /** Parsing its own result again reproduces a command line if and only if every parsed
      switch is settled. */
  lemma {:induction false} NormalForm(p: Platform, argv: seq<string>)
    ensures InitFromArgv(p, InitFromArgv(p, argv).argv) == InitFromArgv(p, argv) <==> AllSettled(p, Tail(argv), true)
  {
    hide Trim, Fixed, AllSettled, InitFromArgv, Switches, Plain, Values, Collected;
    var r := InitFromArgv(p, argv);
    var sw, pl := Switches(p, Tail(argv), true), Plain(p, Tail(argv), true);
    var program := if argv == [] then "" else argv[0];
    InitShape(p, argv);
    InitShape(p, r.argv);
    TrimFacts(p, program);
    assert Tail(r.argv) == sw + pl && r.argv[0] == Trim(p, program);
    PlainAgain(p, Tail(argv), true);
    SettledSwitches(p, Tail(argv), true);
    var again := InitFromArgv(p, r.argv);
    if AllSettled(p, Tail(argv), true) {
      FixedSwitches(p, sw, pl);
      assert sw + [] == sw;
      ValuesFromElements(p, map[], Tail(argv), true);
      ValuesFromElements(p, map[], sw + pl, true);
    }
    if again == r {
      assert again.argv[1..again.begin] == Switches(p, sw + pl, true);
      assert r.argv[1..r.begin] == sw;
      BackImpliesFixed(p, sw, pl);
    }
  }

  /** The switch "--=" leaves the bare prefix, which is a terminator when parsed again. */
  lemma NotNormal(p: Platform)
    ensures InitFromArgv(p, InitFromArgv(p, ["", "--="]).argv) != InitFromArgv(p, ["", "--="])
  {
    BareTrimmed(p);
    BareParts(p);
    hide Trim, IsSwitch, SwitchString, SwitchValue, InitFromArgv;
    var argv := ["", "--="];
    assert Tail(argv) == ["--="];
    assert !Settled(p, "--=") && ParsedAsSwitch(p, "--=", true);
    assert !AllSettled(p, ["--="], true);
    NormalForm(p, argv);
  }
}
