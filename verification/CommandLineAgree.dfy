/** The two representations of a CommandLine, the argv_ vector with its divider and the
    map of switches, agree after any history of parsing and editing. */
module CommandLineAgree {
  import opened Common
  import opened CommandLineSpec

  /** The value carried by the last element that is a switch with key `key`. */
  function LastValue(p: Platform, elements: seq<string>, key: string): Option<string> {
    if elements == [] then None
    else
      var n := |elements| - 1;
      if IsSwitchWithKey(p, elements[n], key) then Some(SwitchValue(elements[n]))
      else LastValue(p, elements[..n], key)
  }

  function Lookup(m: map<string, string>, key: string): Option<string> {
    if key in m then Some(m[key]) else None
  }

  function SwitchElements(l: Line): seq<string>
    requires Divided(l)
  {
    l.argv[1..l.begin]
  }

  /** For every non-empty key: it is in the map exactly when some element before the
      divider is a switch with that key, and then with the value of the last of them. */
  ghost predicate Agree(p: Platform, l: Line) {
    && Divided(l)
    && forall key :: key != "" ==> Lookup(l.switches, key) == LastValue(p, SwitchElements(l), key)
  }

  // ------------------------------------------------------------- one element

  /** An element appended for a name without '=' reads back as that name and value. */
  lemma {:induction false} ElementReadsBack(p: Platform, name: string, value: string)
    requires '=' !in name
    ensures var e := Element(p, name, value);
            var key := KeyOf(p, Normalize(p, name));
            && SwitchValue(e) == value
            && SwitchString(e) == Stem(p, name)
            && KeyOf(p, SwitchString(e)) == key
            && (IsSwitch(p, e) <==> key != "" || value != "")
  {
    var stem := Stem(p, name);
    var e := Element(p, name, value);
    StemFacts(p, name);
    FirstEquals(stem, if value != "" then "=" + value else "");
    assert SwitchString(e) == stem;
    PrefixBeforeEquals(p, e);
  }

  lemma {:induction false} FirstEquals(stem: string, rest: string)
    requires '=' !in stem && (rest == "" || rest[0] == '=')
    ensures EqualsAt(stem + rest) == |stem|
  {
    if stem == "" {
      assert stem + rest == rest;
    } else {
      assert (stem + rest)[1..] == stem[1..] + rest;
      FirstEquals(stem[1..], rest);
    }
  }

  /** No element is ever a switch whose key contains '='. */
  lemma {:induction false} NoKeyWithEquals(p: Platform, elements: seq<string>, key: string)
    requires '=' in key
    ensures LastValue(p, elements, key) == None
  {
    if elements != [] {
      var e := elements[|elements| - 1];
      assert '=' !in SwitchString(e);
      NoKeyWithEquals(p, elements[..|elements| - 1], key);
    }
  }

  // ------------------------------------------------------------------- edits

  /** Appending a switch keeps the agreement if and only if its name has no '='. */
  lemma AppendSwitchAgrees(p: Platform, l: Line, name: string, value: string)
    requires Agree(p, l)
    ensures Agree(p, AppendSwitch(p, l, name, value)) <==> '=' !in name
  {
    var r := AppendSwitch(p, l, name, value);
    var own := KeyOf(p, Normalize(p, name));
    assert SwitchElements(r) == SwitchElements(l) + [Element(p, name, value)];
    if '=' in name {
      NormalizeFacts(p, name);
      assert '=' in own by {
        var n := Normalize(p, name);
        var i :| 0 <= i < |n| && n[i] == '=';
        assert own[i - PrefixLength(p, n)] == '=';
      }
      NoKeyWithEquals(p, SwitchElements(r), own);
      assert Lookup(r.switches, own) == Some(value);
    } else {
      forall key | key != ""
        ensures Lookup(r.switches, key) == LastValue(p, SwitchElements(r), key)
      {
        assert Lookup(l.switches, key) == LastValue(p, SwitchElements(l), key);
        LastValueAppended(p, SwitchElements(l), name, value, key);
      }
    }
  }

  lemma LastValueAppended(p: Platform, elements: seq<string>, name: string, value: string, key: string)
    requires '=' !in name && key != ""
    ensures LastValue(p, elements + [Element(p, name, value)], key) ==
            if key == KeyOf(p, Normalize(p, name)) then Some(value) else LastValue(p, elements, key)
  {
    ElementReadsBack(p, name, value);
    assert (elements + [Element(p, name, value)])[..|elements|] == elements;
  }

  lemma AppendArgAgrees(p: Platform, l: Line, value: string)
    requires Agree(p, l)
    ensures Agree(p, AppendArg(l, value))
  {
    assert SwitchElements(AppendArg(l, value)) == SwitchElements(l);
  }

  lemma SetProgramAgrees(p: Platform, l: Line, program: string)
    requires Agree(p, l)
    ensures Agree(p, SetProgram(p, l, program))
  {
    assert SwitchElements(SetProgram(p, l, program)) == SwitchElements(l);
  }

  /** Dropping the switches of one key hides that key and no other. */
  lemma {:induction false} KeptValues(p: Platform, elements: seq<string>, key: string, other: string)
    ensures LastValue(p, Kept(p, elements, key), other) ==
            if other == key then None else LastValue(p, elements, other)
  {
    if elements != [] {
      var n := |elements| - 1;
      KeptValues(p, elements[..n], key, other);
      var before := Kept(p, elements[..n], key);
      if !IsSwitchWithKey(p, elements[n], key) {
        assert (before + [elements[n]])[..|before|] == before;
      } else {
        assert before + [] == before;
      }
    }
  }

  /** The kept elements are exactly those that are not switches with the key, each at its
      old place in the order: `at[i]` is where the i-th of them stood. */
  lemma {:induction false} KeptInOrder(p: Platform, elements: seq<string>, key: string) returns (at: seq<nat>)
    ensures |at| == |Kept(p, elements, key)|
    ensures forall i :: 0 <= i < |at| ==> at[i] < |elements| && Kept(p, elements, key)[i] == elements[at[i]]
    ensures forall i, j :: 0 <= i < j < |at| ==> at[i] < at[j]
    ensures forall k :: 0 <= k < |elements| ==> (k in at <==> !IsSwitchWithKey(p, elements[k], key))
  {
    hide IsSwitchWithKey;
    if elements == [] {
      at := [];
    } else {
      var n := |elements| - 1;
      var before := KeptInOrder(p, elements[..n], key);
      assert n !in before;
      at := before + if IsSwitchWithKey(p, elements[n], key) then [] else [n];
    }
  }

  lemma {:induction false} KeptNothing(p: Platform, elements: seq<string>, key: string)
    ensures LastValue(p, elements, key) == None <==> Kept(p, elements, key) == elements
    ensures |Kept(p, elements, key)| < |elements| || Kept(p, elements, key) == elements
  {
    if elements != [] {
      KeptNothing(p, elements[..|elements| - 1], key);
    }
  }

  /** RemoveSwitch keeps the agreement, leaves the program and the arguments alone, and
      for a non-empty key that is present it does find something to erase. */
  lemma RemoveSwitchAgrees(p: Platform, l: Line, key: string)
    requires Agree(p, l)
    ensures var r := RemoveSwitch(p, l, key);
            && Agree(p, r)
            && key !in r.switches
            && SwitchElements(r) == (if key in l.switches then Kept(p, SwitchElements(l), key) else SwitchElements(l))
            && r.argv[r.begin..] == l.argv[l.begin..] && r.argv[0] == l.argv[0]
            && (key != "" && key in l.switches ==> r.begin < l.begin)
  {
    var r := RemoveSwitch(p, l, key);
    if key in l.switches {
      assert SwitchElements(r) == Kept(p, SwitchElements(l), key);
      KeptNothing(p, SwitchElements(l), key);
      if key != "" {
        assert Lookup(l.switches, key) == LastValue(p, SwitchElements(l), key);
      }
      forall k | k != ""
        ensures Lookup(r.switches, k) == LastValue(p, SwitchElements(r), k)
      {
        KeptValues(p, SwitchElements(l), key, k);
        assert Lookup(l.switches, k) == LastValue(p, SwitchElements(l), k);
      }
    }
  }

  lemma {:induction false} ParseAgrees(p: Platform, l: Line, args: seq<string>, switchesOn: bool)
    requires Agree(p, l)
    ensures Agree(p, ParseInto(p, l, args, switchesOn))
    decreases |args|
  {
    if args != [] {
      var arg := Trim(p, args[0]);
      var on := switchesOn && arg != TERMINATOR;
      if on && IsSwitch(p, arg) {
        AppendSwitchAgrees(p, l, SwitchString(arg), SwitchValue(arg));
        ParseAgrees(p, AppendSwitch(p, l, SwitchString(arg), SwitchValue(arg)), args[1..], on);
      } else {
        AppendArgAgrees(p, l, arg);
        ParseAgrees(p, AppendArg(l, arg), args[1..], on);
      }
    }
  }

  // --------------------------------------------------------------- histories

  datatype Edit =
    | Init(argv: seq<string>)
    | Append(name: string, value: string)
    | Arg(arg: string)
    | Remove(key: string)
    | Program(program: string)
    | Arguments(other: seq<string>, includeProgram: bool)

  /** `Arguments` takes the argv() of another command line, which is never empty. */
  predicate Allowed(e: Edit) {
    (e.Append? ==> '=' !in e.name) && (e.Arguments? ==> e.other != [])
  }

  function ApplyEdit(p: Platform, l: Line, e: Edit): (r: Line)
    requires Divided(l) && Allowed(e)
  {
    match e
    case Init(argv) => InitFromArgv(p, argv)
    case Append(name, value) => AppendSwitch(p, l, name, value)
    case Arg(arg) => AppendArg(l, arg)
    case Remove(key) => RemoveSwitch(p, l, key)
    case Program(program) => SetProgram(p, l, program)
    case Arguments(other, inclusive) => AppendArguments(p, l, other, inclusive)
  }

  lemma EmptyAgrees(p: Platform)
    ensures Agree(p, EMPTY)
  {
    assert SwitchElements(EMPTY) == [];
  }

  lemma {:induction false} EditAgrees(p: Platform, l: Line, e: Edit)
    requires Agree(p, l) && Allowed(e)
    ensures Agree(p, ApplyEdit(p, l, e))
  {
    match e
    case Init(argv) =>
      var program := if argv == [] then "" else argv[0];
      EmptyAgrees(p);
      SetProgramAgrees(p, EMPTY, program);
      ParseAgrees(p, SetProgram(p, EMPTY, program), Tail(argv), true);
    case Append(name, value) => AppendSwitchAgrees(p, l, name, value);
    case Arg(arg) => AppendArgAgrees(p, l, arg);
    case Remove(key) => RemoveSwitchAgrees(p, l, key);
    case Program(program) => SetProgramAgrees(p, l, program);
    case Arguments(other, inclusive) =>
      SetProgramAgrees(p, l, other[0]);
      ParseAgrees(p, if inclusive then SetProgram(p, l, other[0]) else l, Tail(other), true);
  }

  /** `states` are the values a command line takes over a history of edits. */
  ghost predicate History(p: Platform, edits: seq<Edit>, states: seq<Line>) {
    && |states| == |edits| + 1 && states[0] == EMPTY
    && forall i :: 0 <= i < |edits| ==>
         Divided(states[i]) && Allowed(edits[i]) && states[i + 1] == ApplyEdit(p, states[i], edits[i])
  }

  /** The representations agree at every point of every history, and the divider stays
      inside the vector. */
  lemma {:induction false} HistoryAgrees(p: Platform, edits: seq<Edit>, states: seq<Line>, i: nat)
    requires History(p, edits, states) && i <= |edits|
    ensures Agree(p, states[i])
  {
    if i == 0 {
      EmptyAgrees(p);
    } else {
      HistoryAgrees(p, edits, states, i - 1);
      EditAgrees(p, states[i - 1], edits[i - 1]);
    }
  }

  // --------------------------------------------------------- the empty key

  ghost predicate AgreeAt(p: Platform, l: Line, key: string)
    requires Divided(l)
  {
    Lookup(l.switches, key) == LastValue(p, SwitchElements(l), key)
  }

  /** No element is a switch with an empty key and an empty value: appending them leaves the
      bare prefix, which is no switch. */
  ghost predicate NoBareSwitch(p: Platform, elements: seq<string>) {
    forall i :: 0 <= i < |elements| ==> !(IsSwitchWithKey(p, elements[i], "") && SwitchValue(elements[i]) == "")
  }

  /** What every edit keeps of the empty key. */
  ghost predicate EmptyKeyOk(p: Platform, l: Line) {
    && Divided(l) && NoBareSwitch(p, SwitchElements(l))
    && (Lookup(l.switches, "") != Some("") ==> AgreeAt(p, l, ""))
  }

  lemma {:induction false} NoBareValue(p: Platform, elements: seq<string>)
    requires NoBareSwitch(p, elements)
    ensures LastValue(p, elements, "") != Some("")
  {
    hide IsSwitchWithKey, SwitchValue;
    if elements != [] {
      var n := |elements| - 1;
      assert forall i :: 0 <= i < n ==> elements[..n][i] == elements[i];
      NoBareValue(p, elements[..n]);
    }
  }

  lemma EmptyKeyAppended(p: Platform, elements: seq<string>, name: string, value: string)
    requires '=' !in name && NoBareSwitch(p, elements)
    ensures NoBareSwitch(p, elements + [Element(p, name, value)])
    ensures LastValue(p, elements + [Element(p, name, value)], "") ==
      if KeyOf(p, Normalize(p, name)) == "" && value != "" then Some(value) else LastValue(p, elements, "")
  {
    ElementReadsBack(p, name, value);
    assert (elements + [Element(p, name, value)])[..|elements|] == elements;
  }

  lemma AppendKeepsEmptyKey(p: Platform, l: Line, name: string, value: string)
    requires EmptyKeyOk(p, l) && '=' !in name
    ensures EmptyKeyOk(p, AppendSwitch(p, l, name, value))
  {
    hide IsSwitchWithKey, Element, KeyOf, SwitchValue, Normalize;
    var r := AppendSwitch(p, l, name, value);
    assert SwitchElements(r) == SwitchElements(l) + [Element(p, name, value)];
    EmptyKeyAppended(p, SwitchElements(l), name, value);
  }

  /** If the empty key agrees before a switch is appended, it agrees afterwards exactly when
      the switch has a key or a value. */
  lemma AppendAgreesAtEmpty(p: Platform, l: Line, name: string, value: string)
    requires EmptyKeyOk(p, l) && AgreeAt(p, l, "") && '=' !in name
    ensures Divided(AppendSwitch(p, l, name, value))
    ensures AgreeAt(p, AppendSwitch(p, l, name, value), "") <==> KeyOf(p, Normalize(p, name)) != "" || value != ""
  {
    hide IsSwitchWithKey, Element, KeyOf, SwitchValue, Normalize;
    var r := AppendSwitch(p, l, name, value);
    assert SwitchElements(r) == SwitchElements(l) + [Element(p, name, value)];
    EmptyKeyAppended(p, SwitchElements(l), name, value);
    NoBareValue(p, SwitchElements(l));
  }

  lemma RemoveKeepsEmptyKey(p: Platform, l: Line, key: string)
    requires EmptyKeyOk(p, l)
    ensures EmptyKeyOk(p, RemoveSwitch(p, l, key))
  {
    var r := RemoveSwitch(p, l, key);
    if key in l.switches {
      hide IsSwitchWithKey, SwitchValue;
      assert SwitchElements(r) == Kept(p, SwitchElements(l), key);
      KeptValues(p, SwitchElements(l), key, "");
      var at := KeptInOrder(p, SwitchElements(l), key);
    }
  }

  lemma ArgKeepsEmptyKey(p: Platform, l: Line, value: string)
    requires EmptyKeyOk(p, l)
    ensures EmptyKeyOk(p, AppendArg(l, value))
  {
    assert SwitchElements(AppendArg(l, value)) == SwitchElements(l);
  }

  lemma ProgramKeepsEmptyKey(p: Platform, l: Line, program: string)
    requires EmptyKeyOk(p, l)
    ensures EmptyKeyOk(p, SetProgram(p, l, program))
  {
    assert SwitchElements(SetProgram(p, l, program)) == SwitchElements(l);
  }

  lemma {:induction false} ParseKeepsEmptyKey(p: Platform, l: Line, args: seq<string>, switchesOn: bool)
    requires EmptyKeyOk(p, l)
    ensures EmptyKeyOk(p, ParseInto(p, l, args, switchesOn))
    decreases |args|
  {
    hide EmptyKeyOk, IsSwitch, Trim;
    if args != [] {
      var arg := Trim(p, args[0]);
      var on := switchesOn && arg != TERMINATOR;
      DividedAtStart(p, l);
      if on && IsSwitch(p, arg) {
        AppendKeepsEmptyKey(p, l, SwitchString(arg), SwitchValue(arg));
        ParseKeepsEmptyKey(p, AppendSwitch(p, l, SwitchString(arg), SwitchValue(arg)), args[1..], on);
      } else {
        ArgKeepsEmptyKey(p, l, arg);
        ParseKeepsEmptyKey(p, AppendArg(l, arg), args[1..], on);
      }
    }
  }

  lemma DividedAtStart(p: Platform, l: Line)
    requires EmptyKeyOk(p, l)
    ensures Divided(l)
  {
  }

  lemma StartKeepsEmptyKey(p: Platform)
    ensures EmptyKeyOk(p, EMPTY)
  {
    assert SwitchElements(EMPTY) == [];
  }

  lemma EditKeepsEmptyKey(p: Platform, l: Line, e: Edit)
    requires EmptyKeyOk(p, l) && Allowed(e)
    ensures EmptyKeyOk(p, ApplyEdit(p, l, e))
  {
    DividedAtStart(p, l);
    hide EmptyKeyOk;
    match e
    case Init(argv) =>
      var program := if argv == [] then "" else argv[0];
      StartKeepsEmptyKey(p);
      ProgramKeepsEmptyKey(p, EMPTY, program);
      ParseKeepsEmptyKey(p, SetProgram(p, EMPTY, program), Tail(argv), true);
    case Append(name, value) => AppendKeepsEmptyKey(p, l, name, value);
    case Arg(arg) => ArgKeepsEmptyKey(p, l, arg);
    case Remove(key) => RemoveKeepsEmptyKey(p, l, key);
    case Program(program) => ProgramKeepsEmptyKey(p, l, program);
    case Arguments(other, inclusive) =>
      ProgramKeepsEmptyKey(p, l, other[0]);
      ParseKeepsEmptyKey(p, if inclusive then SetProgram(p, l, other[0]) else l, Tail(other), true);
  }

  lemma {:induction false} HistoryKeepsEmptyKey(p: Platform, edits: seq<Edit>, states: seq<Line>, i: nat)
    requires History(p, edits, states) && i <= |edits|
    ensures EmptyKeyOk(p, states[i])
  {
    hide EmptyKeyOk, ApplyEdit;
    if i == 0 {
      StartKeepsEmptyKey(p);
    } else {
      HistoryKeepsEmptyKey(p, edits, states, i - 1);
      EditKeepsEmptyKey(p, states[i - 1], edits[i - 1]);
    }
  }

  /** After any history the empty key agrees exactly when the map does not give it the empty
      value. */
  lemma EmptyKeyAgrees(p: Platform, edits: seq<Edit>, states: seq<Line>, i: nat)
    requires History(p, edits, states) && i <= |edits|
    ensures Divided(states[i])
    ensures AgreeAt(p, states[i], "") <==> Lookup(states[i].switches, "") != Some("")
  {
    HistoryKeepsEmptyKey(p, edits, states, i);
    NoBareValue(p, SwitchElements(states[i]));
  }

  /** A name that is all prefix, or nothing, with no value is in the map, but the element
      "--" is no switch, and removing it afterwards erases no element. */
  lemma EmptyKeyDisagrees(p: Platform)
    ensures var l := AppendSwitch(p, EMPTY, "", "");
            && "" in l.switches
            && LastValue(p, SwitchElements(l), "") == None
            && RemoveSwitch(p, l, "") == l.(switches := map[])
  {
    var l := AppendSwitch(p, EMPTY, "", "");
    assert Normalize(p, "") == "";
    assert Element(p, "", "") == "--";
    assert SwitchElements(l) == ["--"] && ["--"][..0] == [];
    assert !IsSwitch(p, "--");
    assert LastValue(p, [], "") == None && LastValue(p, ["--"], "") == None;
    assert Kept(p, [], "") == [] && Kept(p, ["--"], "") == ["--"];
  }

  lemma BareTrimmed(p: Platform)
    ensures Trim(p, "--=") == "--="
  {
    hide Trim;
    assert IsTrimmed(p, "--=");
    TrimFixed(p, "--=");
  }

  lemma BareParts(p: Platform)
    ensures IsSwitch(p, "--=") && SwitchString("--=") == "--" && SwitchValue("--=") == ""
  {
    hide EqualsAt;
    FirstEquals("--", "=");
    var s := "--=";
    assert "--" + "=" == s;
    assert EqualsAt(s) == 2 && s[..2] == "--" && s[3..] == "";
  }

  lemma BareKey(p: Platform)
    ensures KeyOf(p, Normalize(p, "--")) == ""
  {
    NormalizeFacts(p, "--");
  }

  /** The same by parsing "--=". */
  lemma ParsedEmptyKeyDisagrees(p: Platform)
    ensures !AgreeAt(p, InitFromArgv(p, ["", "--="]), "")
  {
    BareTrimmed(p);
    BareParts(p);
    BareKey(p);
    hide Trim, IsSwitch, SwitchString, SwitchValue, KeyOf, Normalize, IsSwitchWithKey;
    var l := SetProgram(p, EMPTY, "");
    StartKeepsEmptyKey(p);
    ProgramKeepsEmptyKey(p, EMPTY, "");
    assert Tail(["", "--="]) == ["--="] && ["--="][1..] == [];
    var r := AppendSwitch(p, l, "--", "");
    assert ParseInto(p, r, [], true) == r;
    assert InitFromArgv(p, ["", "--="]) == r;
    AppendAgreesAtEmpty(p, l, "--", "");
  }
}
