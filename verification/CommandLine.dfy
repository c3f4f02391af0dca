/** CommandLine as an object whose fields are updated in place, each method proved
    against the value-level specification. */
module CommandLines {
  import opened CommandLineSpec
  import opened CommandLineQuote
  import opened CommandLinePrint
  import opened CommandLinePosix
  import CommandLineNormal

  class CommandLine {
    const platform: Platform
    var argv: seq<string>
    var switches: map<string, string>
    var beginArgs: nat

    ghost predicate Valid()
      reads this
    {
      Divided(Value())
    }

    function Value(): Line
      reads this
    {
      Line(argv, switches, beginArgs)
    }

    /** CommandLine(NO_PROGRAM) */
    constructor (platform: Platform)
      ensures Valid() && Value() == EMPTY && this.platform == platform
    {
      this.platform := platform;
      argv := [""];
      switches := map[];
      beginArgs := 1;
    }

    method InitFromArgv(newArgv: seq<string>)
      modifies this
      ensures Valid() && Value() == CommandLineSpec.InitFromArgv(platform, newArgv)
    {
      argv := [""];
      switches := map[];
      beginArgs := 1;
      SetProgram(if newArgv == [] then "" else newArgv[0]);
      AppendSwitchesAndArguments(newArgv);
    }

    method SetProgram(program: string)
      requires Valid()
      modifies this`argv
      ensures Valid() && Value() == CommandLineSpec.SetProgram(platform, old(Value()), program)
    {
      argv := argv[0 := Trim(platform, program)];
    }

    method AppendSwitchNative(name: string, value: string)
      requires Valid()
      modifies this
      ensures Valid() && Value() == AppendSwitch(platform, old(Value()), name, value)
    {
      var key := Normalize(platform, name);
      var combined := key;
      var prefixLength := PrefixLength(platform, combined);
      switches := switches[key[prefixLength..] := value];
      if prefixLength == 0 {
        combined := "--" + combined;
      }
      if value != "" {
        combined := combined + ("=" + value);
      }
      assert "" + key == key;
      assert combined + "" == combined;
      assert combined == Element(platform, name, value);
      argv := argv[..beginArgs] + [combined] + argv[beginArgs..];
      beginArgs := beginArgs + 1;
    }

    method AppendArgNative(value: string)
      requires Valid()
      modifies this`argv
      ensures Valid() && Value() == AppendArg(old(Value()), value)
    {
      argv := argv + [value];
    }

    /** Appends what follows the program in `other`, keeping switches before arguments. */
    method AppendSwitchesAndArguments(other: seq<string>)
      requires Valid()
      modifies this
      ensures Valid() && Value() == ParseInto(platform, old(Value()), Tail(other), true)
    {
      hide Trim, IsSwitch, SwitchString, SwitchValue, AppendSwitch, AppendArg;
      var parseSwitches := true;
      var i := 1;
      while i < |other|
        invariant 1 <= i && (other != [] ==> i <= |other|)
        invariant Valid()
        invariant ParseInto(platform, Value(), if i <= |other| then other[i..] else [], parseSwitches) ==
                  ParseInto(platform, old(Value()), Tail(other), true)
      {
        var arg := Trim(platform, other[i]);
        assert other[i..][1..] == other[i + 1..];
        parseSwitches := parseSwitches && arg != TERMINATOR;
        if parseSwitches && IsSwitch(platform, arg) {
          AppendSwitchNative(SwitchString(arg), SwitchValue(arg));
        } else {
          AppendArgNative(arg);
        }
        i := i + 1;
      }
    }

    /** Erases the switch from the map and every element with its key from the vector. */
    method RemoveSwitch(key: string)
      requires Valid()
      modifies this
      ensures Valid() && Value() == CommandLineSpec.RemoveSwitch(platform, old(Value()), key)
    {
      hide IsSwitchWithKey;
      if key !in switches {
        return;
      }
      switches := switches - {key};
      var kept, i := [], 1;
      while i < beginArgs
        invariant 1 <= i <= beginArgs
        invariant kept == Kept(platform, argv[1..i], key)
      {
        ghost var seen := argv[1..i + 1];
        assert seen[..i - 1] == argv[1..i] && seen[i - 1] == argv[i];
        if !IsSwitchWithKey(platform, argv[i], key) {
          kept := kept + [argv[i]];
        }
        i := i + 1;
      }
      argv := [argv[0]] + kept + argv[beginArgs..];
      beginArgs := 1 + |kept|;
    }

    /** The arguments after the switches, less the first "--". */
    method GetArgs() returns (args: seq<string>)
      requires Valid()
      ensures args == CommandLineSpec.GetArgs(Value())
      ensures CommandLineNormal.DropsFirst(argv[beginArgs..], args)
    {
      CommandLineNormal.GetArgsDropsFirst(Value());
      hide WithoutFirst, CommandLineNormal.DropsFirst;
      args := argv[beginArgs..];
      var i := 0;
      while i < |args| && args[i] != TERMINATOR
        invariant i <= |args|
        invariant TERMINATOR !in args[..i]
      {
        assert args[..i + 1] == args[..i] + [args[i]];
        i := i + 1;
      }
      CommandLineNormal.WithoutFirstAt(args, i, TERMINATOR);
      if i < |args| {
        args := args[..i] + args[i + 1..];
      }
    }

    /** GetArgumentsStringInternal */
    method GetArgumentsString(placeholders: bool) returns (params: string)
      requires Valid()
      ensures params == Print(platform, argv[1..], placeholders, true)
      ensures platform.Posix? ==> params == Spaced(Bared(argv[1..], true))
    {
      if platform.Posix? {
        PrintPosix(argv[1..], placeholders);
      }
      hide Printed, Print, Joined, Spaced, Bared, HasBare;
      params := "";
      var parseSwitches := true;
      var i := 1;
      JoinedEnds(platform, argv[1..], placeholders, true);
      while i < |argv|
        invariant 1 <= i <= |argv|
        invariant params + Joined(platform, argv[i..], placeholders, parseSwitches, i > 1) ==
                  Print(platform, argv[1..], placeholders, true)
      {
        assert argv[i..][1..] == argv[i + 1..];
        JoinedStep(platform, argv[i..], placeholders, parseSwitches, i > 1);
        ghost var before := params;
        parseSwitches := parseSwitches && argv[i] != TERMINATOR;
        if i > 1 {
          params := params + " ";
        }
        var shown := PrintElement(argv[i], placeholders, parseSwitches);
        ghost var rest := Joined(platform, argv[i + 1..], placeholders, parseSwitches, true);
        Regroup(before, if i > 1 then " " else "", shown, rest);
        params := params + shown;
        i := i + 1;
      }
      assert argv[i..] == [];
      JoinedEnds(platform, argv[1..], placeholders, parseSwitches);
    }

    method PrintElement(arg: string, placeholders: bool, parseSwitches: bool) returns (out: string)
      ensures out == Printed(platform, arg, placeholders, parseSwitches)
    {
      hide Quote;
      if parseSwitches && IsSwitch(platform, arg) {
        out := SwitchString(arg);
        var value := SwitchValue(arg);
        if value != "" {
          if platform.Windows? {
            value := QuoteForCommandLineToArgvW(value, placeholders);
          }
          out := out + ("=" + value);
        }
      } else {
        out := arg;
        if platform.Windows? {
          out := QuoteForCommandLineToArgvW(arg, placeholders);
        }
      }
    }
  }

  /** The printed elements, with a separating space first when something precedes them. */
  ghost function Joined(p: Platform, es: seq<string>, placeholders: bool, on: bool, after: bool): string {
    (if after && es != [] then " " else "") + Print(p, es, placeholders, on)
  }

  lemma JoinedStep(p: Platform, es: seq<string>, placeholders: bool, on: bool, after: bool)
    requires es != []
    ensures var on' := on && es[0] != TERMINATOR;
            Joined(p, es, placeholders, on, after) ==
              (if after then " " else "") + Printed(p, es[0], placeholders, on')
              + Joined(p, es[1..], placeholders, on', true)
  {
    hide Printed;
    var on' := on && es[0] != TERMINATOR;
    var x, y := Printed(p, es[0], placeholders, on'), Joined(p, es[1..], placeholders, on', true);
    assert Print(p, es, placeholders, on) == x + y;
    Assoc(if after then " " else "", x, y);
  }

  lemma JoinedEnds(p: Platform, es: seq<string>, placeholders: bool, on: bool)
    ensures "" + Joined(p, es, placeholders, on, false) == Print(p, es, placeholders, on)
    ensures forall s: string, after :: s + Joined(p, [], placeholders, on, after) == s
  {
    hide Printed;
    assert forall s: string :: s + "" == s;
  }

  lemma Regroup(a: string, b: string, c: string, d: string)
    ensures a + (b + c + d) == a + b + c + d
    ensures b == "" ==> a + b == a
  {
  }

  lemma {:induction false} EscapeRun(n: nat, rest: string, m: nat)
    ensures Escape(Backslashes(n) + rest, m) == Escape(rest, m + n)
    decreases n
  {
    if n == 0 {
      assert Backslashes(0) + rest == rest;
    } else {
      assert Backslashes(n) + rest == Backslashes(n - 1) + ("\\" + rest);
      EscapeRun(n - 1, "\\" + rest, m);
      assert ("\\" + rest)[1..] == rest;
    }
  }

  lemma {:induction false} DoubleBackslashes(a: nat, b: nat)
    ensures Backslashes(a) + Backslashes(b) == Backslashes(a + b)
  {
    if b == 0 {
      assert Backslashes(a) + "" == Backslashes(a);
    } else {
      DoubleBackslashes(a, b - 1);
      assert Backslashes(a) + (Backslashes(b - 1) + "\\") == (Backslashes(a) + Backslashes(b - 1)) + "\\";
    }
  }

  /** A whole run of backslashes is escaped at once: doubled before a double quote and at
      the end, kept otherwise. */
  lemma EscapeWholeRun(n: nat, rest: string)
    requires rest == "" || rest[0] != '\\'
    ensures Escape(Backslashes(n) + rest, 0) ==
            Backslashes(if rest == "" || rest[0] == '"' then 2 * n else n) + Escape(rest, 0)
  {
    EscapeRun(n, rest, 0);
    if rest == "" {
      assert Backslashes(2 * n) + Backslashes(0) == Backslashes(2 * n);
    } else if rest[0] == '"' {
      DoubleBackslashes(2 * n, 1);
      var e := Escape(rest[1..], 0);
      assert Backslashes(2 * n) + (Backslashes(1) + "\"" + e) == (Backslashes(2 * n) + Backslashes(1)) + "\"" + e;
    } else {
      var e := Escape(rest[1..], 0);
      assert Backslashes(n) + (Backslashes(0) + [rest[0]] + e) == Backslashes(n) + [rest[0]] + e;
    }
  }

  /** Where the run of backslashes that starts at `start` ends. */
  method EndOfRun(arg: string, start: nat) returns (end: nat)
    requires start < |arg| && arg[start] == '\\'
    ensures start < end <= |arg|
    ensures arg[start..] == Backslashes(end - start) + arg[end..]
    ensures end < |arg| ==> arg[end] != '\\'
  {
    hide Backslashes;
    end := start + 1;
    RunOf(1);
    while end < |arg| && arg[end] == '\\'
      invariant start < end <= |arg|
      invariant arg[start..end] == Backslashes(end - start)
    {
      RunOf(end - start + 1);
      assert arg[start..end + 1] == arg[start..end] + "\\";
      end := end + 1;
    }
    assert arg[start..] == arg[start..end] + arg[end..];
  }

  method PushBackslashes(before: string, count: nat) returns (out: string)
    ensures out == before + Backslashes(count)
  {
    hide Backslashes;
    out := before;
    var j := 0;
    RunOf(0);
    while j < count
      invariant j <= count
      invariant out == before + Backslashes(j)
    {
      RunOf(j + 1);
      Assoc(before, Backslashes(j), "\\");
      out := out + "\\";
      j := j + 1;
    }
  }

  method QuoteForCommandLineToArgvW(arg: string, placeholders: bool) returns (out: string)
    ensures out == Quote(arg, placeholders)
  {
    hide Escape, Backslashes, HasQuotable;
    if !HasQuotable(arg, placeholders) {
      return arg;
    }
    out := "\"";
    var i := 0;
    assert arg[0..] == arg;
    while i < |arg|
      invariant i <= |arg|
      invariant out + Escape(arg[i..], 0) == "\"" + Escape(arg, 0)
    {
      ghost var before := out;
      if arg[i] == '\\' {
        var end := EndOfRun(arg, i);
        var count := end - i;
        EscapeWholeRun(count, arg[end..]);
        if end == |arg| || arg[end] == '"' {
          count := count * 2;
        }
        out := PushBackslashes(out, count);
        Assoc(before, Backslashes(count), Escape(arg[end..], 0));
        i := end;
      } else {
        EscapeOne(arg[i..]);
        assert arg[i..][1..] == arg[i + 1..];
        var piece := if arg[i] == '"' then "\\\"" else [arg[i]];
        out := out + piece;
        Assoc(before, piece, Escape(arg[i + 1..], 0));
        i := i + 1;
      }
    }
    assert arg[i..] == "";
    EscapeEnd();
    assert out + "" == out;
    out := out + "\"";
  }

  lemma RunOf(n: nat)
    ensures Backslashes(n) == if n == 0 then "" else Backslashes(n - 1) + "\\"
    ensures n == 1 ==> Backslashes(n) == "\\"
  {
    assert Backslashes(0) + "\\" == "\\";
  }

  lemma EscapeOne(s: string)
    requires s != "" && s[0] != '\\'
    ensures Escape(s, 0) == (if s[0] == '"' then "\\\"" else [s[0]]) + Escape(s[1..], 0)
  {
    assert Backslashes(1) == Backslashes(0) + "\\" == "\\";
    assert Backslashes(0) + [s[0]] == [s[0]];
  }

  lemma EscapeEnd()
    ensures Escape("", 0) == ""
  {
  }
}
