/** The string a CommandLine prints on Posix, where nothing is quoted. */
module CommandLinePosix {
  import opened Common
  import opened CommandLineSpec
  import opened CommandLinePrint

  /** The texts, separated by single spaces. */
  function Spaced(es: seq<string>): string {
    if es == [] then ""
    else es[0] + if |es| == 1 then "" else " " + Spaced(es[1..])
  }

  /** A switch whose only '=' is its last character. */
  predicate BareSwitch(e: string) {
    IsSwitch(Posix, e) && e != "" && e[|e| - 1] == '=' && '=' !in e[..|e| - 1]
  }

  /** The elements, where a bare switch that is recognised, that is before the first "--",
      loses its '='. */
  function Bared(es: seq<string>, on: bool): (r: seq<string>)
    ensures |r| == |es|
    decreases |es|
  {
    if es == [] then []
    else
      var on' := on && es[0] != "--";
      [if on' && BareSwitch(es[0]) then es[0][..|es[0]| - 1] else es[0]] + Bared(es[1..], on')
  }

  /** Some bare switch comes before the first "--". */
  ghost predicate HasBare(es: seq<string>) {
    exists i :: 0 <= i < |es| && BareSwitch(es[i]) && "--" !in es[..i + 1]
  }

  lemma PrintedPosix(e: string, placeholders: bool, on: bool)
    ensures Printed(Posix, e, placeholders, on) == if on && BareSwitch(e) then e[..|e| - 1] else e
  {
    if on && IsSwitch(Posix, e) {
      var n := EqualsAt(e);
      SwitchParts(Posix, e);
      if BareSwitch(e) {
        assert n >= |e| - 1;
      } else if '=' in e {
        assert n < |e| - 1;
        assert SwitchValue(e) != "";
      } else {
        assert SwitchString(e) + "" == SwitchString(e);
      }
    }
  }

  lemma {:induction false} PrintPosixFrom(es: seq<string>, placeholders: bool, on: bool)
    ensures Print(Posix, es, placeholders, on) == Spaced(Bared(es, on))
    decreases |es|
  {
    hide Printed, BareSwitch;
    if es != [] {
      var on' := on && es[0] != "--";
      PrintedPosix(es[0], placeholders, on');
      PrintPosixFrom(es[1..], placeholders, on');
      assert Bared(es, on)[1..] == Bared(es[1..], on');
    }
  }

  lemma {:induction false} BaredShorter(es: seq<string>, on: bool)
    ensures |Spaced(Bared(es, on))| <= |Spaced(es)|
    ensures |Spaced(Bared(es, on))| == |Spaced(es)| <==> Bared(es, on) == es
    decreases |es|
  {
    hide BareSwitch;
    if es != [] {
      var on' := on && es[0] != "--";
      BaredShorter(es[1..], on');
      var b := Bared(es, on);
      assert b[1..] == Bared(es[1..], on');
      assert es == [es[0]] + es[1..] && b == [b[0]] + b[1..];
      assert |b[0]| <= |es[0]| && (|b[0]| == |es[0]| <==> b[0] == es[0]) by { BareNotEmpty(es[0]); }
    }
  }

  lemma BareNotEmpty(e: string)
    ensures BareSwitch(e) ==> e != ""
  {
  }

  lemma {:induction false} BaredSame(es: seq<string>, on: bool)
    ensures Bared(es, on) == es <==> !(on && HasBare(es))
    decreases |es|
  {
    hide BareSwitch;
    if es != [] {
      var on', rest := on && es[0] != "--", es[1..];
      BaredSame(rest, on');
      BareNotEmpty(es[0]);
      assert es == [es[0]] + rest;
      assert Bared(es, on)[1..] == Bared(rest, on');
      assert es[..1] == [es[0]];
      forall i | 0 <= i < |rest| ensures es[..i + 2] == [es[0]] + rest[..i + 1] && rest[i] == es[i + 1] {}
      if HasBare(rest) && es[0] != "--" {
        var i :| 0 <= i < |rest| && BareSwitch(rest[i]) && "--" !in rest[..i + 1];
        assert "--" !in es[..i + 2] && BareSwitch(es[i + 1]);
      }
      if HasBare(es) {
        var i :| 0 <= i < |es| && BareSwitch(es[i]) && "--" !in es[..i + 1];
        assert es[0] != "--" by { assert es[..i + 1][0] == es[0]; }
        if i > 0 {
          assert BareSwitch(rest[i - 1]) && "--" !in rest[..i];
        }
      }
    }
  }

  /** GetArgumentsString() on Posix: the elements after the program separated by single
      spaces, where a bare switch before the first "--" loses its '='.  That changes the
      string whenever there is one, and placeholders play no part. */
  lemma {:induction false} PrintPosix(es: seq<string>, placeholders: bool)
    ensures Print(Posix, es, placeholders, true) == Spaced(Bared(es, true))
    ensures Print(Posix, es, placeholders, true) == Spaced(es) <==> !HasBare(es)
    ensures Print(Posix, es, placeholders, true) == Print(Posix, es, !placeholders, true)
  {
    hide BareSwitch, Print, Spaced, Bared, HasBare;
    PrintPosixFrom(es, placeholders, true);
    PrintPosixFrom(es, !placeholders, true);
    BaredShorter(es, true);
    BaredSame(es, true);
  }
}
