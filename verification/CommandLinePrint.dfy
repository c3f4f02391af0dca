/** The string a CommandLine prints for its switches and arguments, and exactly when
    splitting that string gives them back. */
module CommandLinePrint {
  import opened Common
  import opened CommandLineSpec
  import opened CommandLineQuote
  import opened CommandLineNormal

  // ----------------------------------------------------------------- printing

  function Shown(p: Platform, s: string, placeholders: bool): string {
    if p.Windows? then Quote(s, placeholders) else s
  }

  /** One element of argv_; `on` tells whether switches are still recognised at it. */
  function Printed(p: Platform, e: string, placeholders: bool, on: bool): string {
    if on && IsSwitch(p, e)
    then SwitchString(e) + if SwitchValue(e) != "" then "=" + Shown(p, SwitchValue(e), placeholders) else ""
    else Shown(p, e, placeholders)
  }

  /** GetArgumentsString() on the elements after the program. */
  function Print(p: Platform, es: seq<string>, placeholders: bool, on: bool): string
    decreases |es|
  {
    if es == [] then ""
    else
      var on' := on && es[0] != TERMINATOR;
      Printed(p, es[0], placeholders, on') + if |es| == 1 then "" else " " + Print(p, es[1..], placeholders, on')
  }

  /** A text that survives printing: not empty, and if it holds a tab it also holds a
      character that makes it be quoted. */
  predicate Survives(v: string, placeholders: bool) {
    v != "" && ('\t' in v ==> HasQuotable(v, placeholders))
  }

  predicate CleanName(name: string) {
    ' ' !in name && '\t' !in name && '"' !in name
  }

  /** An element that is printed so that it can be split off again: a switch needs a name
      without blanks and double quotes, and no empty value after an '='. */
  predicate Printable(p: Platform, e: string, placeholders: bool, on: bool) {
    if on && IsSwitch(p, e)
    then CleanName(SwitchString(e)) && ('=' in e ==> Survives(SwitchValue(e), placeholders))
    else Survives(e, placeholders)
  }

  predicate AllPrintable(p: Platform, es: seq<string>, placeholders: bool, on: bool)
    decreases |es|
  {
    es != [] ==>
      var on' := on && es[0] != TERMINATOR;
      Printable(p, es[0], placeholders, on') && AllPrintable(p, es[1..], placeholders, on')
  }

  // ------------------------------------------------ where a character comes out

  /** A character that is read after `w` appears right behind the text of `w`. */
  lemma EmitAt(w: string, c: char, r: string, d: bool)
    requires c != '\\' && c != '"'
    requires Read(w, Outside, 0, d).rest == "" && (Read(w, Outside, 0, d).mode == Inside || !IsBlank(c))
    ensures var t := Text(Read(w, Outside, 0, d));
            var x := Read(w + ([c] + r), Outside, 0, d);
            t + [c] <= Text(x) && t + [c] <= x.text
  {
    var a := Read(w, Outside, 0, d);
    ReadInPieces(w, [c] + r, Outside, 0, d);
    assert ([c] + r)[1..] == r;
    var y := Read(r, if a.mode == Inside then Inside else Outside, 0, d);
    assert Read([c] + r, a.mode, a.waiting, d) == After(Backslashes(a.waiting) + [c], y);
    hide Read, Backslashes;
    var x := Read(w + ([c] + r), Outside, 0, d);
    var b := Backslashes(a.waiting);
    Assoc(b, [c], y.text);
    Assoc(a.text, b, [c] + y.text);
    assert x.text == Text(a) + ([c] + y.text);
  }

  /** A blank that is read outside quotes ends the argument. */
  lemma StopAt(w: string, r: string, d: bool)
    requires r == "" || IsBlank(r[0])
    requires Read(w, Outside, 0, d).rest == "" && Read(w, Outside, 0, d).mode != Inside
    ensures var x := Read(w + r, Outside, 0, d);
            Text(x) == Text(Read(w, Outside, 0, d)) && x.rest == r
  {
    var a := Read(w, Outside, 0, d);
    ReadInPieces(w, r, Outside, 0, d);
    if r == "" {
      assert a.text + "" == a.text;
    } else {
      assert a.text + Backslashes(a.waiting) + Backslashes(0) == a.text + Backslashes(a.waiting);
    }
  }

  /** If reading ends inside `w`, what follows `w` does not matter. */
  lemma EndsInside(w: string, r: string, d: bool)
    requires Read(w, Outside, 0, d).rest != ""
    ensures Text(Read(w + r, Outside, 0, d)) == Text(Read(w, Outside, 0, d))
    ensures |Text(Read(w + r, Outside, 0, d))| < |w|
  {
    ReadInPieces(w, r, Outside, 0, d);
  }

  // --------------------------------------------------------- printable elements

  /** A text without blanks and double quotes is read literally. */
  lemma ReadWord(w: string, d: bool)
    requires CleanName(w)
    ensures var x := Read(w, Outside, 0, d);
            x.mode == Outside && Text(x) == w && x.rest == ""
  {
    hide Read, Text;
    assert BlankAt(w) == |w|;
    ReadPlain(w, 0, d);
    NoBackslashes();
    assert w[..|w|] == w && "" + w == w;
  }

  lemma ShownReads(v: string, placeholders: bool, r: string, d: bool)
    requires (r == "" || r[0] == ' ') && Survives(v, placeholders)
    ensures var x := Read(Quote(v, placeholders) + r, Outside, 0, d);
            Text(x) == v && x.rest == r
  {
    hide Read, Text, Escape;
    if HasQuotable(v, placeholders) {
      ReadQuoted(v, r, placeholders, d);
    } else {
      ReadWord(v, d);
      StopAt(v, r, d);
    }
  }

  /** A name followed by '=' and a shown value. */
  lemma NameValueReads(name: string, v: string, placeholders: bool, r: string, d: bool)
    requires CleanName(name) && (r == "" || r[0] == ' ') && Survives(v, placeholders)
    ensures var x := Read(name + "=" + Quote(v, placeholders) + r, Outside, 0, d);
            Text(x) == name + "=" + v && x.rest == r
  {
    var w := name + "=";
    var s := Quote(v, placeholders) + r;
    ReadNameEquals(name, d);
    ReadInPieces(w, s, Outside, 0, d);
    ShownReads(v, placeholders, r, d);
    hide Read, Quote;
    Assoc(w, Quote(v, placeholders), r);
    TextAfter(w, Read(s, Outside, 0, d));
  }

  lemma ReadNameEquals(name: string, d: bool)
    requires CleanName(name)
    ensures Read(name + "=", Outside, 0, d) == Scan(name + "=", Outside, 0, "")
  {
    ReadWord(name, d);
    var a := Read(name, Outside, 0, d);
    ReadInPieces(name, "=", Outside, 0, d);
    ReadChar('=', "", Outside, a.waiting, d);
    assert "=" + "" == "=";
    hide Read;
    assert a.text + (Backslashes(a.waiting) + "=" + "") == Text(a) + "=";
  }

  /** A switch is its name, and if it holds an '=' that sign and its value. */
  lemma SwitchParts(p: Platform, e: string)
    requires IsSwitch(p, e)
    ensures var name := SwitchString(e);
            && e == name + (if '=' in e then "=" + SwitchValue(e) else "")
            && '=' !in name && ('=' !in e ==> SwitchValue(e) == "")
            && name != "" && name[0] in "-/"
  {
    PrefixBeforeEquals(p, e);
  }

  lemma {:induction false} PrintedSwitchReads(p: Platform, e: string, placeholders: bool, r: string, d: bool)
    requires p.Windows? && IsSwitch(p, e) && Printable(p, e, placeholders, true) && (r == "" || r[0] == ' ')
    ensures var x := Read(Printed(p, e, placeholders, true) + r, Outside, 0, d);
            Text(x) == e && x.rest == r
  {
    hide Read, Text, Quote, SwitchString, SwitchValue, IsSwitch;
    var name, value := SwitchString(e), SwitchValue(e);
    SwitchParts(p, e);
    if '=' in e {
      NameValueReads(name, value, placeholders, r, d);
      Assoc(name, "=", Quote(value, placeholders));
      Assoc(name, "=", value);
    } else {
      ReadWord(name, d);
      StopAt(name, r, d);
      assert name + "" == name;
    }
  }

  /** A printable element reads back from its printed form. */
  lemma PrintedReads(p: Platform, e: string, placeholders: bool, on: bool, r: string, d: bool)
    requires p.Windows? && Printable(p, e, placeholders, on) && (r == "" || r[0] == ' ')
    ensures var s := Printed(p, e, placeholders, on);
            var x := Read(s + r, Outside, 0, d);
            && Text(x) == e && x.rest == r
            && s != "" && !IsBlank(s[0])
  {
    hide Read, Text, Quote, SwitchString, SwitchValue, IsSwitch;
    if on && IsSwitch(p, e) {
      SwitchParts(p, e);
      PrintedSwitchReads(p, e, placeholders, r, d);
    } else {
      ShownReads(e, placeholders, r, d);
      FirstOfQuote(e, placeholders);
    }
  }

  lemma FirstOfQuote(v: string, placeholders: bool)
    requires Survives(v, placeholders)
    ensures Quote(v, placeholders) != "" && !IsBlank(Quote(v, placeholders)[0])
  {
  }

  // ------------------------------------------------------ what is not printable

  /** The first argument of `s`, or nothing. */
  function First(s: string, d: bool): Option<string> {
    var t := SkipBlanks(s);
    if t == "" then None else Some(Text(Read(t, Outside, 0, d)))
  }

  lemma {:induction false} SkipAllBlanks(w: string, r: string)
    requires forall i :: 0 <= i < |w| ==> IsBlank(w[i])
    ensures SkipBlanks(w + r) == SkipBlanks(r)
  {
    if w == "" {
      assert w + r == r;
    } else {
      assert (w + r)[1..] == w[1..] + r;
      SkipAllBlanks(w[1..], r);
    }
  }

  /** The first non-blank character of a text that starts no quote and no escape comes out
      first. */
  lemma FirstStartsWith(c: char, r: string, d: bool)
    requires c != '\\' && c != '"' && !IsBlank(c)
    ensures First([c] + r, d).Some? && [c] <= First([c] + r, d).value
  {
    EmitAt("", c, r, d);
    assert "" + ([c] + r) == [c] + r;
    assert Text(Read("", Outside, 0, d)) + [c] == [c];
  }

  /** The position of the first character that is not a blank, or the length. */
  function NonBlankAt(s: string): (n: nat)
    ensures n <= |s|
    ensures n < |s| ==> !IsBlank(s[n])
    ensures forall i :: 0 <= i < n ==> IsBlank(s[i])
  {
    if s == "" || !IsBlank(s[0]) then 0 else 1 + NonBlankAt(s[1..])
  }

  /** Whatever is printed, the first argument found in it is not empty, and if it starts
      with a tab it was quoted. */
  lemma {:induction false} FirstOfPrint(p: Platform, es: seq<string>, placeholders: bool, on: bool, d: bool)
    requires p.Windows?
    ensures var f := First(Print(p, es, placeholders, on), d);
            f.Some? ==> f.value != "" && (f.value[0] == '\t' ==> HasQuotable(f.value, placeholders))
    decreases |es|
  {
    hide Read, Text, Quote, IsSwitch, SwitchString, SwitchValue, Survives, Printed;
    if es != [] {
      var e := es[0];
      var on' := on && e != TERMINATOR;
      var r := if |es| == 1 then "" else " " + Print(p, es[1..], placeholders, on');
      FirstOfPrinted(p, e, placeholders, on', r, d);
      if on' && IsSwitch(p, e) {
      } else if !HasQuotable(e, placeholders) && NonBlankAt(e) == |e| && |es| > 1 {
        SkipAllBlanks(" ", Print(p, es[1..], placeholders, on'));
        FirstOfPrint(p, es[1..], placeholders, on', d);
      }
    }
  }

  lemma {:induction false} FirstOfPrinted(p: Platform, e: string, placeholders: bool, on: bool, r: string, d: bool)
    requires p.Windows? && (r == "" || r[0] == ' ')
    ensures var f := First(Printed(p, e, placeholders, on) + r, d);
            if (on && IsSwitch(p, e)) || HasQuotable(e, placeholders) || NonBlankAt(e) < |e|
            then f.Some? && f.value != "" && (f.value[0] == '\t' ==> HasQuotable(f.value, placeholders))
            else f == First(r, d)
  {
    hide Read, Text, IsSwitch, SwitchString, SwitchValue, Quote, HasQuotable, First;
    var s := Printed(p, e, placeholders, on);
    if on && IsSwitch(p, e) {
      SwitchParts(p, e);
      var name := SwitchString(e);
      var x := if SwitchValue(e) != "" then "=" + Shown(p, SwitchValue(e), placeholders) else "";
      Assoc(name, x, r);
      FirstOfName(name, x + r, d);
    } else if HasQuotable(e, placeholders) {
      FirstOfQuoted(e, placeholders, r, d);
    } else {
      FirstOfWord(e, placeholders, r, d);
    }
  }

  lemma FirstOfName(name: string, x: string, d: bool)
    requires name != "" && name[0] in "-/"
    ensures First(name + x, d).Some? && [name[0]] <= First(name + x, d).value
  {
    hide First;
    Cut(name, 0, x);
    assert name[..0] + ([name[0]] + (name[1..] + x)) == [name[0]] + (name[1..] + x);
    FirstStartsWith(name[0], name[1..] + x, d);
  }

  lemma Cut(e: string, j: nat, r: string)
    requires j < |e|
    ensures e + r == e[..j] + ([e[j]] + (e[j + 1..] + r))
  {
  }

  lemma FirstOfQuoted(e: string, placeholders: bool, r: string, d: bool)
    requires (r == "" || r[0] == ' ') && HasQuotable(e, placeholders)
    ensures First(Quote(e, placeholders) + r, d) == Some(e) && e != ""
  {
    hide Read, Text;
    ReadQuoted(e, r, placeholders, d);
  }

  lemma {:induction false} FirstOfWord(e: string, placeholders: bool, r: string, d: bool)
    requires !HasQuotable(e, placeholders)
    ensures Quote(e, placeholders) == e
    ensures var j := NonBlankAt(e);
            if j < |e| then First(e + r, d).Some? && [e[j]] <= First(e + r, d).value else First(e + r, d) == First(r, d)
  {
    hide Read, Text, SkipBlanks;
    NoQuotes(e, placeholders);
    var j := NonBlankAt(e);
    if j < |e| {
      Cut(e, j, r);
      SkipAllBlanks(e[..j], [e[j]] + (e[j + 1..] + r));
      FirstStartsWith(e[j], e[j + 1..] + r, d);
    } else {
      SkipAllBlanks(e, r);
    }
  }

  /** A word that does not survive printing is not what is read first. */
  lemma LostWord(e: string, placeholders: bool, r: string, d: bool)
    requires (r == "" || r[0] == ' ') && !Survives(e, placeholders)
    requires First(r, d).Some? ==> var f := First(r, d).value; f != "" && (f[0] == '\t' ==> HasQuotable(f, placeholders))
    ensures First(Quote(e, placeholders) + r, d) != Some(e)
  {
    hide Read, Text, HasQuotable;
    if e == "" {
      FirstOfNothing(placeholders, r);
    } else {
      var j := NonBlankAt(e);
      FirstOfWord(e, placeholders, r, d);
      NoQuotes(e, placeholders);
      if j == 0 {
        assert BlankAt(e) < |e|;
        ReadPlain(e, 0, d);
        EndsInside(e, r, d);
        assert First(e + r, d) == Some(Text(Read(e + r, Outside, 0, d)));
      }
    }
  }

  lemma NoQuotes(e: string, placeholders: bool)
    requires !HasQuotable(e, placeholders)
    ensures '"' !in e && ' ' !in e && '\\' !in e
  {
  }

  lemma FirstOfNothing(placeholders: bool, r: string)
    ensures Quote("", placeholders) + r == r
  {
  }

  /** The position of the first space. */
  function SpaceAt(s: string): (n: nat)
    requires ' ' in s
    ensures n < |s| && s[n] == ' '
    ensures forall i :: 0 <= i < n ==> s[i] != ' '
  {
    if s[0] == ' ' then 0
    else
      assert s == [s[0]] + s[1..];
      1 + SpaceAt(s[1..])
  }

  /** When a text with spaces is read to its end, its first space comes out earlier than it
      stands, because a double quote before it was lost. */
  lemma SpaceComesEarly(name: string, d: bool) returns (at: nat)
    requires ' ' in name && Read(name, Outside, 0, d).rest == ""
    ensures at < SpaceAt(name)
    ensures at < |Read(name, Outside, 0, d).text| && Read(name, Outside, 0, d).text[at] == ' '
  {
    var s := SpaceAt(name);
    var w, r := name[..s], name[s + 1..];
    assert name == w + ([' '] + r);
    var a := Read(w, Outside, 0, d);
    if a.rest != "" {
      ReadInPieces(w, [' '] + r, Outside, 0, d);
      assert false;
    } else if a.mode != Inside {
      StopAt(w, [' '] + r, d);
      assert false;
    } else {
      hide Read;
      if '"' !in w {
        InsideNeedsQuote(w, Outside, 0, d);
        assert false;
      }
      QuoteLosesText(w, Outside, 0, d);
      EmitAt(w, ' ', r, d);
      at := |Text(a)|;
    }
  }

  /** A name with a double quote, printed raw, does not read back: the text falls behind at
      the quote and cannot catch up. */
  lemma LostQuotedName(name: string, x: string, e: string, d: bool)
    requires '"' in name && '=' !in name && name <= e
    requires x == "" || x[0] == '=' || x[0] == ' '
    ensures Text(Read(name + x, Outside, 0, d)) != e
  {
    hide Read;
    var a := Read(name, Outside, 0, d);
    if a.rest != "" {
      EndsInside(name, x, d);
    } else {
      QuoteLosesText(name, Outside, 0, d);
      var t := Text(a);
      assert e[|t|] == name[|t|];
      if x == "" {
        assert name + x == name;
      } else if x[0] == ' ' && a.mode != Inside {
        StopAt(name, x, d);
      } else {
        assert x == [x[0]] + x[1..];
        EmitAt(name, x[0], x[1..], d);
        var y := Read(name + x, Outside, 0, d);
        assert Text(y)[|t|] == x[0];
        if name[|t|] == x[0] {
          var at := SpaceComesEarly(name, d);
          ReadInPieces(name, x, Outside, 0, d);
          assert Text(y)[at] == ' ' && e[at] == name[at] != ' ';
        }
      }
    }
  }

  /** A switch that is not printable is not what is read first. */
  lemma {:induction false} LostSwitch(p: Platform, e: string, placeholders: bool, r: string, d: bool)
    requires p.Windows? && (r == "" || r[0] == ' ')
    requires IsSwitch(p, e) && !Printable(p, e, placeholders, true)
    ensures Text(Read(Printed(p, e, placeholders, true) + r, Outside, 0, d)) != e
  {
    hide Read, Text, Quote, SwitchString, SwitchValue, IsSwitch, Survives, HasQuotable;
    var name, value := SwitchString(e), SwitchValue(e);
    SwitchParts(p, e);
    var tail := if value != "" then "=" + Quote(value, placeholders) else "";
    var x := tail + r;
    Assoc(name, tail, r);
    if '"' in name {
      LostQuotedName(name, x, e, d);
    } else if !CleanName(name) {
      assert BlankAt(name) < |name|;
      ReadPlain(name, 0, d);
      EndsInside(name, x, d);
    } else if value == "" {
      ReadWord(name, d);
      StopAt(name, r, d);
      assert x == r;
    } else {
      LostValue(name, value, placeholders, r, d);
      Assoc(name, "=", Quote(value, placeholders));
      Assoc(name, "=", value);
    }
  }

  lemma LostValue(name: string, value: string, placeholders: bool, r: string, d: bool)
    requires CleanName(name) && value != "" && !Survives(value, placeholders)
    ensures Text(Read(name + "=" + Quote(value, placeholders) + r, Outside, 0, d)) != name + "=" + value
  {
    hide Read, Text;
    var w := name + "=" + value;
    assert '"' !in w;
    assert '\t' in w by {
      var i :| 0 <= i < |value| && value[i] == '\t';
      assert w[|name| + 1 + i] == '\t';
    }
    assert BlankAt(w) < |w|;
    ReadPlain(w, 0, d);
    EndsInside(w, r, d);
  }

  // -------------------------------------------------------------- the theorem

  lemma SplitFirst(s: string, d: bool)
    ensures match First(s, d)
            case None => Split(s, d) == []
            case Some(f) => Split(s, d) != [] && Split(s, d)[0] == f
  {
  }

  /** What is printed for a command line splits back, under the rules of
      CommandLineToArgvW, into exactly its elements after the program if and only if every
      one of them is printable. */
  lemma {:induction false} SplitInvertsPrint(p: Platform, es: seq<string>, placeholders: bool, on: bool, d: bool)
    requires p.Windows?
    ensures Split(Print(p, es, placeholders, on), d) == es <==> AllPrintable(p, es, placeholders, on)
    decreases |es|
  {
    hide Read, Text, Printed, Printable;
    var s := Print(p, es, placeholders, on);
    if es != [] {
      var e := es[0];
      var on' := on && e != TERMINATOR;
      var rest := Print(p, es[1..], placeholders, on');
      var r := if |es| == 1 then "" else " " + rest;
      if Printable(p, e, placeholders, on') {
        SplitInvertsPrint(p, es[1..], placeholders, on', d);
        PrintedReads(p, e, placeholders, on', r, d);
        SplitBlank(rest, d);
        assert es == [e] + es[1..];
        assert Split(s, d) == [e] + Split(rest, d);
      } else {
        FirstOfPrint(p, es[1..], placeholders, on', d);
        NotPrintable(p, e, placeholders, on', r, rest, d);
        SplitFirst(s, d);
      }
    }
  }

  lemma SplitBlank(s: string, d: bool)
    ensures Split(" " + s, d) == Split(s, d)
    ensures First(" " + s, d) == First(s, d)
  {
    SkipAllBlanks(" ", s);
  }

  lemma NotPrintable(p: Platform, e: string, placeholders: bool, on: bool, r: string, rest: string, d: bool)
    requires p.Windows? && !Printable(p, e, placeholders, on) && (r == "" || r == " " + rest)
    requires var f := First(rest, d);
             f.Some? ==> f.value != "" && (f.value[0] == '\t' ==> HasQuotable(f.value, placeholders))
    ensures First(Printed(p, e, placeholders, on) + r, d) != Some(e)
  {
    hide Read, Text, Quote, SwitchString, SwitchValue, IsSwitch, Survives, HasQuotable;
    SplitBlank(rest, d);
    if on && IsSwitch(p, e) {
      SwitchParts(p, e);
      LostSwitch(p, e, placeholders, r, d);
    } else {
      LostWord(e, placeholders, r, d);
    }
  }

  /** A parsed command line whose switches are settled and whose elements are printable
      survives the trip through a string: printing, splitting and parsing again give the
      same vector, the same switches and the same divider. */
  lemma {:induction false} StringRoundTrip(p: Platform, argv: seq<string>, placeholders: bool, d: bool)
    requires p.Windows?
    requires AllSettled(p, Tail(argv), true)
    requires AllPrintable(p, Tail(InitFromArgv(p, argv).argv), placeholders, true)
    ensures var l := InitFromArgv(p, argv);
            InitFromArgv(p, [l.argv[0]] + Split(Print(p, Tail(l.argv), placeholders, true), d)) == l
  {
    hide AllSettled, AllPrintable, Split, Print, InitFromArgv;
    var l := InitFromArgv(p, argv);
    NormalForm(p, argv);
    SplitInvertsPrint(p, Tail(l.argv), placeholders, true, d);
    assert l.argv == [l.argv[0]] + Tail(l.argv);
  }

  /** The trip through a string gives back the elements, and they parse to the same command
      line, exactly when the switches are settled and the elements are printable. */
  lemma StringRoundTripExact(p: Platform, argv: seq<string>, placeholders: bool, d: bool)
    requires p.Windows?
    ensures var l := InitFromArgv(p, argv);
      var back := Split(Print(p, Tail(l.argv), placeholders, true), d);
      (back == Tail(l.argv) && InitFromArgv(p, [l.argv[0]] + back) == l)
      <==> (AllSettled(p, Tail(argv), true) && AllPrintable(p, Tail(l.argv), placeholders, true))
  {
    hide AllSettled, AllPrintable, Split, Print, InitFromArgv;
    var l := InitFromArgv(p, argv);
    NormalForm(p, argv);
    SplitInvertsPrint(p, Tail(l.argv), placeholders, true, d);
    assert l.argv == [l.argv[0]] + Tail(l.argv);
  }

  /** An empty argument is printed as nothing. */
  lemma EmptyIsLost(p: Platform, placeholders: bool, d: bool)
    requires p.Windows?
    ensures Split(Print(p, [""], placeholders, true), d) != [""]
  {
    hide Split, Print;
    assert !Printable(p, "", placeholders, true);
    assert !AllPrintable(p, [""], placeholders, true);
    SplitInvertsPrint(p, [""], placeholders, true, d);
  }
}
