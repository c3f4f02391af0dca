/** Quoting arguments for CommandLineToArgvW, and the splitter that CommandLineToArgvW
    is: arguments are delimited by blanks, a double quote opens and closes a part in
    which blanks do not delimit, 2n backslashes before a double quote are n backslashes
    and the quote delimits, 2n+1 are n backslashes and the quote is literal, and other
    backslashes are literal.  `doubled` says whether a pair of double quotes inside a
    quoted part is read as one literal quote; the results hold under both readings. */
module CommandLineQuote {

  predicate IsBlank(c: char) {
    c == ' ' || c == '\t'
  }

  function Backslashes(n: nat): (r: string)
    ensures |r| == n
  {
    if n == 0 then "" else Backslashes(n - 1) + "\\"
  }

  // ----------------------------------------------------------------- quoting

  predicate HasQuotable(s: string, placeholders: bool) {
    ' ' in s || '\\' in s || '"' in s || (placeholders && '%' in s)
  }

  /** What goes between the quotes for a run of `run` backslashes followed by `a`:
      backslashes are doubled before a double quote and before the closing one. */
  function Escape(a: string, run: nat): string
    decreases |a|
  {
    if a == "" then Backslashes(2 * run)
    else if a[0] == '\\' then Escape(a[1..], run + 1)
    else if a[0] == '"' then Backslashes(2 * run + 1) + "\"" + Escape(a[1..], 0)
    else Backslashes(run) + [a[0]] + Escape(a[1..], 0)
  }

  function Quote(a: string, placeholders: bool): string {
    if HasQuotable(a, placeholders) then "\"" + Escape(a, 0) + "\"" else a
  }

  lemma {:induction false} EscapeLonger(a: string, run: nat)
    ensures |Escape(a, run)| >= |a| + run
    decreases |a|
  {
    hide Backslashes;
    if a != "" {
      EscapeLonger(a[1..], if a[0] == '\\' then run + 1 else 0);
    }
  }

  /** A text is left alone exactly if it holds no space, backslash or double quote, nor a
      percent sign when placeholders are to be quoted; any other is put between quotes. */
  lemma {:induction false} QuotedExactly(a: string, placeholders: bool)
    ensures Quote(a, placeholders) == a <==>
      ' ' !in a && '\\' !in a && '\"' !in a && (placeholders ==> '%' !in a)
    ensures Quote(a, placeholders) != a ==>
      var q := Quote(a, placeholders); |q| >= |a| + 2 && q[0] == '\"' && q[|q| - 1] == '\"'
  {
    EscapeLonger(a, 0);
    hide Escape;
  }

  // --------------------------------------------------------------- splitting

  /** `Closed`: a quoted part has just ended, and a double quote right here would make it
      a pair. */
  datatype Mode = Outside | Inside | Closed

  /** How far one argument has been read: its text so far, the mode, the backslashes that
      still wait to see what follows them, and the rest of the input if a blank ended it. */
  datatype Scan = Scan(text: string, mode: Mode, waiting: nat, rest: string)

  function After(s: string, r: Scan): Scan {
    r.(text := s + r.text)
  }

  function Read(s: string, mode: Mode, waiting: nat, doubled: bool): (r: Scan)
    ensures |r.text| + r.waiting + |r.rest| <= |s| + waiting
    ensures |r.rest| <= |s|
    ensures s != "" && !IsBlank(s[0]) ==> |r.rest| < |s|
    decreases |s|
  {
    if s == "" then Scan("", mode, waiting, "")
    else
      var c, t := s[0], s[1..];
      if c == '\\' then Read(t, if mode == Inside then Inside else Outside, waiting + 1, doubled)
      else if c == '"' then
        if waiting % 2 == 1 then After(Backslashes(waiting / 2) + "\"", Read(t, mode, 0, doubled))
        else if mode == Closed then After(Backslashes(waiting / 2) + "\"", Read(t, Inside, 0, doubled))
        else
          After(Backslashes(waiting / 2),
                Read(t, if mode == Outside then Inside else if doubled then Closed else Outside, 0, doubled))
      else if mode != Inside && IsBlank(c) then Scan(Backslashes(waiting), Outside, 0, s)
      else After(Backslashes(waiting) + [c], Read(t, if mode == Inside then Inside else Outside, 0, doubled))
  }

  /** The argument, if the input ends here. */
  function Text(r: Scan): string {
    r.text + Backslashes(r.waiting)
  }

  function SkipBlanks(s: string): (r: string)
    ensures |r| <= |s|
    ensures r != "" ==> !IsBlank(r[0])
    ensures s != "" && !IsBlank(s[0]) ==> r == s
  {
    if s != "" && IsBlank(s[0]) then SkipBlanks(s[1..]) else s
  }

  /** The arguments of a command line, after the program. */
  function Split(s: string, doubled: bool): seq<string>
    decreases |s|
  {
    var t := SkipBlanks(s);
    if t == "" then []
    else
      var r := Read(t, Outside, 0, doubled);
      [Text(r)] + Split(r.rest, doubled)
  }

  // -------------------------------------------------- facts about reading

  /** Reading on into `r`. */
  function Then(a: Scan, r: string, doubled: bool): Scan {
    if a.rest != "" then a.(rest := a.rest + r) else After(a.text, Read(r, a.mode, a.waiting, doubled))
  }

  lemma AfterThen(x: string, a: Scan, r: string, d: bool)
    ensures Then(After(x, a), r, d) == After(x, Then(a, r, d))
  {
    hide Read;
    if a.rest == "" {
      var t := Read(r, a.mode, a.waiting, d).text;
      assert (x + a.text) + t == x + (a.text + t);
    }
  }

  /** A string can be read piece by piece. */
  lemma {:induction false} ReadInPieces(w: string, r: string, m: Mode, n: nat, d: bool)
    ensures Read(w + r, m, n, d) == Then(Read(w, m, n, d), r, d)
    decreases |w|
  {
    if w == "" {
      assert w + r == r;
      assert "" + Read(r, m, n, d).text == Read(r, m, n, d).text;
    } else {
      var c, t := w[0], w[1..];
      assert (w + r)[0] == c && (w + r)[1..] == t + r;
      var m' := if m == Inside then Inside else Outside;
      if c == '\\' {
        ReadInPieces(t, r, m', n + 1, d);
      } else if c == '"' {
        var m'' := if n % 2 == 1 then m else if m == Closed || m == Outside then Inside else if d then Closed else Outside;
        var x := Backslashes(n / 2) + if n % 2 == 1 || m == Closed then "\"" else "";
        assert Backslashes(n / 2) + "" == Backslashes(n / 2);
        ReadInPieces(t, r, m'', 0, d);
        AfterThen(x, Read(t, m'', 0, d), r, d);
      } else if !(m != Inside && IsBlank(c)) {
        ReadInPieces(t, r, m', 0, d);
        AfterThen(Backslashes(n) + [c], Read(t, m', 0, d), r, d);
      }
    }
  }

  /** A run of backslashes waits. */
  lemma {:induction false} ReadRun(k: nat, r: string, n: nat, d: bool)
    ensures Read(Backslashes(k) + r, Inside, n, d) == Read(r, Inside, n + k, d)
    decreases k
  {
    if k == 0 {
      assert Backslashes(0) + r == r;
    } else {
      assert Backslashes(k) + r == Backslashes(k - 1) + ("\\" + r);
      ReadRun(k - 1, "\\" + r, n, d);
      assert ("\\" + r)[1..] == r;
    }
  }

  lemma ReadChar(c: char, t: string, m: Mode, n: nat, d: bool)
    requires c != '\\' && c != '"' && m != Closed && (m == Inside || !IsBlank(c))
    ensures Read([c] + t, m, n, d) == After(Backslashes(n) + [c], Read(t, m, 0, d))
  {
    assert ([c] + t)[1..] == t;
  }

  lemma ReadMark(t: string, n: nat, d: bool)
    ensures Read("\"" + t, Inside, 2 * n + 1, d) == After(Backslashes(n) + "\"", Read(t, Inside, 0, d))
    ensures Read("\"" + t, Inside, 2 * n, d) == After(Backslashes(n), Read(t, if d then Closed else Outside, 0, d))
    ensures Read("\"" + t, Outside, 0, d) == After("", Read(t, Inside, 0, d))
  {
    assert ("\"" + t)[1..] == t;
  }

  lemma ReadStops(r: string, m: Mode, d: bool)
    requires (r == "" || IsBlank(r[0])) && m != Inside
    ensures Read(r, m, 0, d).(mode := m) == Scan("", m, 0, r)
    ensures r != "" ==> Read(r, m, 0, d).mode == Outside
  {
  }

  lemma TextAfter(x: string, r: Scan)
    ensures Text(After(x, r)) == x + Text(r)
  {
    assert (x + r.text) + Backslashes(r.waiting) == x + (r.text + Backslashes(r.waiting));
  }

  /** Reading back what Escape wrote, from just after the opening quote, gives the argument
      and stops right behind the closing quote. */
  lemma {:induction false} ReadEscaped(a: string, n: nat, r: string, d: bool)
    requires r == "" || r[0] == ' '
    ensures var x := Read(Escape(a, n) + "\"" + r, Inside, 0, d);
            Text(x) == Backslashes(n) + a && x.rest == r
    decreases |a|
  {
    hide Read, Text, Backslashes;
    var s := Escape(a, n) + "\"" + r;
    if a == "" {
      assert s == Backslashes(2 * n) + ("\"" + r);
      ReadRun(2 * n, "\"" + r, 0, d);
      ReadMark(r, n, d);
      var m := if d then Closed else Outside;
      ReadStops(r, m, d);
      TextAfter(Backslashes(n), Read(r, m, 0, d));
      EmptyText(Read(r, m, 0, d));
    } else if a[0] == '\\' {
      ReadEscaped(a[1..], n + 1, r, d);
      OneMore(n, a[1..]);
      assert a == "\\" + a[1..];
    } else {
      ReadEscapedChar(a, n, r, d);
    }
  }

  lemma {:induction false} ReadEscapedChar(a: string, n: nat, r: string, d: bool)
    requires (r == "" || r[0] == ' ') && a != "" && a[0] != '\\'
    ensures var x := Read(Escape(a, n) + "\"" + r, Inside, 0, d);
            Text(x) == Backslashes(n) + a && x.rest == r
    decreases |a|, 0
  {
    hide Read, Text, Backslashes, Escape;
    var c, b := a[0], a[1..];
    var k := if c == '"' then 2 * n + 1 else n;
    var t := Escape(b, 0) + "\"" + r;
    var x := Read(t, Inside, 0, d);
    ReadEscaped(b, 0, r, d);
    NoBackslashes();
    assert Text(x) == b;
    EscapeFirst(a, n, "\"" + r);
    Assoc(Escape(a, n), "\"", r);
    Assoc(Escape(b, 0), "\"", r);
    ReadRun(k, [c] + t, 0, d);
    if c == '"' { ReadMark(t, n, d); } else { ReadChar(c, t, Inside, n, d); }
    TextAfter(Backslashes(n) + [c], x);
    Assoc(Backslashes(n), [c], b);
    assert a == [c] + b;
  }

  lemma Assoc(a: string, b: string, c: string)
    ensures (a + b) + c == a + (b + c)
  {
  }

  lemma EscapeFirst(a: string, n: nat, r: string)
    requires a != "" && a[0] != '\\'
    ensures Escape(a, n) + r ==
            Backslashes(if a[0] == '"' then 2 * n + 1 else n) + ([a[0]] + (Escape(a[1..], 0) + r))
  {
    hide Backslashes;
    var k := Backslashes(if a[0] == '"' then 2 * n + 1 else n);
    var e := Escape(a[1..], 0);
    assert Escape(a, n) == k + [a[0]] + e;
    Assoc(k, [a[0]], e + r);
    Assoc(k + [a[0]], e, r);
  }

  lemma NoBackslashes()
    ensures Backslashes(0) == ""
  {
  }

  lemma OneMore(n: nat, t: string)
    ensures Backslashes(n + 1) + t == Backslashes(n) + ("\\" + t)
  {
  }

  lemma EmptyText(r: Scan)
    requires r.text == "" && r.waiting == 0
    ensures Text(r) == ""
  {
  }

  /** A quoted argument reads back, whatever backslashes and quotes it holds. */
  lemma ReadQuoted(a: string, r: string, placeholders: bool, d: bool)
    requires (r == "" || r[0] == ' ') && HasQuotable(a, placeholders)
    ensures var x := Read(Quote(a, placeholders) + r, Outside, 0, d);
            Text(x) == a && x.rest == r
  {
    hide Read, Text, Escape, Backslashes;
    var t := Escape(a, 0) + "\"" + r;
    assert Quote(a, placeholders) + r == "\"" + t;
    ReadMark(t, 0, d);
    ReadEscaped(a, 0, r, d);
    TextAfter("", Read(t, Inside, 0, d));
    NoBackslashes();
  }

  /** The position of the first blank, or the length. */
  function BlankAt(s: string): (n: nat)
    ensures n <= |s|
    ensures n < |s| ==> IsBlank(s[n])
    ensures forall i :: 0 <= i < n ==> !IsBlank(s[i])
  {
    if s == "" || IsBlank(s[0]) then 0 else 1 + BlankAt(s[1..])
  }

  /** Outside quotes and without double quotes, reading takes everything literally up to
      the first blank. */
  lemma {:induction false} ReadPlain(w: string, n: nat, d: bool)
    requires '"' !in w
    ensures var k := BlankAt(w);
            var x := Read(w, Outside, n, d);
            x.mode == Outside && Text(x) == Backslashes(n) + w[..k] && x.rest == w[k..]
    decreases |w|
  {
    hide Read, Text, Backslashes, BlankAt;
    var k := BlankAt(w);
    if w == "" || IsBlank(w[0]) {
      ReadNothing(w, n, d);
    } else {
      var c, t := w[0], w[1..];
      var j := BlankAt(t);
      BlankStep(c, t);
      assert w == [c] + t && w[..k] == [c] + t[..j] && w[k..] == t[j..];
      if c == '\\' {
        ReadPlain(t, n + 1, d);
        ReadBackslash(t, n, d);
        OneMore(n, t[..j]);
      } else {
        ReadPlain(t, 0, d);
        ReadChar(c, t, Outside, n, d);
        TextAfter(Backslashes(n) + [c], Read(t, Outside, 0, d));
        NoBackslashes();
        assert Text(Read(t, Outside, 0, d)) == t[..j];
        Assoc(Backslashes(n), [c], t[..j]);
      }
    }
  }

  lemma BlankStep(c: char, t: string)
    requires !IsBlank(c)
    ensures BlankAt([c] + t) == 1 + BlankAt(t)
  {
    assert ([c] + t)[1..] == t;
  }

  lemma ReadBackslash(t: string, n: nat, d: bool)
    ensures Read("\\" + t, Outside, n, d) == Read(t, Outside, n + 1, d)
  {
    assert ("\\" + t)[1..] == t;
  }

  lemma ReadNothing(w: string, n: nat, d: bool)
    requires w == "" || IsBlank(w[0])
    ensures BlankAt(w) == 0
    ensures var x := Read(w, Outside, n, d);
            x.mode == Outside && Text(x) == Backslashes(n) + w[..0] && x.rest == w[0..]
  {
    assert Backslashes(n) + Backslashes(0) == Backslashes(n) + w[..0];
    assert "" + Backslashes(n) == Backslashes(n) + w[..0];
  }

  /** A double quote costs text: a string that holds one and is read to its end reads to a
      shorter text. */
  lemma {:induction false} QuoteLosesText(w: string, m: Mode, n: nat, d: bool)
    requires '"' in w && m != Closed && Read(w, m, n, d).rest == ""
    ensures |Text(Read(w, m, n, d))| < |w| + n
    decreases |w|
  {
    var c, t := w[0], w[1..];
    assert w == [c] + t;
    var m' := if m == Inside then Inside else Outside;
    if c == '\\' {
      QuoteLosesText(t, m', n + 1, d);
    } else if c != '"' {
      QuoteLosesText(t, m', 0, d);
    }
  }

  /** Without a double quote the mode cannot become Inside. */
  lemma {:induction false} InsideNeedsQuote(w: string, m: Mode, n: nat, d: bool)
    requires '"' !in w && m != Inside
    ensures Read(w, m, n, d).mode != Inside
    decreases |w|
  {
    if w != "" {
      var c, t := w[0], w[1..];
      if c == '\\' {
        InsideNeedsQuote(t, Outside, n + 1, d);
      } else if !IsBlank(c) {
        InsideNeedsQuote(t, Outside, 0, d);
      }
    }
  }
}
