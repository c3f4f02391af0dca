/** What a CommandLine holds and what parsing and editing do to it, as values.

    Strings are sequences of characters on both platforms.  The switch prefixes, the
    lower-casing of switch names and the set of characters trimmed depend on the
    platform. */
module CommandLineSpec {
  import opened Common

  datatype Platform = Posix | Windows(slashIsSwitch: bool)

  const TERMINATOR := "--"

  // ---------------------------------------------------------------- trimming

  predicate IsAsciiSpace(c: char) {
    var n := c as int;
    0x09 <= n <= 0x0D || n == 0x20
  }

  predicate IsSpace(p: Platform, c: char) {
    var n := c as int;
    IsAsciiSpace(c) ||
    (p.Windows? && (n in {0x85, 0xA0, 0x1680, 0x2028, 0x2029, 0x202F, 0x205F, 0x3000} || 0x2000 <= n <= 0x200A))
  }

  function TrimLeft(p: Platform, s: string): (r: string)
    ensures |r| <= |s| && r == s[|s| - |r|..]
    ensures r != "" ==> !IsSpace(p, r[0])
    ensures s != "" && !IsSpace(p, s[0]) ==> r == s
  {
    if s != "" && IsSpace(p, s[0]) then TrimLeft(p, s[1..]) else s
  }

  function TrimRight(p: Platform, s: string): (r: string)
    ensures |r| <= |s| && r == s[..|r|]
    ensures r != "" ==> !IsSpace(p, r[|r| - 1])
    ensures s != "" && !IsSpace(p, s[|s| - 1]) ==> r == s
  {
    if s != "" && IsSpace(p, s[|s| - 1]) then TrimRight(p, s[..|s| - 1]) else s
  }

  /** TrimWhitespace(…, TRIM_ALL). */
  function Trim(p: Platform, s: string): string {
    TrimRight(p, TrimLeft(p, s))
  }

  predicate IsTrimmed(p: Platform, s: string) {
    s != "" ==> !IsSpace(p, s[0]) && !IsSpace(p, s[|s| - 1])
  }

  /** Trimming cuts a trimmed string out of its argument, and leaves exactly the trimmed
      strings alone. */
  lemma TrimFacts(p: Platform, s: string)
    ensures IsTrimmed(p, Trim(p, s))
    ensures Trim(p, s) == s <==> IsTrimmed(p, s)
    ensures |Trim(p, s)| <= |s|
    ensures Trim(p, Trim(p, s)) == Trim(p, s)
  {
    var l := TrimLeft(p, s);
    var t := Trim(p, s);
    if t != "" {
      assert t[0] == l[0];
    }
    TrimFixed(p, t);
    if IsTrimmed(p, s) {
      TrimFixed(p, s);
    }
  }

  lemma TrimFixed(p: Platform, s: string)
    requires IsTrimmed(p, s)
    ensures Trim(p, s) == s
  {
  }

  lemma {:induction false} TrimLeftBounds(p: Platform, s: string)
    ensures forall i :: 0 <= i < |s| - |TrimLeft(p, s)| ==> IsSpace(p, s[i])
  {
    if s != "" && IsSpace(p, s[0]) {
      TrimLeftBounds(p, s[1..]);
      forall i | 1 <= i < |s| - |TrimLeft(p, s)| ensures IsSpace(p, s[i]) {
        assert s[i] == s[1..][i - 1];
      }
    }
  }

  lemma {:induction false} TrimRightBounds(p: Platform, s: string)
    ensures forall i :: |TrimRight(p, s)| <= i < |s| ==> IsSpace(p, s[i])
  {
    if s != "" && IsSpace(p, s[|s| - 1]) {
      TrimRightBounds(p, s[..|s| - 1]);
    }
  }

  /** Trimming cuts off white space at the two ends and nothing else. */
  lemma TrimBounds(p: Platform, s: string) returns (a: nat, b: nat)
    ensures a <= b <= |s| && Trim(p, s) == s[a..b]
    ensures forall i :: 0 <= i < a || b <= i < |s| ==> IsSpace(p, s[i])
  {
    var l := TrimLeft(p, s);
    TrimLeftBounds(p, s);
    TrimRightBounds(p, l);
    a := |s| - |l|;
    b := a + |Trim(p, s)|;
  }

  /** kWhitespaceASCII and kWhitespaceUTF16, character by character. */
  lemma SpaceTable(p: Platform, c: char)
    ensures var ascii := [9, 10, 11, 12, 13, 32];
      var wide := [0x85, 0xA0, 0x1680, 0x2000, 0x2001, 0x2002, 0x2003, 0x2004, 0x2005, 0x2006, 0x2007, 0x2008,
                   0x2009, 0x200A, 0x2028, 0x2029, 0x202F, 0x205F, 0x3000];
      IsSpace(p, c) <==> c as int in ascii || (p.Windows? && c as int in wide)
  {
  }

  // ------------------------------------------------------- recognising switches

  function PrefixLength(p: Platform, s: string): (n: nat)
    ensures n <= |s|
    ensures forall i :: 0 <= i < n ==> s[i] == '-' || s[i] == '/'
  {
    if "--" <= s then 2
    else if "-" <= s then 1
    else if p.Windows? && p.slashIsSwitch && "/" <= s then 1
    else 0
  }

  /** kSwitchPrefixes; the slash can be turned off. */
  function Prefixes(p: Platform): seq<string> {
    if p.Windows? && p.slashIsSwitch then ["--", "-", "/"] else ["--", "-"]
  }

  /** The prefix of a text is the longest of the switch prefixes that it starts with. */
  lemma LongestPrefix(p: Platform, s: string)
    ensures var n := PrefixLength(p, s);
      && (n == 0 || s[..n] in Prefixes(p))
      && forall i :: 0 <= i < |Prefixes(p)| && Prefixes(p)[i] <= s ==> |Prefixes(p)[i]| <= n
  {
    var n := PrefixLength(p, s);
    if n == 2 {
      assert s[..n] == Prefixes(p)[0];
    } else if n == 1 {
      assert s[..n] == "-" || s[..n] == "/";
      assert s[..n] == "-" ==> s[..n] == Prefixes(p)[1];
      assert s[..n] == "/" ==> p.Windows? && p.slashIsSwitch && s[..n] == Prefixes(p)[2];
    }
  }

  /** The position of the first '=', or the length. */
  function EqualsAt(s: string): (n: nat)
    ensures n <= |s|
    ensures n < |s| ==> s[n] == '='
    ensures '=' !in s[..n]
    ensures n == |s| <==> '=' !in s
  {
    if s == "" || s[0] == '=' then 0
    else
      assert s == [s[0]] + s[1..];
      var n := EqualsAt(s[1..]);
      assert s[..n + 1] == [s[0]] + s[1..][..n];
      n + 1
  }

  predicate IsSwitch(p: Platform, s: string) {
    PrefixLength(p, s) != 0 && PrefixLength(p, s) != |s|
  }

  function SwitchString(s: string): string {
    s[..EqualsAt(s)]
  }

  function SwitchValue(s: string): string {
    if EqualsAt(s) < |s| then s[EqualsAt(s) + 1..] else ""
  }

  /** What follows the prefix of a switch name. */
  function KeyOf(p: Platform, name: string): string {
    name[PrefixLength(p, name)..]
  }

  lemma PrefixBeforeEquals(p: Platform, s: string)
    ensures PrefixLength(p, s) <= EqualsAt(s)
    ensures PrefixLength(p, SwitchString(s)) == PrefixLength(p, s)
  {
    var n := EqualsAt(s);
    if n < |s| {
      assert s[n] == '=';
    } else {
      assert s[..n] == s;
    }
  }

  predicate IsSwitchWithKey(p: Platform, s: string, key: string) {
    IsSwitch(p, s) && KeyOf(p, SwitchString(s)) == key
  }

  // ----------------------------------------------------------------- the value

  datatype Line = Line(argv: seq<string>, switches: map<string, string>, begin: nat)

  ghost predicate Divided(l: Line) {
    1 <= l.begin <= |l.argv|
  }

  const EMPTY := Line([""], map[], 1)

  function Lower(s: string): (r: string)
    ensures |r| == |s|
    ensures forall i :: 0 <= i < |s| ==> r[i] == if 'A' <= s[i] <= 'Z' then (s[i] as int + 32) as char else s[i]
  {
    seq(|s|, i requires 0 <= i < |s| => if 'A' <= s[i] <= 'Z' then (s[i] as int + 32) as char else s[i])
  }

  function Normalize(p: Platform, name: string): (r: string)
    ensures |r| == |name|
  {
    if p.Windows? then Lower(name) else name
  }

  /** Lower-casing a switch name keeps its prefix and its '=' signs. */
  lemma NormalizeFacts(p: Platform, name: string)
    ensures Normalize(p, Normalize(p, name)) == Normalize(p, name)
    ensures PrefixLength(p, Normalize(p, name)) == PrefixLength(p, name)
    ensures '=' in Normalize(p, name) <==> '=' in name
  {
    var r := Normalize(p, name);
    assert forall i :: 0 <= i < |name| && name[i] in "-/=" ==> r[i] == name[i];
    assert forall i :: 0 <= i < |name| && r[i] in "-/=" ==> r[i] == name[i];
    if '=' in name {
      var i :| 0 <= i < |name| && name[i] == '=';
      assert r[i] == '=';
    }
  }

  /** Lower-casing keeps white space where it is. */
  lemma NormalizeSpaces(p: Platform, name: string, i: nat)
    requires i < |name|
    ensures IsSpace(p, Normalize(p, name)[i]) == IsSpace(p, name[i])
  {
  }

  /** A switch name with the prefix it gets in argv_. */
  function Stem(p: Platform, name: string): string {
    var key := Normalize(p, name);
    (if PrefixLength(p, key) == 0 then "--" else "") + key
  }

  lemma StemFacts(p: Platform, name: string)
    requires '=' !in name
    ensures '=' !in Stem(p, name)
    ensures PrefixLength(p, Stem(p, name)) > 0
    ensures KeyOf(p, Stem(p, name)) == KeyOf(p, Normalize(p, name))
  {
    NormalizeFacts(p, name);
    var key := Normalize(p, name);
    if PrefixLength(p, key) == 0 {
      assert Stem(p, name)[..2] == "--";
    } else {
      assert Stem(p, name) == key;
    }
  }

  /** The element AppendSwitchNative puts into argv_. */
  function Element(p: Platform, name: string, value: string): string {
    Stem(p, name) + if value != "" then "=" + value else ""
  }

  function AppendSwitch(p: Platform, l: Line, name: string, value: string): Line
    requires l.begin <= |l.argv|
  {
    var key := Normalize(p, name);
    Line(l.argv[..l.begin] + [Element(p, name, value)] + l.argv[l.begin..],
         l.switches[KeyOf(p, key) := value],
         l.begin + 1)
  }

  /** What AppendSwitchNative stores, with the name as given on Posix and lower-cased on
      Windows: the name without its prefix is the key, and the element is the name with its
      own prefix, or "--" if it has none, followed by '=' and the value if there is one. */
  lemma StoredSwitch(p: Platform, l: Line, name: string, value: string)
    requires Divided(l)
    ensures var r := AppendSwitch(p, l, name, value);
      var shown := if p.Windows? then Lower(name) else name;
      var rest := if value == "" then "" else "=" + value;
      var prefix := if "--" <= shown then "--" else if "-" <= shown then "-"
                    else if p == Windows(true) && "/" <= shown then "/" else "";
      && r.argv == l.argv[..l.begin] + [(if prefix == "" then "--" else "") + shown + rest] + l.argv[l.begin..]
      && r.begin == l.begin + 1
      && r.switches == l.switches[shown[|prefix|..] := value]
  {
  }

  function AppendArg(l: Line, value: string): Line {
    l.(argv := l.argv + [value])
  }

  /** The elements that are not switches with key `key`, in order. */
  function Kept(p: Platform, elements: seq<string>, key: string): seq<string> {
    if elements == [] then []
    else
      var n := |elements| - 1;
      Kept(p, elements[..n], key) + if IsSwitchWithKey(p, elements[n], key) then [] else [elements[n]]
  }

  function RemoveSwitch(p: Platform, l: Line, key: string): Line
    requires Divided(l)
  {
    if key !in l.switches then l
    else
      var kept := Kept(p, l.argv[1..l.begin], key);
      Line([l.argv[0]] + kept + l.argv[l.begin..], l.switches - {key}, 1 + |kept|)
  }

  function SetProgram(p: Platform, l: Line, program: string): Line
    requires |l.argv| > 0
  {
    l.(argv := l.argv[0 := Trim(p, program)])
  }

  /** AppendSwitchesAndArguments on the elements after the program; `switchesOn` turns
      off at the first terminator. */
  function ParseInto(p: Platform, l: Line, args: seq<string>, switchesOn: bool): (r: Line)
    requires l.begin <= |l.argv|
    ensures r.begin <= |r.argv| && l.begin <= r.begin && |l.argv| <= |r.argv|
    ensures l.begin > 0 ==> r.argv[0] == l.argv[0]
    decreases |args|
  {
    if args == [] then l
    else
      var arg := Trim(p, args[0]);
      var on := switchesOn && arg != TERMINATOR;
      if on && IsSwitch(p, arg)
      then ParseInto(p, AppendSwitch(p, l, SwitchString(arg), SwitchValue(arg)), args[1..], on)
      else ParseInto(p, AppendArg(l, arg), args[1..], on)
  }

  function Tail(argv: seq<string>): seq<string> {
    if argv == [] then [] else argv[1..]
  }

  function InitFromArgv(p: Platform, argv: seq<string>): (r: Line)
    ensures Divided(r)
  {
    ParseInto(p, SetProgram(p, EMPTY, if argv == [] then "" else argv[0]), Tail(argv), true)
  }

  function AppendArguments(p: Platform, l: Line, other: seq<string>, includeProgram: bool): (r: Line)
    requires Divided(l) && |other| > 0
    ensures Divided(r)
  {
    ParseInto(p, if includeProgram then SetProgram(p, l, other[0]) else l, Tail(other), true)
  }

  function WithoutFirst(s: seq<string>, x: string): seq<string> {
    if s == [] then []
    else if s[0] == x then s[1..]
    else [s[0]] + WithoutFirst(s[1..], x)
  }

  /** GetArgs(): everything after the switches, less the first terminator. */
  function GetArgs(l: Line): seq<string>
    requires Divided(l)
  {
    WithoutFirst(l.argv[l.begin..], TERMINATOR)
  }
}
