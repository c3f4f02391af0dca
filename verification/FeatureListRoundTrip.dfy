/** Reading feature overrides is a first-wins fold, and printing then reading them gives
    the same overrides exactly when every entry printed is clean. */
module FeatureListRoundTrip {
  import opened Common
  import opened CommandLineSpec
  import opened FeatureListSpec

  // -------------------------------------------------------------- first wins

  lemma InsertAllAppend(m: Overrides, entries: seq<(string, Entry)>, e: (string, Entry))
    ensures InsertAll(m, entries + [e]) == Insert(InsertAll(m, entries), e.0, e.1)
  {
    assert (entries + [e])[..|entries|] == entries;
  }

  predicate IsFirst(entries: seq<(string, Entry)>, x: string, i: nat) {
    i < |entries| && entries[i].0 == x && forall j :: 0 <= j < i ==> entries[j].0 != x
  }

  lemma {:induction false} NamedOrKept(m: Overrides, entries: seq<(string, Entry)>, x: string)
    ensures x in m ==> x in InsertAll(m, entries) && InsertAll(m, entries)[x] == m[x]
    ensures x !in m ==> (x in InsertAll(m, entries) <==> exists i :: 0 <= i < |entries| && entries[i].0 == x)
  {
    if entries != [] {
      var k := |entries| - 1;
      NamedOrKept(m, entries[..k], x);
      assert forall i :: 0 <= i < k ==> entries[..k][i] == entries[i];
    }
  }

  lemma {:induction false} FirstTaken(m: Overrides, entries: seq<(string, Entry)>, x: string, i: nat)
    requires x !in m && IsFirst(entries, x, i)
    ensures x in InsertAll(m, entries) && InsertAll(m, entries)[x] == entries[i].1
  {
    var k := |entries| - 1;
    var front := entries[..k];
    if i < k {
      assert front[i] == entries[i] && forall j :: 0 <= j < i ==> front[j] == entries[j];
      FirstTaken(m, front, x, i);
    } else {
      NamedOrKept(m, front, x);
      assert forall j :: 0 <= j < k ==> front[j] == entries[j];
    }
  }

  /** What a name means after registration: what it meant before, or else the first entry
      registered for it, or else nothing. */
  lemma FirstWins(m: Overrides, entries: seq<(string, Entry)>, x: string)
    ensures x in m ==> x in InsertAll(m, entries) && InsertAll(m, entries)[x] == m[x]
    ensures x !in m ==> (x in InsertAll(m, entries) <==> exists i :: 0 <= i < |entries| && entries[i].0 == x)
    ensures forall i: nat :: IsFirst(entries, x, i) && x !in m ==> x in InsertAll(m, entries) && InsertAll(m, entries)[x] == entries[i].1
  {
    hide InsertAll, IsFirst;
    NamedOrKept(m, entries, x);
    forall i: nat | IsFirst(entries, x, i) && x !in m
      ensures x in InsertAll(m, entries) && InsertAll(m, entries)[x] == FirstValue(entries, x, i)
    {
      FirstTaken(m, entries, x, i);
    }
  }

  function FirstValue(entries: seq<(string, Entry)>, x: string, i: nat): Entry
    requires IsFirst(entries, x, i)
  {
    entries[i].1
  }

  lemma {:induction false} FirstNamed(entries: seq<(string, Entry)>, x: string, k: nat) returns (i: nat)
    requires k < |entries| && entries[k].0 == x
    ensures i <= k && IsFirst(entries, x, i)
    decreases k
  {
    if j :| 0 <= j < k && entries[j].0 == x {
      i := FirstNamed(entries, x, j);
    } else {
      i := k;
    }
  }

  /** InitializeFromCommandLine is the fold over the disabled entries followed by the
      enabled ones: a name listed in both is disabled. */
  lemma {:induction false} DisableWins(m: Overrides, enable: string, disable: string, trials: Trials, i: nat)
    requires i < |Split(disable)|
    ensures var e := ParsePiece(Split(disable)[i], Disable, trials);
      && e.0 in Initialize(m, enable, disable, trials)
      && (e.0 !in m ==> Initialize(m, enable, disable, trials)[e.0].state != Enable)
  {
    hide Split, InsertAll;
    var entries := Registered(enable, disable, trials);
    var x := entries[i].0;
    FirstWins(m, entries, x);
    var k := FirstNamed(entries, x, i);
    assert entries[k] == ParsePiece(Split(disable)[k], Disable, trials);
  }

  /** The entry at position `i` of both lists, read in the order of registration. */
  function PieceAt(enable: string, disable: string, i: nat): string
    requires i < |Split(disable)| + |Split(enable)|
  {
    if i < |Split(disable)| then Split(disable)[i] else Split(enable)[i - |Split(disable)|]
  }

  /** What a new FeatureList answers: the first entry naming the feature decides, with a
      leading '*' for the default and otherwise by the list it stands in; a feature that is
      not named has its default. */
  lemma FirstEntryDecides(enable: string, disable: string, trials: Trials, x: string, byDefault: bool)
    ensures var entries := Registered(enable, disable, trials);
      && (forall i: nat :: IsFirst(entries, x, i) ==>
            IsFeatureEnabled(Initialize(map[], enable, disable, trials), x, byDefault)
            == if "*" <= PieceAt(enable, disable, i) then byDefault else i >= |Split(disable)|)
      && ((forall i :: 0 <= i < |entries| ==> entries[i].0 != x) ==>
            IsFeatureEnabled(Initialize(map[], enable, disable, trials), x, byDefault) == byDefault)
  {
    hide Split, InsertAll, ParsePiece;
    var entries := Registered(enable, disable, trials);
    FirstWins(map[], entries, x);
    forall i: nat | IsFirst(entries, x, i)
      ensures IsFeatureEnabled(Initialize(map[], enable, disable, trials), x, byDefault)
           == if "*" <= PieceAt(enable, disable, i) then byDefault else i >= |Split(disable)|
    {
      PieceState(PieceAt(enable, disable, i), if i < |Split(disable)| then Disable else Enable, trials);
    }
  }

  lemma PieceState(piece: string, state: Override, trials: Trials)
    ensures ParsePiece(piece, state, trials).1.state == if "*" <= piece then UseDefault else state
  {
    var n := IndexOf(piece, '<');
    if piece != "" && n > 0 {
      assert piece[..n][0] == piece[0];
    }
  }

  /** A piece is a name, after a '*' if it asks for the default, and before a '<' and the
      name of a trial if it has one. */
  lemma {:induction false} PieceExact(head: string, rest: string, state: Override, trials: Trials)
    requires '<' !in head && (rest == "" || rest[0] == '<')
    ensures var trial := if rest != "" && rest[1..] in trials then Some(trials[rest[1..]]) else None;
      ParsePiece(head + rest, state, trials) ==
        if "*" <= head then (head[1..], Entry(UseDefault, trial, trial.Some?)) else (head, Entry(state, trial, trial.Some?))
  {
    hide IndexOf;
    PieceParts(head, rest, state, trials);
    assert (head + rest)[..|head|] == head;
    assert rest != "" ==> (head + rest)[|head| + 1..] == rest[1..];
  }

  /** What a new FeatureList knows of the first entry naming the feature: the trial it names,
      if that exists, and otherwise that the override is from the command line. */
  lemma FirstEntryTrial(enable: string, disable: string, trials: Trials, x: string, i: nat, head: string, rest: string)
    requires IsFirst(Registered(enable, disable, trials), x, i)
    requires PieceAt(enable, disable, i) == head + rest && '<' !in head && (rest == "" || rest[0] == '<')
    ensures var m := Initialize(map[], enable, disable, trials);
      var trial := if rest != "" && rest[1..] in trials then Some(trials[rest[1..]]) else None;
      && x == (if "*" <= head then head[1..] else head)
      && AssociatedTrial(m, x) == trial
      && forall state :: IsOverriddenFromCommandLine(m, x, state) <==>
           trial == None && state == if "*" <= head then UseDefault else if i < |Split(disable)| then Disable else Enable
  {
    hide Split, InsertAll, ParsePiece;
    FirstWins(map[], Registered(enable, disable, trials), x);
    PieceExact(head, rest, if i < |Split(disable)| then Disable else Enable, trials);
  }

  // -------------------------------------------------------- splitting a list

  lemma IndexOfAt(s: string, c: char, n: nat)
    requires n <= |s| && c !in s[..n] && (n < |s| ==> s[n] == c)
    ensures IndexOf(s, c) == n
  {
  }

  /** The texts, separated by commas. */
  function Commas(fields: seq<string>): string {
    if fields == [] then ""
    else fields[0] + if |fields| == 1 then "" else "," + Commas(fields[1..])
  }

  /** The fields are the parts of the text that its commas separate, all of them. */
  lemma {:induction false} FieldsExact(s: string)
    ensures Commas(Fields(s)) == s && Fields(s) != []
    ensures forall i :: 0 <= i < |Fields(s)| ==> ',' !in Fields(s)[i]
  {
    hide IndexOf;
    var n := IndexOf(s, ',');
    if n < |s| {
      FieldsExact(s[n + 1..]);
      assert s == s[..n] + ("," + s[n + 1..]);
      assert Fields(s)[1..] == Fields(s[n + 1..]);
    }
  }

  lemma {:induction false} FieldsAppend(a: string, b: string)
    ensures Fields(a + "," + b) == Fields(a) + Fields(b)
    decreases |a|
  {
    hide IndexOf;
    var n, s := IndexOf(a, ','), a + "," + b;
    assert s[..n] == a[..n];
    IndexOfAt(s, ',', n);
    if n == |a| {
      assert s[n + 1..] == b;
      assert a[..n] == a;
    } else {
      assert s[n + 1..] == a[n + 1..] + "," + b;
      FieldsAppend(a[n + 1..], b);
      assert [a[..n]] + Fields(a[n + 1..]) + Fields(b) == [a[..n]] + (Fields(a[n + 1..]) + Fields(b));
    }
  }

  lemma {:induction false} FieldsPlain(s: string, f: string)
    requires f in Fields(s)
    ensures ',' !in f && |f| <= |s|
    decreases |s|
  {
    hide IndexOf;
    var n := IndexOf(s, ',');
    if n == |s| {
      assert Fields(s) == [s];
    } else if f != s[..n] {
      var rest := Fields(s[n + 1..]);
      assert Fields(s) == [s[..n]] + rest;
      FieldsPlain(s[n + 1..], f);
    }
  }

  lemma {:induction false} TrimmedAppend(a: seq<string>, b: seq<string>)
    ensures Trimmed(a + b) == Trimmed(a) + Trimmed(b)
  {
    hide TrimmedOne;
    if b == [] {
      assert a + b == a;
    } else {
      var k := |b| - 1;
      TrimmedAppend(a, b[..k]);
      assert (a + b)[..|a| + k] == a + b[..k];
    }
  }

  lemma {:induction false} TrimmedFrom(fields: seq<string>, p: string) returns (f: string)
    requires p in Trimmed(fields)
    ensures p != "" && f in fields && Trim(Posix, f) == p
  {
    var k := |fields| - 1;
    f := fields[k];
    if p in Trimmed(fields[..k]) {
      f := TrimmedFrom(fields[..k], p);
    }
  }

  lemma {:induction false} TrimmedHas(fields: seq<string>, f: string)
    requires f in fields && Trim(Posix, f) != ""
    ensures Trim(Posix, f) in Trimmed(fields)
  {
    var k := |fields| - 1;
    if f != fields[k] {
      assert f in fields[..k];
      TrimmedHas(fields[..k], f);
    }
  }

  lemma {:induction false} TrimPart(s: string, c: char)
    ensures c !in s ==> c !in Trim(Posix, s)
    ensures |Trim(Posix, s)| <= |s|
  {
  }

  /** Every piece of a list is a non-empty trimmed text without commas. */
  lemma SplitSound(s: string, p: string)
    requires p in Split(s)
    ensures Sound(p) && |p| <= |s|
  {
    var f := TrimmedFrom(Fields(s), p);
    FieldsPlain(s, f);
    TrimFacts(Posix, f);
    TrimPart(f, ',');
  }

  lemma SplitPlain(p: string)
    requires ',' !in p
    ensures Split(p) == Trimmed([p])
  {
  }

  lemma SplitEmpty()
    ensures Split("") == []
  {
    SplitPlain("");
  }

  lemma {:induction false} SplitAppend(text: string, p: string)
    requires ',' !in p
    ensures Split(Append(text, p)) == Split(text) + Trimmed([p])
  {
    hide Trimmed, Fields;
    SplitPlain(p);
    if text == "" {
      assert Append(text, p) == p;
      SplitEmpty();
    } else {
      assert Append(text, p) == text + "," + p;
      FieldsAppend(text, p);
      TrimmedAppend(Fields(text), Fields(p));
    }
  }

  lemma TrimmedNone()
    ensures Trimmed([]) == []
  {
  }

  predicate Commaless(pieces: seq<string>) {
    forall p :: p in pieces ==> ',' !in p
  }

  lemma CommalessFront(pieces: seq<string>)
    requires Commaless(pieces) && pieces != []
    ensures Commaless(pieces[..|pieces| - 1]) && ',' !in pieces[|pieces| - 1]
  {
  }

  /** Joining texts without commas loses only what reading would drop anyway. */
  lemma {:induction false} SplitJoin(pieces: seq<string>)
    requires Commaless(pieces)
    ensures Split(Join(pieces)) == Trimmed(pieces)
  {
    hide Split, Append, Trimmed, Commaless;
    if pieces == [] {
      SplitEmpty();
      TrimmedNone();
    } else {
      var k := |pieces| - 1;
      CommalessFront(pieces);
      SplitJoin(pieces[..k]);
      SplitAppend(Join(pieces[..k]), pieces[k]);
      TrimmedAppend(pieces[..k], [pieces[k]]);
      assert pieces[..k] + [pieces[k]] == pieces;
    }
  }

  // ------------------------------------------------------------- clean entries

  predicate Sound(piece: string) {
    piece != "" && IsTrimmed(Posix, piece) && ',' !in piece
  }

  /** The state that the list holding an entry stands for. */
  function ListState(e: Entry): Override {
    if e.state == Disable then Disable else Enable
  }

  /** What can be printed and read back: the text survives splitting, the name has no
      decoration of its own, and the trial can be found by name. */
  predicate Clean(name: string, e: Entry, trials: Trials) {
    && Sound(PrintPiece(name, e))
    && '<' !in name
    && (e.state != UseDefault ==> name == "" || name[0] != '*')
    && (e.trial.Some? ==> Lookup(trials, e.trial.value.name) == e.trial)
  }

  /** Valid names as the source defines them, without surrounding white space. */
  predicate ValidName(name: string) {
    && name != "" && IsTrimmed(Posix, name)
    && forall i :: 0 <= i < |name| ==> name[i] as int < 128 && name[i] !in ",<*"
  }

  lemma ValidIsClean(name: string, e: Entry, trials: Trials)
    requires ValidName(name)
    requires e.trial.Some? ==> ValidName(e.trial.value.name) && Lookup(trials, e.trial.value.name) == e.trial
    ensures Clean(name, e, trials)
  {
    var p := PrintPiece(name, e);
    assert forall i :: 0 <= i < |p| ==> p[i] == '*' || p[i] == '<' || p[i] in name || (e.trial.Some? && p[i] in e.trial.value.name);
    assert p[|p| - 1] == if e.trial.Some? then e.trial.value.name[|e.trial.value.name| - 1] else name[|name| - 1];
  }

  function Reread(name: string, e: Entry): (string, Entry) {
    (name, NewEntry(e.state, e.trial))
  }

  /** The part of an entry's print before the trial. */
  function Head(name: string, e: Entry): string {
    (if e.state == UseDefault then "*" else "") + name
  }

  lemma HeadPlain(name: string, e: Entry)
    requires '<' !in name
    ensures '<' !in Head(name, e)
  {
  }

  /** A piece without a trial, and one with a trial. */
  lemma {:induction false} PieceParts(head: string, rest: string, state: Override, trials: Trials)
    requires '<' !in head && (rest == "" || rest[0] == '<')
    ensures IndexOf(head + rest, '<') == |head|
  {
    var p := head + rest;
    assert p[..|head|] == head;
    IndexOfAt(p, '<', |head|);
  }

  lemma HeadUndecorated(name: string, e: Entry)
    requires e.state != UseDefault ==> name == "" || name[0] != '*'
    ensures Undecorated(Head(name, e), ListState(e), e.trial) == Reread(name, e)
  {
    if e.state == UseDefault {
      assert Head(name, e)[1..] == name;
    } else {
      assert Head(name, e) == name;
    }
  }

  lemma CleanParses(name: string, e: Entry, trials: Trials)
    requires Clean(name, e, trials)
    ensures ParsePiece(PrintPiece(name, e), ListState(e), trials) == Reread(name, e)
  {
    hide IndexOf, Sound, Undecorated;
    var p, head := PrintPiece(name, e), Head(name, e);
    HeadPlain(name, e);
    HeadUndecorated(name, e);
    var rest := if e.trial.Some? then "<" + e.trial.value.name else "";
    hide Head;
    assert p == head + rest;
    PieceParts(head, rest, ListState(e), trials);
    assert p[..|head|] == head;
    if e.trial.Some? {
      assert p[|head| + 1..] == e.trial.value.name;
    }
  }

  lemma ParsedHead(p: string, name: string, e: Entry, trials: Trials)
    requires ParsePiece(p, ListState(e), trials) == Reread(name, e)
    ensures p[..IndexOf(p, '<')] == Head(name, e)
    ensures e.state != UseDefault ==> name == "" || name[0] != '*'
  {
    hide IndexOf;
    var head := p[..IndexOf(p, '<')];
    if head != "" && head[0] == '*' {
      assert head == "*" + head[1..];
    }
  }

  lemma PlainHead(name: string, e: Entry)
    requires '<' !in Head(name, e)
    ensures '<' !in name
  {
    assert forall c :: c in name ==> c in Head(name, e);
  }

  lemma ParsedTrial(p: string, name: string, e: Entry, trials: Trials)
    requires ByName(trials) && ParsePiece(p, ListState(e), trials) == Reread(name, e) && e.trial.Some?
    ensures var n := IndexOf(p, '<');
      && n < |p| && p[n..] == "<" + e.trial.value.name
      && Lookup(trials, e.trial.value.name) == e.trial
  {
    hide IndexOf;
    var n := IndexOf(p, '<');
    assert n < |p| && Lookup(trials, p[n + 1..]) == e.trial;
    assert p[n..] == "<" + p[n + 1..];
  }

  /** A piece that reads as an entry and is no longer than the entry's print is that print. */
  lemma ParsedIsPrinted(p: string, name: string, e: Entry, trials: Trials)
    requires ByName(trials) && ParsePiece(p, ListState(e), trials) == Reread(name, e)
    requires |p| <= |PrintPiece(name, e)|
    ensures p == PrintPiece(name, e) && '<' !in name
    ensures e.state != UseDefault ==> name == "" || name[0] != '*'
    ensures e.trial.Some? ==> Lookup(trials, e.trial.value.name) == e.trial
  {
    hide IndexOf, ParsePiece, ByName;
    ParsedHead(p, name, e, trials);
    PlainHead(name, e);
    var n, head := IndexOf(p, '<'), Head(name, e);
    assert p == p[..n] + p[n..];
    if e.trial.Some? {
      ParsedTrial(p, name, e, trials);
      assert PrintPiece(name, e) == head + ("<" + e.trial.value.name);
    } else {
      assert PrintPiece(name, e) == head + "";
      assert p[n..] == "";
    }
  }

  /** An entry printed alone reads back as itself exactly when it is clean. */
  lemma OneEntryExact(name: string, e: Entry, trials: Trials)
    requires ByName(trials)
    ensures Clean(name, e, trials) <==>
      ParseAll(Split(PrintPiece(name, e)), ListState(e), trials) == [Reread(name, e)]
  {
    var p := PrintPiece(name, e);
    if Clean(name, e, trials) {
      SplitPlain(p);
      TrimFixed(Posix, p);
      assert Trimmed([p]) == [p];
      CleanParses(name, e, trials);
    }
    if ParseAll(Split(p), ListState(e), trials) == [Reread(name, e)] {
      var q := Split(p)[0];
      assert ParseAll(Split(p), ListState(e), trials)[0] == ParsePiece(q, ListState(e), trials);
      SplitSound(p, q);
      ParsedIsPrinted(q, name, e, trials);
    }
  }

  // -------------------------------------------------- reading back what is printed

  /** The overrides, an order of iteration over them, and the trials of the reader. */
  datatype Job = Job(order: seq<string>, m: Overrides, commandLineOnly: bool, trials: Trials)

  ghost predicate Ordered(job: Job) {
    && (forall n :: n in job.order ==> n in job.m)
    && (forall n :: n in job.m ==> n in job.order)
  }

  predicate IsShown(job: Job, x: string) {
    x in job.m && !Skipped(job.m[x], job.commandLineOnly)
  }

  /** What a new FeatureList reads from the two lists printed. */
  function ReadBack(job: Job): Overrides
    requires forall n :: n in job.order ==> n in job.m
  {
    Initialize(map[], PrintList(job.order, job.m, job.commandLineOnly, false),
               PrintList(job.order, job.m, job.commandLineOnly, true), job.trials)
  }

  /** Reading back gives every name shown, and no other, with its state and its trial. */
  ghost predicate Preserved(job: Job)
    requires Ordered(job)
  {
    forall x :: (x in ReadBack(job) <==> IsShown(job, x))
             && (IsShown(job, x) ==> ReadBack(job)[x] == Reread(x, job.m[x]).1)
  }

  function TextOf(job: Job, y: string): string
    requires y in job.m
  {
    Trim(Posix, PrintPiece(y, job.m[y]))
  }

  /** The entry that the print of `y` reads as. */
  function Back(job: Job, y: string): (string, Entry)
    requires y in job.m
  {
    ParsePiece(TextOf(job, y), ListState(job.m[y]), job.trials)
  }

  ghost predicate Yields(job: Job, y: string, e: (string, Entry)) {
    IsShown(job, y) && TextOf(job, y) != "" && e == Back(job, y)
  }

  ghost predicate PlainPrints(job: Job) {
    forall y :: IsShown(job, y) ==> ',' !in PrintPiece(y, job.m[y])
  }

  function Entries(job: Job, disabled: bool): seq<(string, Entry)>
    requires forall n :: n in job.order ==> n in job.m
  {
    ParseAll(Split(PrintList(job.order, job.m, job.commandLineOnly, disabled)),
             if disabled then Disable else Enable, job.trials)
  }

  lemma {:induction false} ListPieces(job: Job, disabled: bool)
    requires Ordered(job) && PlainPrints(job)
    ensures var shown := Shown(job.order, job.m, job.commandLineOnly, disabled);
      && (forall n :: n in shown ==> n in job.m)
      && Split(PrintList(job.order, job.m, job.commandLineOnly, disabled)) == Trimmed(Printed(shown, job.m))
  {
    hide Shown, Split, Trimmed, Join, PrintPiece;
    var shown := Shown(job.order, job.m, job.commandLineOnly, disabled);
    ShownNames(job.order, job.m, job.commandLineOnly, disabled);
    var pieces := Printed(shown, job.m);
    forall p | p in pieces ensures ',' !in p {
      var i :| 0 <= i < |pieces| && pieces[i] == p;
      assert IsShown(job, shown[i]);
    }
    SplitJoin(pieces);
  }

  lemma {:induction false} EntriesFrom(job: Job, disabled: bool, i: nat) returns (y: string)
    requires Ordered(job) && PlainPrints(job) && i < |Entries(job, disabled)|
    ensures Yields(job, y, Entries(job, disabled)[i])
  {
    hide Shown, Split, PrintList, Trimmed, ParsePiece, PrintPiece, Trim;
    var shown := Shown(job.order, job.m, job.commandLineOnly, disabled);
    ShownNames(job.order, job.m, job.commandLineOnly, disabled);
    ListPieces(job, disabled);
    var p := Trimmed(Printed(shown, job.m))[i];
    var f := TrimmedFrom(Printed(shown, job.m), p);
    var k :| 0 <= k < |shown| && Printed(shown, job.m)[k] == f;
    y := shown[k];
  }

  lemma {:induction false} EntriesHave(job: Job, y: string) returns (i: nat)
    requires Ordered(job) && PlainPrints(job) && IsShown(job, y) && TextOf(job, y) != ""
    ensures i < |Entries(job, job.m[y].state == Disable)| && Entries(job, job.m[y].state == Disable)[i] == Back(job, y)
  {
    hide Shown, Split, PrintList, Trimmed, ParsePiece, PrintPiece, Trim;
    var disabled := job.m[y].state == Disable;
    var shown := Shown(job.order, job.m, job.commandLineOnly, disabled);
    ShownNames(job.order, job.m, job.commandLineOnly, disabled);
    ListPieces(job, disabled);
    var k :| 0 <= k < |shown| && shown[k] == y;
    assert Printed(shown, job.m)[k] == PrintPiece(y, job.m[y]);
    TrimmedHas(Printed(shown, job.m), PrintPiece(y, job.m[y]));
    i :| 0 <= i < |Trimmed(Printed(shown, job.m))| && Trimmed(Printed(shown, job.m))[i] == TextOf(job, y);
  }

  lemma ReadBackEntries(job: Job)
    requires forall n :: n in job.order ==> n in job.m
    ensures ReadBack(job) == InsertAll(map[], Entries(job, true) + Entries(job, false))
  {
  }

  /** A name read back comes from an entry printed. */
  lemma {:induction false} ReadBackFrom(job: Job, x: string) returns (y: string)
    requires Ordered(job) && PlainPrints(job) && x in ReadBack(job)
    ensures Yields(job, y, (x, ReadBack(job)[x]))
  {
    hide ReadBack, Entries, InsertAll, Yields;
    ReadBackEntries(job);
    var d, e := Entries(job, true), Entries(job, false);
    var entries: seq<(string, Entry)> := d + e;
    NamedOrKept(map[], entries, x);
    var k :| 0 <= k < |entries| && entries[k].0 == x;
    var i := FirstNamed(entries, x, k);
    FirstTaken(map[], entries, x, i);
    if i < |d| {
      y := EntriesFrom(job, true, i);
    } else {
      y := EntriesFrom(job, false, i - |d|);
    }
  }

  /** Every entry printed that leaves any text gives its name a meaning. */
  lemma {:induction false} ReadBackHas(job: Job, y: string)
    requires Ordered(job) && PlainPrints(job) && IsShown(job, y) && TextOf(job, y) != ""
    ensures Back(job, y).0 in ReadBack(job)
  {
    hide ReadBack, Entries, InsertAll, Back, TextOf;
    ReadBackEntries(job);
    var d, e := Entries(job, true), Entries(job, false);
    var i := EntriesHave(job, y);
    NamedOrKept(map[], d + e, Back(job, y).0);
    if job.m[y].state == Disable {
      assert (d + e)[i] == d[i];
    } else {
      assert (d + e)[|d| + i] == e[i];
    }
  }

  ghost predicate AllClean(job: Job) {
    forall y :: IsShown(job, y) ==> Clean(y, job.m[y], job.trials)
  }

  lemma {:induction false} CleanBack(job: Job, y: string)
    requires y in job.m && Clean(y, job.m[y], job.trials)
    ensures TextOf(job, y) == PrintPiece(y, job.m[y]) != ""
    ensures Back(job, y) == Reread(y, job.m[y])
  {
    hide ParsePiece;
    TrimFixed(Posix, PrintPiece(y, job.m[y]));
    CleanParses(y, job.m[y], job.trials);
  }

  lemma {:induction false} CleanPreserved(job: Job)
    requires Ordered(job) && AllClean(job)
    ensures Preserved(job)
  {
    hide ReadBack, Back, TextOf, ParsePiece, PrintPiece, IsTrimmed;
    assert PlainPrints(job);
    forall x ensures
      (x in ReadBack(job) <==> IsShown(job, x)) && (IsShown(job, x) ==> ReadBack(job)[x] == Reread(x, job.m[x]).1)
    {
      if x in ReadBack(job) {
        var y := ReadBackFrom(job, x);
        CleanBack(job, y);
      }
      if IsShown(job, x) {
        CleanBack(job, x);
        ReadBackHas(job, x);
      }
    }
  }

  // ------------------------------------------------- only clean entries survive

  lemma PartsPlain(p: string, state: Override, trials: Trials)
    requires ',' !in p && ByName(trials)
    ensures var e := ParsePiece(p, state, trials);
      ',' !in e.0 && '<' !in e.0 && (e.1.trial.Some? ==> ',' !in e.1.trial.value.name)
  {
    var n := IndexOf(p, '<');
    assert forall c :: c in p[..n] ==> c in p;
  }

  /** Whatever is printed, a name read back is free of separators, and so is its trial's. */
  lemma ReadBackPlain(job: Job, x: string)
    requires Ordered(job) && ByName(job.trials) && x in ReadBack(job)
    ensures ',' !in x && '<' !in x
    ensures ReadBack(job)[x].trial.Some? ==> ',' !in ReadBack(job)[x].trial.value.name
  {
    hide ReadBack, InsertAll, Split, PrintList, ParsePiece, ByName;
    ReadBackEntries(job);
    var d, e := Entries(job, true), Entries(job, false);
    var entries: seq<(string, Entry)> := d + e;
    NamedOrKept(map[], entries, x);
    var k :| 0 <= k < |entries| && entries[k].0 == x;
    var i := FirstNamed(entries, x, k);
    FirstTaken(map[], entries, x, i);
    var disabled := i < |d|;
    var text := PrintList(job.order, job.m, job.commandLineOnly, disabled);
    var p := Split(text)[if disabled then i else i - |d|];
    SplitSound(text, p);
    PartsPlain(p, if disabled then Disable else Enable, job.trials);
  }

  lemma {:induction false} PreservedPlain(job: Job)
    requires Ordered(job) && ByName(job.trials) && Preserved(job)
    ensures PlainPrints(job) && forall y :: IsShown(job, y) ==> '<' !in y
  {
    hide ReadBack;
    forall y | IsShown(job, y) ensures ',' !in PrintPiece(y, job.m[y]) && '<' !in y {
      ReadBackPlain(job, y);
    }
  }

  /** Trimming a print leaves the end of its head where it was. */
  lemma NameEnds(head: string, rest: string, a: nat, b: nat)
    requires '<' !in head && (rest == "" || rest[0] == '<')
    requires a <= b <= |head + rest|
    requires forall i :: 0 <= i < a || b <= i < |head + rest| ==> IsSpace(Posix, (head + rest)[i])
    ensures var t := (head + rest)[a..b];
      a + IndexOf(t, '<') <= |head| && t[..IndexOf(t, '<')] == head[a..a + IndexOf(t, '<')]
  {
    hide IndexOf;
    var p := head + rest;
    var t := p[a..b];
    var n := IndexOf(t, '<');
    if rest != "" {
      assert p[|head|] == '<';
      assert a <= |head| < b;
      assert t[|head| - a] == '<';
    }
    assert a + n <= |head|;
    assert t[..n] == p[a..a + n];
    assert p[..|head|] == head;
    assert p[..|head|][a..a + n] == p[a..a + n];
  }

  /** The name a print reads as is cut out of the name printed. */
  lemma {:induction false} BackShrinks(job: Job, y: string)
    requires y in job.m && '<' !in y && TextOf(job, y) != ""
    ensures var n := Back(job, y).0; |n| <= |y| && (|n| == |y| ==> n == y)
  {
    hide Trim, IndexOf;
    var e := job.m[y];
    var p, t, head := PrintPiece(y, e), TextOf(job, y), Head(y, e);
    var rest := if e.trial.Some? then "<" + e.trial.value.name else "";
    assert p == head + rest;
    HeadPlain(y, e);
    var a, b := TrimBounds(Posix, p);
    NameEnds(head, rest, a, b);
    var n := IndexOf(t, '<');
    if e.state == UseDefault {
      assert p[0] == '*' && a == 0;
      assert t[0] == '*' && n > 0;
      assert t[..n] == head[0..n] == "*" + y[..n - 1];
    } else {
      assert head == y;
    }
  }

  function Longest(names: seq<string>): nat {
    if names == [] then 0
    else
      var rest, last := Longest(names[..|names| - 1]), |names[|names| - 1]|;
      if last > rest then last else rest
  }

  lemma {:induction false} LongestBounds(names: seq<string>, x: string)
    requires x in names
    ensures |x| <= Longest(names)
  {
    var k := |names| - 1;
    if x != names[k] {
      assert x in names[..k];
      LongestBounds(names[..k], x);
    }
  }

  /** If the names read back are the names printed, each name is read from its own print:
      a name read from another print would be shorter than that other name, which then is
      read from a longer one still. */
  lemma {:induction false} ReadFromItself(job: Job, x: string)
    requires Ordered(job) && ByName(job.trials) && Preserved(job) && IsShown(job, x)
    ensures TextOf(job, x) != "" && Back(job, x) == (x, ReadBack(job)[x])
    decreases Longest(job.order) - |x|
  {
    hide ReadBack, Back, TextOf, Longest;
    PreservedPlain(job);
    var y := ReadBackFrom(job, x);
    BackShrinks(job, y);
    if y != x {
      LongestBounds(job.order, y);
      ReadFromItself(job, y);
      assert false;
    }
  }

  lemma {:induction false} PreservedClean(job: Job, x: string)
    requires Ordered(job) && ByName(job.trials) && Preserved(job) && IsShown(job, x)
    ensures Clean(x, job.m[x], job.trials)
  {
    hide ReadBack, ParsePiece, IndexOf;
    PreservedPlain(job);
    ReadFromItself(job, x);
    TrimFacts(Posix, PrintPiece(x, job.m[x]));
    ParsedIsPrinted(TextOf(job, x), x, job.m[x], job.trials);
  }

  /** Printing the overrides (all of them, or those of the command line) and reading the two
      lists back preserves every name, state and trial exactly when every entry printed is
      clean. */
  lemma PrintThenRead(job: Job)
    requires Ordered(job) && ByName(job.trials)
    ensures Preserved(job) <==> AllClean(job)
  {
    hide Clean, ReadBack;
    if AllClean(job) {
      CleanPreserved(job);
    }
    if Preserved(job) {
      forall y | IsShown(job, y) ensures Clean(y, job.m[y], job.trials) {
        PreservedClean(job, y);
      }
    }
  }

  /** So every question gets the same answer from the overrides read back. */
  lemma {:induction false} SameAnswers(job: Job, x: string, byDefault: bool)
    requires Ordered(job) && AllClean(job) && !job.commandLineOnly
    ensures IsFeatureEnabled(ReadBack(job), x, byDefault) == IsFeatureEnabled(job.m, x, byDefault)
    ensures AssociatedTrial(ReadBack(job), x) == AssociatedTrial(job.m, x)
  {
    hide ReadBack, Clean;
    CleanPreserved(job);
  }

  /** A name with a comma is read as two names. */
  lemma CommaIsLost(e: Entry)
    ensures !Preserved(Job(["a,b"], map["a,b" := e], false, map[]))
  {
    var job := Job(["a,b"], map["a,b" := e], false, map[]);
    hide ReadBack, Sound;
    assert ',' in PrintPiece("a,b", e) by { CommaPrinted(e); }
    assert IsShown(job, "a,b") && !Clean("a,b", e, job.trials) by { NotSound(PrintPiece("a,b", e)); }
    PrintThenRead(job);
  }

  lemma CommaPrinted(e: Entry)
    ensures ',' in PrintPiece("a,b", e)
  {
    var head := if e.state == UseDefault then "*" else "";
    assert PrintPiece("a,b", e)[|head| + 1] == ',';
  }

  lemma NotSound(piece: string)
    requires ',' in piece
    ensures !Sound(piece)
  {
  }
}
