/** Feature overrides as values: how FeatureList reads them from the command line, how it
    prints them, and what a lookup answers. */
module FeatureListSpec {
  import opened Common
  import opened CommandLineSpec

  datatype Override = UseDefault | Disable | Enable

  datatype Trial = Trial(name: string, id: nat)

  /** OverrideEntry: `byTrial` is overridden_by_field_trial. */
  datatype Entry = Entry(state: Override, trial: Option<Trial>, byTrial: bool)

  type Overrides = map<string, Entry>

  /** FieldTrialList: trials by name. */
  type Trials = map<string, Trial>

  ghost predicate ByName(trials: Trials) {
    forall n :: n in trials ==> trials[n].name == n
  }

  // ------------------------------------------------------------------ reading

  /** The position of the first `c`, or the length. */
  function IndexOf(s: string, c: char): (n: nat)
    ensures n <= |s| && c !in s[..n]
    ensures n < |s| ==> s[n] == c
    ensures n == |s| <==> c !in s
  {
    if s == "" || s[0] == c then 0
    else
      assert s == [s[0]] + s[1..];
      var n := IndexOf(s[1..], c);
      assert s[..n + 1] == [s[0]] + s[1..][..n];
      n + 1
  }

  /** The text between commas. */
  function Fields(s: string): seq<string> {
    var n := IndexOf(s, ',');
    if n == |s| then [s] else [s[..n]] + Fields(s[n + 1..])
  }

  /** The fields without surrounding white space, leaving out those with nothing left. */
  function Trimmed(fields: seq<string>): seq<string> {
    if fields == [] then [] else Trimmed(fields[..|fields| - 1]) + TrimmedOne(fields[|fields| - 1])
  }

  function TrimmedOne(field: string): seq<string> {
    var f := Trim(Posix, field);
    if f == "" then [] else [f]
  }

  /** SplitFeatureListString. */
  function Split(s: string): seq<string> {
    Trimmed(Fields(s))
  }

  function Lookup(trials: Trials, name: string): Option<Trial> {
    if name in trials then Some(trials[name]) else None
  }

  function NewEntry(state: Override, trial: Option<Trial>): Entry {
    Entry(state, trial, trial.Some?)
  }

  /** What RegisterOverride inserts: a leading '*' asks for the default state. */
  function Undecorated(name: string, state: Override, trial: Option<Trial>): (string, Entry) {
    if name != "" && name[0] == '*' then (name[1..], NewEntry(UseDefault, trial)) else (name, NewEntry(state, trial))
  }

  /** What one piece of the command line registers: a feature name and its entry. */
  function ParsePiece(piece: string, state: Override, trials: Trials): (string, Entry) {
    var n := IndexOf(piece, '<');
    var trial := if n < |piece| then Lookup(trials, piece[n + 1..]) else None;
    Undecorated(piece[..n], state, trial)
  }

  function ParseAll(pieces: seq<string>, state: Override, trials: Trials): seq<(string, Entry)> {
    seq(|pieces|, i requires 0 <= i < |pieces| => ParsePiece(pieces[i], state, trials))
  }

  /** insert() of std::map: an entry that is there stays. */
  function Insert(m: Overrides, name: string, e: Entry): Overrides {
    if name in m then m else m[name := e]
  }

  function InsertAll(m: Overrides, entries: seq<(string, Entry)>): Overrides {
    if entries == [] then m
    else
      var last := entries[|entries| - 1];
      Insert(InsertAll(m, entries[..|entries| - 1]), last.0, last.1)
  }

  /** The entries of both lists, in the order of registration: disabled features first. */
  function Registered(enable: string, disable: string, trials: Trials): seq<(string, Entry)> {
    ParseAll(Split(disable), Disable, trials) + ParseAll(Split(enable), Enable, trials)
  }

  function Initialize(m: Overrides, enable: string, disable: string, trials: Trials): Overrides {
    InsertAll(m, Registered(enable, disable, trials))
  }

  // ----------------------------------------------------------------- printing

  predicate Skipped(e: Entry, commandLineOnly: bool) {
    commandLineOnly && (e.trial.Some? || e.state == UseDefault)
  }

  function PrintPiece(name: string, e: Entry): string {
    (if e.state == UseDefault then "*" else "") + name + (if e.trial.Some? then "<" + e.trial.value.name else "")
  }

  /** Appending to a list: a comma is written unless the list is still empty. */
  function Append(text: string, piece: string): string {
    text + (if text == "" then "" else ",") + piece
  }

  function Join(pieces: seq<string>): string {
    if pieces == [] then "" else Append(Join(pieces[..|pieces| - 1]), pieces[|pieces| - 1])
  }

  /** The names printed into the list of disabled features, or into the other one. */
  function Shown(order: seq<string>, m: Overrides, commandLineOnly: bool, disabled: bool): seq<string>
    requires forall n :: n in order ==> n in m
  {
    if order == [] then []
    else
      var n := order[|order| - 1];
      Shown(order[..|order| - 1], m, commandLineOnly, disabled)
      + if !Skipped(m[n], commandLineOnly) && (m[n].state == Disable) == disabled then [n] else []
  }

  function Printed(names: seq<string>, m: Overrides): seq<string>
    requires forall n :: n in names ==> n in m
  {
    seq(|names|, i requires 0 <= i < |names| => PrintPiece(names[i], m[names[i]]))
  }

  lemma {:induction false} ShownNames(order: seq<string>, m: Overrides, commandLineOnly: bool, disabled: bool)
    requires forall n :: n in order ==> n in m
    ensures forall n :: n in Shown(order, m, commandLineOnly, disabled) <==>
      n in order && !Skipped(m[n], commandLineOnly) && (m[n].state == Disable) == disabled
  {
    if order != [] {
      ShownNames(order[..|order| - 1], m, commandLineOnly, disabled);
      assert order == order[..|order| - 1] + [order[|order| - 1]];
    }
  }

  /** The list of enabled features (with the defaults) or of disabled features. */
  function PrintList(order: seq<string>, m: Overrides, commandLineOnly: bool, disabled: bool): string
    requires forall n :: n in order ==> n in m
  {
    var shown := Shown(order, m, commandLineOnly, disabled);
    assert forall n :: n in shown ==> n in m by { ShownNames(order, m, commandLineOnly, disabled); }
    Join(Printed(shown, m))
  }

  // ---------------------------------------------------------------- answering

  function IsFeatureEnabled(m: Overrides, name: string, byDefault: bool): bool {
    if name in m && m[name].state != UseDefault then m[name].state == Enable else byDefault
  }

  function AssociatedTrial(m: Overrides, name: string): Option<Trial> {
    if name in m then m[name].trial else None
  }

  /** Overridden with this state, and not by a field trial. */
  predicate IsOverriddenFromCommandLine(m: Overrides, name: string, state: Override) {
    name in m && m[name].state == state && !m[name].byTrial
  }
}
