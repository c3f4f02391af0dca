/** FeatureList as the source keeps it: a map that registration fills in place, and loops
    that split, register and print. */
module FeatureLists {
  import opened Common
  import opened CommandLineSpec
  import opened FeatureListSpec
  import opened FeatureListPrint
  import opened FeatureListRoundTrip

  // -------------------------------------------------------- alphabetical order

  lemma {:induction false} LessTotal(a: string, b: string)
    ensures Less(a, b) || a == b || Less(b, a)
  {
    if a != "" && b != "" && a[0] == b[0] {
      LessTotal(a[1..], b[1..]);
      assert a == [a[0]] + a[1..] && b == [b[0]] + b[1..];
    }
  }

  lemma {:induction false} LessTransitive(a: string, b: string, c: string)
    requires Less(a, b) && Less(b, c)
    ensures Less(a, c)
  {
    if a != "" && a[0] == b[0] && b[0] == c[0] {
      LessTransitive(a[1..], b[1..], c[1..]);
    }
  }

  method Smallest(names: set<string>) returns (x: string)
    requires names != {}
    ensures x in names && forall y :: y in names ==> x == y || Less(x, y)
  {
    x :| x in names;
    var rest := names - {x};
    while rest != {}
      invariant x in names && rest <= names
      invariant forall y :: y in names - rest ==> x == y || Less(x, y)
      decreases |rest|
    {
      var y :| y in rest;
      LessTotal(x, y);
      if Less(y, x) {
        forall z | z in names - rest ensures y == z || Less(y, z) {
          if x != z { LessTransitive(y, x, z); }
        }
        x := y;
      }
      rest := rest - {y};
    }
  }

  /** Iterating over the map. */
  method Keys(m: Overrides) returns (order: seq<string>)
    ensures Alphabetical(order)
    ensures (forall n :: n in order ==> n in m) && (forall n :: n in m ==> n in order)
  {
    var rest := m.Keys;
    order := [];
    while rest != {}
      invariant rest <= m.Keys && Alphabetical(order)
      invariant forall n :: n in order ==> n in m
      invariant forall n :: n in m ==> n in order || n in rest
      invariant forall n, r :: n in order && r in rest ==> Less(n, r)
      decreases |rest|
    {
      var x := Smallest(rest);
      rest := rest - {x};
      order := order + [x];
    }
  }

  // ---------------------------------------------------------------- splitting

  lemma {:induction false} SplitHead(s: string)
    ensures var n := IndexOf(s, ','); Split(s) == TrimmedOne(s[..n]) + if n == |s| then [] else Split(s[n + 1..])
  {
    hide TrimmedOne, IndexOf;
    var n := IndexOf(s, ',');
    OneField(s[..n]);
    if n == |s| {
      assert s[..n] == s;
    } else {
      hide Trimmed;
      TrimmedAppend([s[..n]], Fields(s[n + 1..]));
    }
  }

  lemma OneField(f: string)
    ensures Trimmed([f]) == TrimmedOne(f)
  {
    hide TrimmedOne;
    assert [f][..0] == [];
  }

  /** What is still to be split off. */
  function Rest(input: string, start: nat, done: bool): seq<string>
    requires start <= |input|
  {
    if done then [] else Split(input[start..])
  }

  lemma {:induction false} RestStep(input: string, start: nat, before: seq<string>, pieces: seq<string>)
    requires start <= |input|
    requires var tail := input[start..]; pieces == before + TrimmedOne(tail[..IndexOf(tail, ',')])
    ensures var n := IndexOf(input[start..], ',');
      && (start + n == |input| ==> before + Rest(input, start, false) == pieces + Rest(input, start, true))
      && (start + n < |input| ==> before + Rest(input, start, false) == pieces + Rest(input, start + n + 1, false))
  {
    hide Split, TrimmedOne, IndexOf;
    var tail := input[start..];
    var n := IndexOf(tail, ',');
    SplitHead(tail);
    if start + n < |input| {
      assert tail[n + 1..] == input[start + n + 1..];
    }
  }

  method SplitFeatureListString(input: string) returns (pieces: seq<string>)
    ensures pieces == Split(input)
  {
    hide Split, Rest, IndexOf, Trim;
    pieces := [];
    if input == "" {
      SplitEmpty();
      return;
    }
    var start, done := 0, false;
    RestStart(input);
    while !done
      invariant start <= |input| && Split(input) == pieces + Rest(input, start, done)
      decreases !done, |input| - start
    {
      ghost var before := pieces;
      var tail := input[start..];
      var n := IndexOf(tail, ',');
      var piece := Trim(Posix, tail[..n]);
      if piece != "" {
        pieces := pieces + [piece];
      }
      RestStep(input, start, before, pieces);
      if n == |tail| {
        done := true;
      } else {
        start := start + n + 1;
      }
    }
    RestEnd(input, start);
  }

  lemma RestStart(input: string)
    ensures Rest(input, 0, false) == Split(input)
  {
    assert input[0..] == input;
  }

  lemma RestEnd(input: string, start: nat)
    requires start <= |input|
    ensures Rest(input, start, true) == []
  {
  }

  // -------------------------------------------------------------------- class

  class FeatureList {
    var overrides: Overrides

    constructor ()
      ensures overrides == map[]
    {
      overrides := map[];
    }

    /** Inserts the override unless the feature has one. */
    method RegisterOverride(name: string, state: Override, trial: Option<Trial>)
      modifies this
      ensures var e := Undecorated(name, state, trial); overrides == Insert(old(overrides), e.0, e.1)
    {
      var feature, overridden := name, state;
      if "*" <= name {
        feature, overridden := name[1..], UseDefault;
      }
      if feature !in overrides {
        overrides := overrides[feature := Entry(overridden, trial, trial.Some?)];
      }
    }

    method RegisterOverridesFromCommandLine(list: string, state: Override, trials: Trials)
      modifies this
      ensures overrides == InsertAll(old(overrides), ParseAll(Split(list), state, trials))
    {
      hide Split, InsertAll, IndexOf;
      var pieces := SplitFeatureListString(list);
      ghost var entries := ParseAll(pieces, state, trials);
      InsertNone(overrides);
      assert entries[..0] == [];
      for i := 0 to |pieces|
        invariant |entries| == |pieces| && overrides == InsertAll(old(overrides), entries[..i])
      {
        var value := pieces[i];
        var pos := IndexOf(value, '<');
        var trial := None;
        if pos < |value| {
          trial := Lookup(trials, value[pos + 1..]);
        }
        RegisterOverride(value[..pos], state, trial);
        assert entries[..i + 1] == entries[..i] + [entries[i]];
        InsertAllAppend(old(overrides), entries[..i], entries[i]);
      }
      assert entries[..|pieces|] == entries;
    }

    /** Disabled features first, so that they take precedence. */
    method InitializeFromCommandLine(enable: string, disable: string, trials: Trials)
      modifies this
      ensures overrides == Initialize(old(overrides), enable, disable, trials)
    {
      RegisterOverridesFromCommandLine(disable, Disable, trials);
      RegisterOverridesFromCommandLine(enable, Enable, trials);
      InsertTwice(old(overrides), ParseAll(Split(disable), Disable, trials), ParseAll(Split(enable), Enable, trials));
    }

    /** Prints the overrides in alphabetical order; with `commandLineOnly`, only the names
        that are enabled, or disabled, and have no trial. */
    method GetFeatureOverrides(commandLineOnly: bool) returns (enable: string, disable: string, order: seq<string>)
      ensures Alphabetical(order)
      ensures (forall n :: n in order ==> n in overrides) && (forall n :: n in overrides ==> n in order)
      ensures enable == PrintList(order, overrides, commandLineOnly, false)
      ensures disable == PrintList(order, overrides, commandLineOnly, true)
      ensures commandLineOnly ==>
        enable == Join(Untried(order, overrides, Enable)) && disable == Join(Untried(order, overrides, Disable))
    {
      hide Alphabetical, PrintPiece;
      order := Keys(overrides);
      FeatureListPrint.CommandLineOnly(order, overrides);
      hide Untried, Join;
      enable, disable := "", "";
      for i := 0 to |order|
        invariant forall n :: n in order[..i] ==> n in overrides
        invariant enable == PrintList(order[..i], overrides, commandLineOnly, false)
        invariant disable == PrintList(order[..i], overrides, commandLineOnly, true)
      {
        var e := overrides[order[i]];
        PrintNext(order, overrides, commandLineOnly, false, i);
        PrintNext(order, overrides, commandLineOnly, true, i);
        if !(commandLineOnly && (e.trial.Some? || e.state == UseDefault)) {
          match e.state {
            case Disable => disable := AppendEntry(disable, order[i], e);
            case _ => enable := AppendEntry(enable, order[i], e);
          }
        }
      }
      assert order[..|order|] == order;
    }

    /** The override of the feature if it has one, and its default otherwise. */
    method IsFeatureEnabled(name: string, byDefault: bool) returns (enabled: bool)
      ensures enabled == FeatureListSpec.IsFeatureEnabled(overrides, name, byDefault)
    {
      if name in overrides {
        var e := overrides[name];
        if e.state != UseDefault {
          return e.state == Enable;
        }
      }
      return byDefault;
    }
  }

  method AppendEntry(list: string, name: string, e: Entry) returns (r: string)
    ensures r == Append(list, PrintPiece(name, e))
  {
    r := list;
    if r != "" {
      r := r + ",";
    }
    ghost var before := r;
    if e.state == UseDefault {
      r := r + "*";
    }
    r := r + name;
    if e.trial.Some? {
      r := r + "<" + e.trial.value.name;
    }
    assert r == before + PrintPiece(name, e);
  }

  lemma PrintNext(order: seq<string>, m: Overrides, commandLineOnly: bool, disabled: bool, i: nat)
    requires i < |order| && forall n :: n in order ==> n in m
    ensures (forall n :: n in order[..i] ==> n in m) && (forall n :: n in order[..i + 1] ==> n in m)
    ensures var e, before := m[order[i]], PrintList(order[..i], m, commandLineOnly, disabled);
      PrintList(order[..i + 1], m, commandLineOnly, disabled) ==
        if !Skipped(e, commandLineOnly) && (e.state == Disable) == disabled then Append(before, PrintPiece(order[i], e))
        else before
  {
    hide Append, PrintPiece;
    assert order[..i + 1][..i] == order[..i];
    var before := Shown(order[..i], m, commandLineOnly, disabled);
    var after := Shown(order[..i + 1], m, commandLineOnly, disabled);
    ShownNames(order[..i + 1], m, commandLineOnly, disabled);
    ShownNames(order[..i], m, commandLineOnly, disabled);
    if after != before {
      assert Printed(after, m)[..|before|] == Printed(before, m);
    }
  }

  lemma InsertNone(m: Overrides)
    ensures InsertAll(m, []) == m
  {
  }

  lemma {:induction false} InsertTwice(m: Overrides, a: seq<(string, Entry)>, b: seq<(string, Entry)>)
    ensures InsertAll(InsertAll(m, a), b) == InsertAll(m, a + b)
  {
    if b == [] {
      assert a + b == a;
    } else {
      var k := |b| - 1;
      InsertTwice(m, a, b[..k]);
      assert (a + b)[..|a| + k] == a + b[..k];
    }
  }
}
