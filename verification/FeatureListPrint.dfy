/** What the two lists that FeatureList prints hold, said of the entries themselves. */
module FeatureListPrint {
  import opened Common
  import opened FeatureListSpec

  // -------------------------------------------------------- alphabetical order

  /** The order of std::string keys in a std::map. */
  predicate Less(a: string, b: string) {
    b != "" && (a == "" || a[0] < b[0] || (a[0] == b[0] && Less(a[1..], b[1..])))
  }

  /** After what two texts have in common, the smaller one ends or has the smaller character. */
  ghost predicate DiffersAt(a: string, b: string, k: nat) {
    && k <= |a| && k < |b| && a[..k] == b[..k]
    && (k == |a| || a[k] < b[k])
  }

  lemma {:induction false} LessExact(a: string, b: string)
    ensures Less(a, b) <==> exists k: nat :: DiffersAt(a, b, k)
  {
    if b == "" {
    } else if a == "" || a[0] < b[0] {
      assert DiffersAt(a, b, 0);
    } else {
      LessExact(a[1..], b[1..]);
      assert a == [a[0]] + a[1..] && b == [b[0]] + b[1..];
      if Less(a, b) {
        var k: nat :| DiffersAt(a[1..], b[1..], k);
        assert a[..k + 1] == [a[0]] + a[1..][..k] && b[..k + 1] == [b[0]] + b[1..][..k];
        assert DiffersAt(a, b, k + 1);
      }
      if k: nat :| DiffersAt(a, b, k) {
        assert k > 0;
        assert a[..k][0] == a[0] && b[..k][0] == b[0];
        assert a[1..][..k - 1] == a[..k][1..] && b[1..][..k - 1] == b[..k][1..];
        assert DiffersAt(a[1..], b[1..], k - 1);
      }
    }
  }

  predicate Alphabetical(order: seq<string>) {
    forall i, j :: 0 <= i < j < |order| ==> Less(order[i], order[j])
  }

  // ---------------------------------------------------------------- the lists

  /** The names with state `state` that no trial is associated with. */
  function Untried(order: seq<string>, m: Overrides, state: Override): seq<string>
    requires forall n :: n in order ==> n in m
  {
    if order == [] then []
    else
      var n := order[|order| - 1];
      Untried(order[..|order| - 1], m, state) + if m[n].state == state && m[n].trial == None then [n] else []
  }

  lemma {:induction false} UntriedNames(order: seq<string>, m: Overrides, state: Override)
    requires forall n :: n in order ==> n in m
    ensures forall n :: n in Untried(order, m, state) <==> n in order && m[n].state == state && m[n].trial == None
    ensures Alphabetical(order) ==> Alphabetical(Untried(order, m, state))
  {
    if order != [] {
      var k := |order| - 1;
      var front := order[..k];
      UntriedNames(front, m, state);
      assert order == front + [order[k]];
      if Alphabetical(order) {
        assert Alphabetical(front) by {
          assert forall i :: 0 <= i < k ==> front[i] == order[i];
        }
        forall i | 0 <= i < |Untried(front, m, state)| ensures Less(Untried(front, m, state)[i], order[k]) {
          assert Untried(front, m, state)[i] in front;
        }
      }
    }
  }

  lemma {:induction false} ShownUntried(order: seq<string>, m: Overrides, disabled: bool)
    requires forall n :: n in order ==> n in m
    ensures Shown(order, m, true, disabled) == Untried(order, m, if disabled then Disable else Enable)
  {
    if order != [] {
      ShownUntried(order[..|order| - 1], m, disabled);
    }
  }

  lemma UntriedPrinted(names: seq<string>, m: Overrides)
    requires forall n :: n in names ==> n in m && m[n].state != UseDefault && m[n].trial == None
    ensures Printed(names, m) == names
  {
    forall i | 0 <= i < |names| ensures Printed(names, m)[i] == names[i] {
      assert names[i] in names;
    }
  }

  /** For the command line only: the pieces are, undecorated and in order, the names that
      are enabled without a trial, and those that are disabled without a trial. */
  lemma {:induction false} CommandLineOnly(order: seq<string>, m: Overrides)
    requires forall n :: n in order ==> n in m
    ensures PrintList(order, m, true, false) == Join(Untried(order, m, Enable))
    ensures PrintList(order, m, true, true) == Join(Untried(order, m, Disable))
  {
    hide Join, Printed;
    ShownUntried(order, m, false);
    ShownUntried(order, m, true);
    UntriedNames(order, m, Enable);
    UntriedNames(order, m, Disable);
    UntriedPrinted(Untried(order, m, Enable), m);
    UntriedPrinted(Untried(order, m, Disable), m);
  }

  lemma {:induction false} ShownSorted(order: seq<string>, m: Overrides, commandLineOnly: bool, disabled: bool)
    requires Alphabetical(order) && forall n :: n in order ==> n in m
    ensures Alphabetical(Shown(order, m, commandLineOnly, disabled))
  {
    if order != [] {
      var k := |order| - 1;
      var front := order[..k];
      assert forall i :: 0 <= i < k ==> front[i] == order[i];
      ShownSorted(front, m, commandLineOnly, disabled);
      ShownNames(front, m, commandLineOnly, disabled);
      var before := Shown(front, m, commandLineOnly, disabled);
      forall i | 0 <= i < |before| ensures Less(before[i], order[k]) {
        assert before[i] in front;
      }
    }
  }

  /** In full: every name is printed into exactly one list, the one of disabled features
      exactly if its state is Disable, and each list is in alphabetical order, so that it has
      no name twice. */
  lemma {:induction false} EveryNameOnce(order: seq<string>, m: Overrides, n: string)
    requires Alphabetical(order) && forall x :: x in order ==> x in m
    requires n in order
    ensures n in Shown(order, m, false, true) <==> m[n].state == Disable
    ensures n in Shown(order, m, false, false) <==> m[n].state == Enable || m[n].state == UseDefault
    ensures Alphabetical(Shown(order, m, false, true)) && Alphabetical(Shown(order, m, false, false))
  {
    ShownNames(order, m, false, true);
    ShownNames(order, m, false, false);
    ShownSorted(order, m, false, true);
    ShownSorted(order, m, false, false);
  }
}
