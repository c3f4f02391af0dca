/** What AtExitManager promises over whole runs: which callbacks run, how often, in what
    order and by whom, and exactly which are lost. */
module AtExitRuns {
  import opened AtExit

  ghost predicate Run(steps: seq<Step>, states: seq<State>) {
    && |states| == |steps| + 1 && states[0] == INIT
    && forall k :: 0 <= k < |steps| ==> Enabled(states[k], steps[k]) && states[k + 1] == Apply(states[k], steps[k])
  }

  lemma InitInv()
    ensures Inv(INIT)
  {
  }

  lemma {:induction false} RunKeepsInv(steps: seq<Step>, states: seq<State>, k: nat)
    requires Run(steps, states) && k <= |steps|
    ensures Inv(states[k])
  {
    hide Inv, Enabled, Apply;
    if k == 0 {
      InitInv();
    } else {
      RunKeepsInv(steps, states, k - 1);
      StepKeepsInv(states[k - 1], steps[k - 1]);
    }
  }

  ghost predicate Reachable(s: State) {
    exists steps: seq<Step>, states: seq<State> :: Run(steps, states) && states[|steps|] == s
  }

  lemma InitReachable()
    ensures Reachable(INIT)
  {
    assert Run([], [INIT]);
  }

  lemma Reaches(s: State, step: Step)
    requires Reachable(s) && Enabled(s, step)
    ensures Reachable(Apply(s, step))
  {
    hide Enabled, Apply;
    var steps, states :| Run(steps, states) && states[|steps|] == s;
    assert Run(steps + [step], states + [Apply(s, step)]);
  }

  lemma ReachableInv(s: State)
    requires Reachable(s)
    ensures Inv(s)
  {
    hide Inv;
    var steps, states :| Run(steps, states) && states[|steps|] == s;
    RunKeepsInv(steps, states, |steps|);
  }

  // -------------------------------------------------------------- how often

  /** In every run: a callback runs at most once, and has run exactly when it is neither
      waiting, nor taken by a pass in progress, nor lost with its manager. */
  lemma RunsAtMostOnce(steps: seq<Step>, states: seq<State>, k: nat, t: nat)
    requires Run(steps, states) && k <= |steps| && t < |states[k].home|
    ensures TimesRun(states[k].ran, t) <= 1
    ensures TimesRun(states[k].ran, t) == 1 <==>
            InManagers(states[k].managers, t) + InPasses(states[k].passes, t) + Occurs(states[k].lost, t) == 0
  {
    RunKeepsInv(steps, states, k);
    assert Places(states[k], t) == 1;
  }

  /** A callback has been run, or is being run, exactly once if a pass over its manager has
      begun since it was registered, and not at all otherwise; it is lost exactly if none
      has begun and its manager is gone. */
  lemma RunsExactlyOnce(steps: seq<Step>, states: seq<State>, k: nat, t: nat)
    requires Run(steps, states) && k <= |steps| && t < |states[k].home|
    ensures var s := states[k];
      && TimesRun(s.ran, t) + InPasses(s.passes, t) == One(t < LastBirth(s.births, s.home[t]))
      && (t in s.lost <==> LastBirth(s.births, s.home[t]) <= t && !Alive(s, s.home[t]))
  {
    var s := states[k];
    RunKeepsInv(steps, states, k);
    assert Places(s, t) == 1 && PendingOk(s, t);
    OccursIn(s.lost, t);
    if t in s.lost {
      var i :| 0 <= i < |s.lost| && s.lost[i] == t;
    } else if LastBirth(s.births, s.home[t]) <= t {
      WaitsAtHome(s, s.managers, t);
    }
  }

  // ------------------------------------------------------- what stays over a run

  lemma StepGrows(s: State, step: Step)
    requires Enabled(s, step)
    ensures var u := Apply(s, step);
      s.home <= u.home && s.births <= u.births && s.lost <= u.lost && s.managerIds <= u.managerIds
  {
  }

  lemma StepAlive(s: State, step: Step, id: nat)
    requires Enabled(s, step) && id < s.managerIds && !Alive(s, id)
    ensures !Alive(Apply(s, step), id)
    ensures var u := Apply(s, step); forall b :: |s.births| <= b < |u.births| ==> u.births[b].manager != id
  {
    var u := Apply(s, step);
    match step
    case Register => if s.managers != [] { RegisterAlive(s); }
    case Begin => if s.managers != [] { TakeTopAlive(s, false); assert s.managers[|s.managers| - 1] == Last(s.managers); }
    case Destroy => if s.managers != [] { TakeTopAlive(s, true); assert s.managers[|s.managers| - 1] == Last(s.managers); }
    case _ =>
  }

  lemma {:induction false} RunGrows(steps: seq<Step>, states: seq<State>, i: nat, k: nat)
    requires Run(steps, states) && i <= k <= |steps|
    ensures var s, u := states[i], states[k];
      s.home <= u.home && s.births <= u.births && s.lost <= u.lost && s.managerIds <= u.managerIds
    decreases k - i
  {
    hide Enabled, Apply;
    if i < k {
      RunGrows(steps, states, i, k - 1);
      StepGrows(states[k - 1], steps[k - 1]);
    }
  }

  /** A manager that is gone is never there again, and no pass over it begins. */
  lemma {:induction false} GoneForGood(steps: seq<Step>, states: seq<State>, i: nat, k: nat, id: nat)
    requires Run(steps, states) && i <= k <= |steps| && id < states[i].managerIds && !Alive(states[i], id)
    ensures !Alive(states[k], id)
    ensures forall b :: |states[i].births| <= b < |states[k].births| ==> states[k].births[b].manager != id
    decreases k - i
  {
    hide Enabled, Apply, Alive;
    if i < k {
      GoneForGood(steps, states, i, k - 1, id);
      RunGrows(steps, states, i, k - 1);
      StepAlive(states[k - 1], steps[k - 1], id);
      StepGrows(states[k - 1], steps[k - 1]);
    }
  }

  lemma {:induction false} LastBirthKept(births: seq<Birth>, n: nat, id: nat)
    requires n <= |births| && forall b :: n <= b < |births| ==> births[b].manager != id
    ensures LastBirth(births, id) == LastBirth(births[..n], id)
  {
    if n < |births| {
      assert Front(births)[..n] == births[..n];
      LastBirthKept(Front(births), n, id);
    } else {
      assert births[..n] == births;
    }
  }

  lemma {:induction false} LastBirthAtLeast(births: seq<Birth>, n: nat)
    requires n < |births| && forall b :: n <= b < |births| ==> births[n].count <= births[b].count
    ensures births[n].count <= LastBirth(births, births[n].manager)
  {
    if n < |births| - 1 && Last(births).manager != births[n].manager {
      assert Front(births)[n] == births[n];
      LastBirthAtLeast(Front(births), n);
    }
  }

  lemma StepBirthCount(s: State, step: Step)
    requires Enabled(s, step)
    ensures forall b :: |s.births| <= b < |Apply(s, step).births| ==> Apply(s, step).births[b].count == |s.home|
  {
  }

  lemma {:induction false} LaterBirths(steps: seq<Step>, states: seq<State>, i: nat, k: nat)
    requires Run(steps, states) && i <= k <= |steps|
    ensures forall b :: |states[i].births| <= b < |states[k].births| ==> |states[i].home| <= states[k].births[b].count
    decreases k - i
  {
    hide Enabled, Apply;
    if i < k {
      LaterBirths(steps, states, i, k - 1);
      RunGrows(steps, states, i, k - 1);
      StepGrows(states[k - 1], steps[k - 1]);
      StepBirthCount(states[k - 1], steps[k - 1]);
    }
  }

  // -------------------------------------------------------------- destruction

  /** Step `i` is the start of a destructor that runs its final pass, over manager `m`. */
  ghost predicate FinalPassAt(steps: seq<Step>, states: seq<State>, i: nat, m: nat) {
    && i < |steps| && i < |states| && steps[i] == Destroy
    && states[i].managers != [] && !states[i].disabled && Last(states[i].managers).id == m
  }

  lemma FinalPassBegins(steps: seq<Step>, states: seq<State>, i: nat, m: nat)
    requires Run(steps, states) && FinalPassAt(steps, states, i, m)
    ensures states[i + 1].births == states[i].births + [Birth(m, |states[i].home|)]
    ensures states[i + 1].home == states[i].home
  {
  }

  /** Whatever was registered with a manager before its destructor began, with managers not
      disabled, is run exactly once, now or in a pass still in progress. */
  lemma DestroyRunsAll(steps: seq<Step>, states: seq<State>, i: nat, k: nat, m: nat, t: nat)
    requires Run(steps, states) && FinalPassAt(steps, states, i, m) && i < k <= |steps|
    requires t < |states[i].home| && states[i].home[t] == m
    ensures t < |states[k].home| && TimesRun(states[k].ran, t) + InPasses(states[k].passes, t) == 1
  {
    hide Enabled, Apply, TimesRun, InPasses;
    FinalPassBegins(steps, states, i, m);
    RunGrows(steps, states, i + 1, k);
    LaterBirths(steps, states, i, k);
    LastBirthAtLeast(states[k].births, |states[i].births|);
    RunsExactlyOnce(steps, states, k, t);
  }

  /** If no other pass over the manager begins after its final one, a callback of the
      destroyed manager is run exactly if it was registered before the final pass began. */
  lemma FinalPassDecides(steps: seq<Step>, states: seq<State>, i: nat, k: nat, m: nat, t: nat)
    requires Run(steps, states) && FinalPassAt(steps, states, i, m) && i < k <= |steps|
    requires t < |states[k].home| && states[k].home[t] == m && !Alive(states[k], m)
    requires forall b :: |states[i].births| < b < |states[k].births| ==> states[k].births[b].manager != m
    ensures TimesRun(states[k].ran, t) + InPasses(states[k].passes, t) == One(t < |states[i].home|)
    ensures t in states[k].lost <==> |states[i].home| <= t
  {
    hide Enabled, Apply, TimesRun, InPasses, Alive;
    FinalPassBegins(steps, states, i, m);
    RunGrows(steps, states, i + 1, k);
    var n := |states[i].births| + 1;
    LastBirthKept(states[k].births, n, m);
    assert states[k].births[..n] == states[i + 1].births;
    RunsExactlyOnce(steps, states, k, t);
  }

  /** With managers disabled, what is waiting in a manager when it is destroyed is lost and
      never run. */
  lemma DisabledLoses(steps: seq<Step>, states: seq<State>, i: nat, k: nat, t: nat)
    requires Run(steps, states) && i < k <= |steps| && steps[i] == Destroy
    requires states[i].disabled && states[i].managers != [] && t in Last(states[i].managers).stack
    ensures t in states[k].lost && TimesRun(states[k].ran, t) == 0
  {
    var s, top := states[i], Last(states[i].managers);
    RunKeepsInv(steps, states, i);
    OnlyTopGoes(s);
    assert t in states[i + 1].lost by {
      assert [top] == [] + [top] && Front([top]) == [];
      assert Waiting([top]) == Waiting([]) + top.stack;
    }
    RunGrows(steps, states, i + 1, k);
    assert states[k].lost[..|states[i + 1].lost|] == states[i + 1].lost;
    RunKeepsInv(steps, states, k);
    OccursIn(states[k].lost, t);
    assert Places(states[k], t) <= 1;
  }

  lemma OnlyTopGoes(s: State)
    requires Inv(s) && s.managers != []
    ensures Gone(s, Last(s.managers).id) == s.(managers := Front(s.managers), lost := s.lost + Waiting([Last(s.managers)]))
  {
    TopGoes(s);
  }

  lemma TopGoes(s: State)
    requires Stacked(s.managers) && s.managers != []
    ensures Gone(s, Last(s.managers).id) == s.(managers := Front(s.managers), lost := s.lost + Waiting([Last(s.managers)]))
  {
    var n := |s.managers| - 1;
    assert s.managers[n] == Last(s.managers);
    assert Position(s.managers, Last(s.managers).id) == n;
    assert s.managers[n..] == [Last(s.managers)];
  }

  // ------------------------------------------------------------- nothing is lost

  /** While a destructor runs, nothing waits in its manager or above it. */
  ghost predicate Quiet(s: State) {
    && s.lost == [] && !s.disabled
    && forall i, j :: 0 <= i < |s.passes| && s.passes[i].final && 0 <= j < |s.managers| && s.passes[i].manager <= s.managers[j].id
         ==> s.managers[j].stack == []
  }

  predicate InDestructor(s: State) {
    exists i :: 0 <= i < |s.passes| && s.passes[i].final
  }

  lemma {:induction false} WaitingNone(ms: seq<Manager>)
    requires forall j :: 0 <= j < |ms| ==> ms[j].stack == []
    ensures Waiting(ms) == []
  {
    if ms != [] {
      WaitingNone(Front(ms));
    }
  }

  lemma StepQuiet(s: State, step: Step)
    requires Inv(s) && Quiet(s) && Enabled(s, step) && step != Disable
    requires step == Register ==> !InDestructor(s)
    ensures Quiet(Apply(s, step))
  {
    hide Conserved, PendingOk, LostOk;
    var u := Apply(s, step);
    match step
    case NewManager =>
    case Register => if s.managers != [] { assert u.passes == s.passes; }
    case Begin =>
    case Destroy =>
      if s.managers != [] {
        forall i, j | 0 <= i < |u.passes| && u.passes[i].final && 0 <= j < |u.managers| && u.passes[i].manager <= u.managers[j].id
          ensures u.managers[j].stack == []
        {
          assert i == |s.passes| ==> j == |s.managers| - 1;
        }
      }
    case RunNext =>
      assert forall i :: 0 <= i < |u.passes| ==> u.passes[i].final == s.passes[i].final && u.passes[i].manager == s.passes[i].manager;
    case End => EndQuiet(s);
  }

  lemma EndQuiet(s: State)
    requires Ordered(s) && FinalOk(s) && Quiet(s) && Enabled(s, End)
    ensures Quiet(Apply(s, End))
  {
    var p := Last(s.passes);
    if p.final {
      var i := Position(s.managers, p.manager);
      var gone := s.managers[i..];
      assert s.passes[|s.passes| - 1] == p;
      forall j | 0 <= j < |gone| ensures gone[j].stack == [] {
        assert gone[j] == s.managers[i + j];
        assert p.manager <= s.managers[i + j].id;
      }
      WaitingNone(gone);
      assert s.lost + [] == s.lost;
    }
  }

  /** Nothing is ever lost if managers are not disabled and nothing registers while a
      destructor runs its callbacks. */
  lemma {:induction false} NothingLost(steps: seq<Step>, states: seq<State>, k: nat)
    requires Run(steps, states) && k <= |steps|
    requires forall j :: 0 <= j < k ==> steps[j] != Disable && (steps[j] == Register ==> !InDestructor(states[j]))
    ensures Quiet(states[k])
    ensures states[k].lost == []
  {
    if k > 0 {
      hide Enabled, Apply, Inv, Quiet, InDestructor;
      NothingLost(steps, states, k - 1);
      RunKeepsInv(steps, states, k - 1);
      StepQuiet(states[k - 1], steps[k - 1]);
      QuietLost(states[k]);
    }
  }

  lemma QuietLost(s: State)
    requires Quiet(s)
    ensures s.lost == []
  {
  }

  /** Registering during a destructor's pass loses the callback: the second one here is
      never run. */
  lemma LostInDestructor() returns (states: seq<State>)
    ensures Run([NewManager, Register, Destroy, RunNext, Register, End], states)
    ensures states[6].lost == [1] && TimesRun(states[6].ran, 1) == 0
  {
    var births := [Birth(0, 1)];
    var s1 := State([Manager(0, [])], [], [], [], [], 1, [], false);
    var s2 := State([Manager(0, [0])], [], [], [0], [], 1, [], false);
    var s3 := State([Manager(0, [])], [Pass(0, 0, [0], true)], [], [0], [], 1, births, false);
    var s4 := State([Manager(0, [])], [Pass(0, 0, [], true)], [Ran(0, 0, 0)], [0], [], 1, births, false);
    var s5 := State([Manager(0, [1])], [Pass(0, 0, [], true)], [Ran(0, 0, 0)], [0, 0], [], 1, births, false);
    var s6 := State([], [], [Ran(0, 0, 0)], [0, 0], [1], 1, births, false);
    assert Apply(INIT, NewManager) == s1;
    assert Apply(s1, Register) == s2 by { RegisterAlone(s1); }
    assert Apply(s2, Destroy) == s3 by { assert Front(s2.managers) == []; }
    assert Apply(s3, RunNext) == s4 by { assert Front(s3.passes) == [] && Front([0]) == []; }
    assert Apply(s4, Register) == s5 by { RegisterAlone(s4); }
    assert Apply(s5, End) == s6 by { WaitsThere(s5); }
    assert TimesRun(s6.ran, 1) == 0 by { assert Front(s6.ran) == []; }
    hide Apply, Enabled;
    states := [INIT, s1, s2, s3, s4, s5, s6];
  }

  lemma RegisterAlone(s: State)
    requires s.managers == [Manager(0, [])]
    ensures Apply(s, Register) == s.(managers := [Manager(0, [|s.home|])], home := s.home + [0])
  {
    assert Front(s.managers) == [];
    assert Last(s.managers).stack + [|s.home|] == [|s.home|];
  }

  lemma WaitsThere(s: State)
    requires s.managers == [Manager(0, [1])] && s.passes == [Pass(0, 0, [], true)] && s.lost == []
    ensures Apply(s, End) == s.(managers := [], passes := [], lost := [1])
  {
    var ms := s.managers;
    assert Front(s.passes) == [] && Position(ms, 0) == 0;
    assert ms[..0] == [] && ms[0..] == ms;
    assert Front(ms) == [] && Waiting(ms) == Waiting([]) + [1];
  }

  // ------------------------------------------------------------- order and place

  /** Every callback that was run was run by the manager that was on top when it was
      registered, in a pass over that manager that began after the registration. */
  lemma RunByItsManager(steps: seq<Step>, states: seq<State>, k: nat, i: nat)
    requires Run(steps, states) && k <= |steps| && i < |states[k].ran|
    ensures var s := states[k];
      var e := s.ran[i];
      && e.task < |s.home| && s.home[e.task] == e.manager
      && e.pass < |s.births| && s.births[e.pass].manager == e.manager && e.task < s.births[e.pass].count
  {
    RunKeepsInv(steps, states, k);
    assert EventOk(states[k], states[k].ran[i]);
  }

  /** In every run: the callbacks a pass runs are run in reverse order of registration, by
      the manager that was on top when they were registered, and were all registered before
      the pass began. */
  lemma RunsInReverse(steps: seq<Step>, states: seq<State>, k: nat, i: nat, j: nat)
    requires Run(steps, states) && k <= |steps| && i < j < |states[k].ran|
    requires states[k].ran[i].pass == states[k].ran[j].pass
    ensures var s := states[k];
            && s.ran[i].task > s.ran[j].task
            && s.ran[i].pass < |s.births| && s.ran[i].task < s.births[s.ran[i].pass].count
            && s.ran[i].task < |s.home| && s.ran[j].task < |s.home|
            && s.home[s.ran[i].task] == s.ran[i].manager && s.home[s.ran[j].task] == s.ran[j].manager
  {
    RunKeepsInv(steps, states, k);
    RunByItsManager(steps, states, k, i);
    RunByItsManager(steps, states, k, j);
  }
}
