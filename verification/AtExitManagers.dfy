/** Which managers there are, which one a callback is registered with, and what is done when
    a call of ProcessCallbacksNow or of a destructor is over. */
module AtExitManagers {
  import opened AtExit
  import opened AtExitRuns

  /** A callback is registered with the manager on top, and waits there as the last one;
      without a manager nothing happens. */
  lemma RegistersOnTop(steps: seq<Step>, states: seq<State>, i: nat)
    requires Run(steps, states) && i < |steps| && steps[i] == Register
    ensures var s, u := states[i], states[i + 1];
      if s.managers == [] then u == s
      else
        var n := |s.managers| - 1;
        && u.home == s.home + [s.managers[n].id]
        && |u.managers| == n + 1 && u.managers[..n] == s.managers[..n]
        && u.managers[n].id == s.managers[n].id && u.managers[n].stack == s.managers[n].stack + [|s.home|]
        && u.ran == s.ran && u.passes == s.passes && u.lost == s.lost
  {
    assert Enabled(states[i], steps[i]) && states[i + 1] == Apply(states[i], steps[i]);
  }

  /** The managers after a step: a new one comes on top; the end of a destructor's pass, or a
      destructor while managers are disabled, takes its manager away, and any left above it;
      nothing else changes which managers there are. */
  lemma StepManagers(s: State, step: Step, id: nat)
    requires Inv(s) && Enabled(s, step)
    ensures var u := Apply(s, step);
      Alive(u, id) <==>
        if step == NewManager then Alive(s, id) || id == s.managerIds
        else if step == Destroy && s.disabled && s.managers != [] then Alive(s, id) && id < Last(s.managers).id
        else if step == End && Last(s.passes).final then Alive(s, id) && id < Last(s.passes).manager
        else Alive(s, id)
    ensures step == NewManager ==> Last(Apply(s, step).managers).id == s.managerIds
  {
    hide Conserved, LostOk, PendingOk, LastBirth, Position, Waiting;
    match step
    case NewManager =>
      var u := Apply(s, step);
      assert u.managers[|s.managers|].id == s.managerIds;
      assert forall i :: 0 <= i < |s.managers| ==> u.managers[i] == s.managers[i];
    case Register => if s.managers != [] { RegisterAlive(s); }
    case Begin => if s.managers != [] { TakeTopAlive(s, false); }
    case Destroy =>
      if s.managers != [] {
        TakeTopAlive(s, true);
        assert s.managers[|s.managers| - 1] == Last(s.managers);
        StaysBelow(s, Last(s.managers).id, id);
      }
    case RunNext =>
    case End =>
      var p := Last(s.passes);
      if p.final {
        assert s.passes[|s.passes| - 1] == p;
        StaysBelow(s.(passes := Front(s.passes)), p.manager, id);
      }
    case Disable =>
  }

  lemma StaysBelow(s: State, m: nat, id: nat)
    requires Stacked(s.managers) && Alive(s, m)
    ensures Alive(Gone(s, m), id) <==> Alive(s, id) && id < m
  {
    var i := Position(s.managers, m);
    var j :| 0 <= j < |s.managers| && s.managers[j].id == m;
    assert i < |s.managers|;
    assert forall k :: 0 <= k < i ==> Gone(s, m).managers[k] == s.managers[k] && s.managers[k].id < s.managers[i].id;
    if Alive(s, id) && id < m {
      GoneAlive(s, m, id);
    }
  }

  /** The passes after a step: beginning adds one over the manager on top, with what is
      waiting there; running takes the last task of the innermost; ending takes the innermost
      away; nothing else changes them. */
  lemma StepPasses(s: State, step: Step)
    requires Enabled(s, step)
    ensures var u, n := Apply(s, step), |s.passes|;
      if (step == Begin || (step == Destroy && !s.disabled)) && s.managers != []
      then
        var top := Last(s.managers);
        && |u.passes| == n + 1 && u.passes[..n] == s.passes && u.passes[n].manager == top.id
        && u.passes[n].tasks == top.stack && (u.passes[n].final <==> step == Destroy)
        && u.managers[..|s.managers| - 1] == s.managers[..|s.managers| - 1] && Last(u.managers).stack == []
      else if step == RunNext
      then
        && |u.passes| == n && u.passes[..n - 1] == s.passes[..n - 1]
        && s.passes[n - 1].tasks == u.passes[n - 1].tasks + [Last(u.ran).task] && Front(u.ran) == s.ran
      else if step == End then u.passes == s.passes[..n - 1]
      else u.passes == s.passes
  {
    hide Position, Waiting;
  }

  // ------------------------------------------------------------ until it is over

  /** Callback `t` has run, or the pass at height `h` still has to run it. */
  ghost predicate Due(s: State, h: nat, t: nat) {
    TimesRun(s.ran, t) >= 1 || (h < |s.passes| && t in s.passes[h].tasks)
  }

  lemma StepDue(s: State, step: Step, h: nat, t: nat)
    requires Enabled(s, step) && Due(s, h, t)
    ensures Due(Apply(s, step), h, t)
  {
    hide Position, Waiting;
    if step == RunNext {
      var p := Last(s.passes);
      assert Front(s.ran + [Ran(p.id, p.manager, Last(p.tasks))]) == s.ran;
      assert p.tasks == Front(p.tasks) + [Last(p.tasks)];
    }
  }

  lemma {:induction false} StaysDue(steps: seq<Step>, states: seq<State>, i: nat, k: nat, h: nat, t: nat)
    requires Run(steps, states) && i <= k <= |steps| && Due(states[i], h, t)
    ensures Due(states[k], h, t)
    decreases k - i
  {
    hide Enabled, Apply, Due;
    if i < k {
      StaysDue(steps, states, i, k - 1, h, t);
      StepDue(states[k - 1], steps[k - 1], h, t);
    }
  }

  /** When ProcessCallbacksNow, or a destructor with managers not disabled, is over, that is
      when no more passes are in progress than at its call, every callback that was waiting
      in the manager on top at the call has run, exactly once. */
  lemma PassFinishes(steps: seq<Step>, states: seq<State>, i: nat, k: nat, t: nat)
    requires Run(steps, states) && i < k <= |steps| && states[i].managers != []
    requires steps[i] == Begin || (steps[i] == Destroy && !states[i].disabled)
    requires t in Last(states[i].managers).stack && |states[k].passes| <= |states[i].passes|
    ensures TimesRun(states[k].ran, t) == 1
  {
    assert Enabled(states[i], steps[i]) && states[i + 1] == Apply(states[i], steps[i]);
    var h := |states[i].passes|;
    assert Due(states[i + 1], h, t);
    hide Enabled, Apply, TimesRun;
    StaysDue(steps, states, i + 1, k, h, t);
    RunKeepsInv(steps, states, i);
    WaitingIsNamed(states[i], t);
    RunGrows(steps, states, i, k);
    RunsAtMostOnce(steps, states, k, t);
  }

  lemma WaitingIsNamed(s: State, t: nat)
    requires Conserved(s) && s.managers != [] && t in Last(s.managers).stack
    ensures t < |s.home|
  {
    OccursIn(Last(s.managers).stack, t);
    assert Places(s, t) >= InManagers(s.managers, t) >= 1;
  }

  /** Manager `m` is gone, or the pass at height `h` is that of its destructor. */
  ghost predicate Going(s: State, h: nat, m: nat) {
    !Alive(s, m) || (h < |s.passes| && s.passes[h].final && s.passes[h].manager == m)
  }

  lemma StepGoing(s: State, step: Step, h: nat, m: nat)
    requires Inv(s) && Enabled(s, step) && Going(s, h, m) && m < s.managerIds
    ensures Going(Apply(s, step), h, m)
  {
    if !Alive(s, m) {
      StepAlive(s, step, m);
    } else {
      StepManagers(s, step, m);
      hide Alive, Inv, Position, Waiting;
    }
  }

  lemma {:induction false} StaysGoing(steps: seq<Step>, states: seq<State>, i: nat, k: nat, h: nat, m: nat)
    requires Run(steps, states) && i <= k <= |steps| && Going(states[i], h, m) && m < states[i].managerIds
    ensures Going(states[k], h, m)
    decreases k - i
  {
    hide Enabled, Apply, Going, Inv;
    if i < k {
      StaysGoing(steps, states, i, k - 1, h, m);
      RunGrows(steps, states, i, k - 1);
      RunKeepsInv(steps, states, k - 1);
      StepGoing(states[k - 1], steps[k - 1], h, m);
    }
  }

  /** When a destructor is over its manager is gone, for good. */
  lemma DestructorEnds(steps: seq<Step>, states: seq<State>, i: nat, k: nat)
    requires Run(steps, states) && i < k <= |steps| && steps[i] == Destroy && states[i].managers != []
    requires |states[k].passes| <= |states[i].passes|
    ensures !Alive(states[k], Last(states[i].managers).id)
  {
    var s, m, h := states[i], Last(states[i].managers).id, |states[i].passes|;
    RunKeepsInv(steps, states, i);
    assert Enabled(s, steps[i]) && states[i + 1] == Apply(s, steps[i]);
    assert s.managers[|s.managers| - 1].id == m < s.managerIds;
    StepManagers(s, steps[i], m);
    assert Going(states[i + 1], h, m);
    hide Enabled, Apply, Inv, Alive;
    RunGrows(steps, states, i, i + 1);
    StaysGoing(steps, states, i + 1, k, h, m);
  }
}
