/** Where callbacks run, and what removing an observer stops. */
module ThreadSafeRemoval {
  import opened Common
  import opened ThreadSafeSpec
  import opened ThreadSafeInvariants
  import opened ThreadSafeRuns

  // ---------------------------------------------------- on the home sequence

  ghost predicate DisciplinedRun(steps: seq<Step>, states: seq<State>, home: (nat, nat) -> nat) {
    forall k :: 0 <= k < |steps| && k < |states| && Enabled(states[k], steps[k]) ==> Disciplined(states[k], steps[k], home)
  }

  lemma {:induction false} AtHomeHolds(policies: map<nat, Policy>, threads: nat, steps: seq<Step>, states: seq<State>, k: nat, home: (nat, nat) -> nat)
    requires Run(policies, threads, steps, states) && DisciplinedRun(steps, states, home) && k < |states|
    ensures AtHome(states[k], home)
  {
    hide Enabled, Apply;
    if k > 0 {
      hide AtHome, Disciplined;
      AtHomeHolds(policies, threads, steps, states, k - 1, home);
      StepAtHome(states[k - 1], steps[k - 1], home);
    }
  }

  /** If every observer always registers from one sequence, every callback made runs on it,
      and the runner that NotifyWrapper finds for an observer is the one it runs on. */
  lemma CallbacksAtHome(policies: map<nat, Policy>, threads: nat, steps: seq<Step>, states: seq<State>, k: nat, home: (nat, nat) -> nat)
    requires Run(policies, threads, steps, states) && DisciplinedRun(steps, states, home) && k < |states|
    ensures forall i :: 0 <= i < |states[k].log| && states[k].log[i].Called? ==>
      states[k].log[i].on == home(states[k].log[i].note.list, states[k].log[i].obs)
    ensures forall t :: HasTop(states[k], t) && Top(states[k], t).Checking? ==>
      var f := Top(states[k], t);
      f.note.list in states[k].lists && f.obs in states[k].lists[f.note.list].observers ==>
      states[k].lists[f.note.list].observers[f.obs] == f.on
  {
    hide Run, DisciplinedRun;
    AtHomeHolds(policies, threads, steps, states, k, home);
    forall t: nat | HasTop(states[k], t) && Top(states[k], t).Checking?
      ensures Top(states[k], t).on == home(Top(states[k], t).note.list, Top(states[k], t).obs)
    {
      assert ThreadHome(states[k].threads[t], home);
      assert FrameHome(Top(states[k], t), home);
    }
  }

  // ------------------------------------------------------------------ removal

  /** Thread `t` has found observer `o` of list `l` registered and is about to call it. */
  ghost predicate AboutToCall(s: State, t: nat, l: nat, o: nat) {
    HasTop(s, t) && Top(s, t).Cleared? && Top(s, t).note.list == l && Top(s, t).obs == o
  }

  ghost predicate Registered(s: State, l: nat, o: nat) {
    l in s.lists && o in s.lists[l].observers
  }

  lemma NestedBelow(stack: seq<Frame>)
    requires Nested(stack) && |stack| > 1
    ensures !Passing(stack[|stack| - 2])
  {
    assert Last(Front(stack)) == stack[|stack| - 2];
  }

  /** Only a locked check that finds the observer makes a thread about to call it. */
  lemma StepAboutToCall(s: State, step: Step, t: nat, l: nat, o: nat)
    requires Enabled(s, step) && Inv(s) && !Registered(s, l, o)
    requires t < |s.threads| && AboutToCall(Apply(s, step), t, l, o)
    ensures ThreadOf(step) != Some(t) && AboutToCall(s, t, l, o)
  {
    hide FirstFor, Posts, Local, GrantsFor, Enumerates, Occupies, Exclusive, Nested;
    if ThreadOf(step) == Some(t) {
      var stack := s.threads[t].stack;
      assert ThreadOk(s.threads[t]);
      if |stack| > 1 { NestedBelow(stack); }
      assert false;
    } else {
      OthersKept(s, step, t);
    }
  }

  lemma StepUnregistered(s: State, step: Step, l: nat, o: nat)
    requires Enabled(s, step) && !Registered(s, l, o)
    requires step.AddObserver? ==> step.list != l || step.obs != o
    ensures !Registered(Apply(s, step), l, o)
  {
    hide FirstFor, Posts, Local, GrantsFor, Enumerates, Occupies;
  }

  lemma {:induction false} StaysUnregistered(policies: map<nat, Policy>, threads: nat, steps: seq<Step>, states: seq<State>, i: nat, k: nat, l: nat, o: nat)
    requires Run(policies, threads, steps, states) && i <= k < |states|
    requires !Registered(states[i], l, o) && NotAdded(steps, i, k, l, o)
    ensures !Registered(states[k], l, o)
    decreases k - i
  {
    hide Enabled, Apply, Registered;
    if i < k {
      StaysUnregistered(policies, threads, steps, states, i, k - 1, l, o);
      StepUnregistered(states[k - 1], steps[k - 1], l, o);
    }
  }

  /** A removed observer that is about to be called was already past its locked check when
      it was removed, on the same thread, which has not moved since. */
  lemma {:induction false} CheckedBeforeRemoval(policies: map<nat, Policy>, threads: nat, steps: seq<Step>, states: seq<State>, i: nat, k: nat, l: nat, o: nat, t: nat)
    requires Run(policies, threads, steps, states) && i <= k < |states|
    requires !Registered(states[i], l, o) && NotAdded(steps, i, k, l, o) && AboutToCall(states[k], t, l, o)
    ensures AboutToCall(states[i], t, l, o)
    ensures forall m :: i <= m < k ==> ThreadOf(steps[m]) != Some(t)
    decreases k - i
  {
    hide Enabled, Apply, Registered, AboutToCall, Inv;
    if i < k {
      StaysUnregistered(policies, threads, steps, states, i, k - 1, l, o);
      InvHolds(policies, threads, steps, states, k - 1);
      StepKeepsThreads(states[k - 1], steps[k - 1]);
      assert t < |states[k].threads| by { AboutToCallThread(states[k], t, l, o); }
      StepAboutToCall(states[k - 1], steps[k - 1], t, l, o);
      CheckedBeforeRemoval(policies, threads, steps, states, i, k - 1, l, o, t);
    }
  }

  lemma AboutToCallThread(s: State, t: nat, l: nat, o: nat)
    requires AboutToCall(s, t, l, o)
    ensures t < |s.threads|
  {
  }

  /** Removing an observer from the sequence it is called on leaves nobody about to call it. */
  lemma NobodyAboutToCall(s: State, step: Step, l: nat, o: nat, home: (nat, nat) -> nat, t: nat)
    requires Enabled(s, step) && Inv(s) && AtHome(s, home)
    requires step.RemoveObserver? && step.list == l && step.obs == o
    requires CurrentSequence(s, step.thread) == Some(home(l, o))
    ensures !AboutToCall(Apply(s, step), t, l, o)
  {
    if AboutToCall(s, t, l, o) {
      assert ThreadHome(s.threads[t], home);
      assert FrameHome(Top(s, t), home);
      assert Occupies(s.threads[t], home(l, o));
      assert Occupies(s.threads[step.thread], home(l, o));
    }
  }

  ghost predicate IsCallOf(e: Event, l: nat, o: nat) {
    e.Called? && e.note.list == l && e.obs == o
  }

  lemma StepLog(s: State, step: Step, l: nat, o: nat)
    requires Enabled(s, step)
    requires step.Start? ==> !AboutToCall(s, step.thread, l, o)
    ensures s.log <= Apply(s, step).log
    ensures forall i :: |s.log| <= i < |Apply(s, step).log| ==> !IsCallOf(Apply(s, step).log[i], l, o)
  {
    hide FirstFor, Posts, Local, GrantsFor, Enumerates, Occupies;
  }

  /** Once RemoveObserver has run on an observer's own sequence, no callback for it starts
      until it is added again. */
  lemma {:induction false} NoCallAfterRemoval(policies: map<nat, Policy>, threads: nat, steps: seq<Step>, states: seq<State>, i: nat, k: nat, l: nat, o: nat, home: (nat, nat) -> nat)
    requires Run(policies, threads, steps, states) && DisciplinedRun(steps, states, home) && i < k < |states|
    requires steps[i].RemoveObserver? && steps[i].list == l && steps[i].obs == o
    requires steps[i].thread < |states[i].threads| && CurrentSequence(states[i], steps[i].thread) == Some(home(l, o))
    requires NotAdded(steps, i + 1, k, l, o)
    ensures states[i].log <= states[k].log
    ensures forall e :: |states[i].log| <= e < |states[k].log| ==> !IsCallOf(states[k].log[e], l, o)
    decreases k
  {
    if i + 1 == k {
      StepLog(states[i], steps[i], l, o);
    } else {
      NoCallAfterRemoval(policies, threads, steps, states, i, k - 1, l, o, home);
      NotAboutToCall(policies, threads, steps, states, i, k - 1, l, o, home);
      StepLog(states[k - 1], steps[k - 1], l, o);
    }
  }

  lemma NotAboutToCall(policies: map<nat, Policy>, threads: nat, steps: seq<Step>, states: seq<State>, i: nat, k: nat, l: nat, o: nat, home: (nat, nat) -> nat)
    requires Run(policies, threads, steps, states) && DisciplinedRun(steps, states, home) && i < k < |states|
    requires steps[i].RemoveObserver? && steps[i].list == l && steps[i].obs == o
    requires steps[i].thread < |states[i].threads| && CurrentSequence(states[i], steps[i].thread) == Some(home(l, o))
    requires NotAdded(steps, i + 1, k, l, o)
    ensures forall t :: !AboutToCall(states[k], t, l, o)
  {
    assert Enabled(states[i], steps[i]);
    hide AboutToCall, Inv, AtHome, DisciplinedRun;
    InvHolds(policies, threads, steps, states, i);
    AtHomeHolds(policies, threads, steps, states, i, home);
    assert !Registered(states[i + 1], l, o);
    forall t: nat ensures !AboutToCall(states[k], t, l, o) {
      NobodyAboutToCall(states[i], steps[i], l, o, home, t);
      if AboutToCall(states[k], t, l, o) {
        CheckedBeforeRemoval(policies, threads, steps, states, i + 1, k, l, o, t);
      }
    }
  }

  /** A removal from anywhere stops every delivery whose locked check comes later: until the
      observer is added again each such check drops it, and a callback that still starts
      had passed its check, on the same thread, before the removal. */
  lemma RemovalStopsLaterChecks(policies: map<nat, Policy>, threads: nat, steps: seq<Step>, states: seq<State>, i: nat, k: nat, l: nat, o: nat)
    requires Run(policies, threads, steps, states) && i < k < |steps|
    requires steps[i].RemoveObserver? && steps[i].list == l && steps[i].obs == o && NotAdded(steps, i + 1, k, l, o)
    ensures steps[k].Check? && Top(states[k], steps[k].thread).note.list == l && Top(states[k], steps[k].thread).obs == o
      ==> states[k + 1].log == states[k].log + [Stopped(o, Top(states[k], steps[k].thread).note)]
    ensures steps[k].Start? && AboutToCall(states[k], steps[k].thread, l, o) ==> AboutToCall(states[i], steps[k].thread, l, o)
  {
    assert Enabled(states[i], steps[i]) && Enabled(states[k], steps[k]);
    StaysUnregistered(policies, threads, steps, states, i + 1, k, l, o);
    if steps[k].Start? && AboutToCall(states[k], steps[k].thread, l, o) {
      CheckedBeforeRemoval(policies, threads, steps, states, i + 1, k, l, o, steps[k].thread);
    }
  }
}
