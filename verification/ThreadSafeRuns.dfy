/** What ObserverListThreadSafe promises over whole runs: exactly one callback per
    observer and notification, on the observer's sequence, and none after removal. */
module ThreadSafeRuns {
  import opened Common
  import opened ThreadSafeSpec
  import opened ThreadSafeCount
  import opened ThreadSafeInvariants

  // ---------------------------------------------------------------- every state

  lemma {:induction false} InvHolds(policies: map<nat, Policy>, threads: nat, steps: seq<Step>, states: seq<State>, k: nat)
    requires Run(policies, threads, steps, states) && k < |states|
    ensures Inv(states[k])
  {
    hide Enabled, Apply;
    if k == 0 {
      hide Inv;
      InitInv(policies, threads);
    } else {
      hide Inv;
      InvHolds(policies, threads, steps, states, k - 1);
      StepKeepsInv(states[k - 1], steps[k - 1]);
    }
  }

  lemma InitInv(policies: map<nat, Policy>, threads: nat)
    ensures Inv(Init(policies, threads))
  {
  }

  /** In every state of every run the thread-local notification of every thread is that of
      the innermost callback in progress on it. */
  lemma CurrentIsTopOfStack(policies: map<nat, Policy>, threads: nat, steps: seq<Step>, states: seq<State>, k: nat, t: nat)
    requires Run(policies, threads, steps, states) && k < |states| && t < |states[k].threads|
    ensures states[k].threads[t].current == TopNote(states[k].threads[t].stack)
  {
    InvHolds(policies, threads, steps, states, k);
  }

  lemma {:induction false} BalancedHolds(policies: map<nat, Policy>, threads: nat, steps: seq<Step>, states: seq<State>, k: nat, g: Grant)
    requires Run(policies, threads, steps, states) && k < |states|
    ensures Balanced(states[k], g)
  {
    hide Enabled, Apply, Balanced;
    if k == 0 {
      InitBalanced(policies, threads, g);
    } else {
      BalancedHolds(policies, threads, steps, states, k - 1, g);
      StepBalances(states[k - 1], steps[k - 1], g);
    }
  }

  lemma {:induction false} IdleThreads(threads: nat, g: Grant)
    ensures InThreads(seq(threads, _ => Thread([], None)), g) == 0
  {
    var s := seq(threads, _ => Thread([], None));
    if threads > 0 {
      IdleThreads(threads - 1, g);
      assert Front(s) == seq(threads - 1, _ => Thread([], None));
    }
  }

  lemma InitBalanced(policies: map<nat, Policy>, threads: nat, g: Grant)
    ensures Balanced(Init(policies, threads), g)
  {
    var s := Init(policies, threads);
    var idle := seq(threads, _ => Thread([], None));
    IdleThreads(threads, g);
    assert s.threads == idle;
  }

  // ------------------------------------------------------------- notifications

  /** A notification of one of the lists that has been sent. */
  ghost predicate Sent(n: Note, lists: set<nat>, notes: nat) {
    n.list in lists && n.id < notes
  }

  ghost predicate SentTasks(tasks: seq<Task>, lists: set<nat>, notes: nat) {
    forall i :: 0 <= i < |tasks| && tasks[i].Deliver? ==> Sent(tasks[i].note, lists, notes)
  }

  ghost predicate SentFrame(f: Frame, lists: set<nat>, notes: nat) {
    && (!f.User? ==> Sent(f.note, lists, notes))
    && (f.Calling? && f.saved.Some? ==> Sent(f.saved.value, lists, notes))
  }

  ghost predicate SentThread(th: Thread, lists: set<nat>, notes: nat) {
    && (th.current.Some? ==> Sent(th.current.value, lists, notes))
    && forall i :: 0 <= i < |th.stack| ==> SentFrame(th.stack[i], lists, notes)
  }

  ghost predicate SentGrants(grants: seq<Grant>, lists: set<nat>, notes: nat) {
    forall i :: 0 <= i < |grants| ==> Sent(grants[i].note, lists, notes)
  }

  ghost predicate AllSent(s: State) {
    && SentTasks(s.tasks, s.lists.Keys, s.notes) && SentGrants(s.grants, s.lists.Keys, s.notes)
    && forall t :: 0 <= t < |s.threads| ==> SentThread(s.threads[t], s.lists.Keys, s.notes)
  }

  lemma {:induction false} GrantsForNote(order: seq<nat>, n: Note)
    ensures forall i :: 0 <= i < |GrantsFor(order, n)| ==> GrantsFor(order, n)[i].note == n
  {
    if order != [] {
      GrantsForNote(Front(order), n);
    }
  }

  lemma {:induction false} PostsNote(order: seq<nat>, m: map<nat, nat>, n: Note, skip: Option<nat>)
    requires forall o :: o in order ==> o in m
    ensures forall i :: 0 <= i < |Posts(order, m, n, skip)| ==>
      Posts(order, m, n, skip)[i].Deliver? && Posts(order, m, n, skip)[i].note == n
  {
    if order != [] {
      PostsNote(Front(order), m, n, skip);
    }
  }

  lemma StepKeepsLists(s: State, step: Step)
    requires Enabled(s, step)
    ensures Apply(s, step).lists.Keys == s.lists.Keys && s.notes <= Apply(s, step).notes
    ensures forall l :: l in s.lists ==> Apply(s, step).lists[l].policy == s.lists[l].policy
  {
    hide FirstFor, Posts, Local, GrantsFor, Enumerates, Occupies;
  }

  lemma StepSentQueues(s: State, step: Step)
    requires Enabled(s, step) && AllSent(s)
    ensures var after := Apply(s, step);
      && SentTasks(after.tasks, s.lists.Keys, after.notes)
      && SentGrants(after.grants, s.lists.Keys, after.notes)
  {
    hide Posts, Local, GrantsFor, Occupies;
    match step
    case AddObserver(t, l, o) => assert SentThread(s.threads[t], s.lists.Keys, s.notes);
    case Notify(t, l, order) =>
      GrantsForNote(order, Note(l, s.notes));
      PostsNote(order, s.lists[l].observers, Note(l, s.notes), None);
    case NotifySynchronously(t, l, order) =>
      GrantsForNote(order, Note(l, s.notes));
      PostsNote(order, s.lists[l].observers, Note(l, s.notes), CurrentSequence(s, t));
    case _ =>
  }

  lemma StepSentThread(s: State, step: Step, t: nat)
    requires Enabled(s, step) && ThreadOf(step) == Some(t) && |Apply(s, step).threads| == |s.threads|
    requires AllSent(s)
    ensures SentThread(Apply(s, step).threads[t], s.lists.Keys, Apply(s, step).notes)
  {
    hide Posts, Local, GrantsFor, Occupies;
    var th := s.threads[t];
    assert SentThread(th, s.lists.Keys, s.notes);
    if th.stack != [] {
      assert SentFrame(Last(th.stack), s.lists.Keys, s.notes);
    }
    match step
    case RunTask(_, on) =>
    case NotifySynchronously(_, l, order) =>
    case AddObserver(_, _, _) =>
    case RemoveObserver(_, _, _) =>
    case Notify(_, _, _) =>
    case LoopNext(_) =>
    case Check(_) =>
    case Start(_) =>
    case Return(_) =>
  }

  lemma SentMore(th: Thread, lists: set<nat>, notes: nat, more: nat)
    requires SentThread(th, lists, notes) && notes <= more
    ensures SentThread(th, lists, more)
  {
  }

  lemma StepAllSent(s: State, step: Step)
    requires Enabled(s, step) && AllSent(s)
    ensures AllSent(Apply(s, step))
  {
    hide Enabled, Apply, SentTasks, SentGrants, SentThread;
    var after := Apply(s, step);
    StepSentQueues(s, step);
    StepKeepsLists(s, step);
    StepKeepsThreads(s, step);
    forall t | 0 <= t < |after.threads|
      ensures SentThread(after.threads[t], s.lists.Keys, after.notes)
    {
      if ThreadOf(step) == Some(t) {
        StepSentThread(s, step, t);
      } else {
        OthersKept(s, step, t);
        SentMore(s.threads[t], s.lists.Keys, s.notes, after.notes);
      }
    }
  }

  lemma {:induction false} AllSentHolds(policies: map<nat, Policy>, threads: nat, steps: seq<Step>, states: seq<State>, k: nat)
    requires Run(policies, threads, steps, states) && k < |states|
    ensures AllSent(states[k]) && states[k].lists.Keys == policies.Keys
  {
    hide Enabled, Apply;
    if k > 0 {
      hide AllSent;
      AllSentHolds(policies, threads, steps, states, k - 1);
      StepAllSent(states[k - 1], steps[k - 1]);
      StepKeepsLists(states[k - 1], steps[k - 1]);
    }
  }

  /** A NotifyWrapper that is about to look its observer up always can. */
  lemma CheckNeverStuck(policies: map<nat, Policy>, threads: nat, steps: seq<Step>, states: seq<State>, k: nat, t: nat)
    requires Run(policies, threads, steps, states) && k < |states|
    requires HasTop(states[k], t) && Top(states[k], t).Checking?
    ensures Enabled(states[k], Check(t))
  {
    hide Run, Apply;
    AllSentHolds(policies, threads, steps, states, k);
    var th := states[k].threads[t];
    assert SentThread(th, states[k].lists.Keys, states[k].notes);
    assert SentFrame(Last(th.stack), states[k].lists.Keys, states[k].notes);
  }

  lemma {:induction false} NoneGranted(grants: seq<Grant>, g: Grant)
    requires forall i :: 0 <= i < |grants| ==> grants[i] != g
    ensures Granted(grants, g) == 0
  {
    if grants != [] {
      NoneGranted(Front(grants), g);
    }
  }

  lemma UnsentNotGranted(s: State, g: Grant)
    requires AllSent(s) && s.notes <= g.note.id
    ensures Granted(s.grants, g) == 0
  {
    NoneGranted(s.grants, g);
  }

  // ------------------------------------------------ exactly one callback each

  /** No step from `i` on, before state `k`, adds observer `o` to list `l`. */
  ghost predicate NotAdded(steps: seq<Step>, i: nat, k: nat, l: nat, o: nat) {
    forall m :: i <= m < k <= |steps| && steps[m].AddObserver? ==> steps[m].list != l || steps[m].obs != o
  }

  /** Whenever delivery `g` is checked in the steps from `i` on, its observer is registered. */
  ghost predicate RegisteredWhenChecked(steps: seq<Step>, states: seq<State>, i: nat, k: nat, g: Grant) {
    forall m :: i <= m < k && m < |steps| && m < |states| && ChecksDelivery(states[m], steps[m], g) ==>
      g.obs in states[m].lists[g.note.list].observers
  }

  ghost predicate ChecksDelivery(s: State, step: Step, g: Grant) {
    && step.Check? && Enabled(s, step)
    && Top(s, step.thread).obs == g.obs && Top(s, step.thread).note == g.note
  }

  ghost predicate Sends(s: State, step: Step, n: Note) {
    && (step.Notify? || step.NotifySynchronously?)
    && n == Note(step.list, s.notes)
  }

  lemma NewGrantsOld(s: State, step: Step, g: Grant)
    requires Enabled(s, step) && g.note.id < s.notes
    requires step.AddObserver? ==> step.list != g.note.list || step.obs != g.obs
    ensures NewGrants(s, step, g) == 0
  {
  }

  lemma {:induction false} GrantsKept(policies: map<nat, Policy>, threads: nat, steps: seq<Step>, states: seq<State>, i: nat, k: nat, g: Grant)
    requires Run(policies, threads, steps, states) && i <= k < |states|
    requires g.note.id < states[i].notes && NotAdded(steps, i, k, g.note.list, g.obs)
    ensures Granted(states[k].grants, g) == Granted(states[i].grants, g)
    ensures states[i].notes <= states[k].notes
    decreases k - i
  {
    hide Enabled, Apply, Granted, NewGrants;
    if i < k {
      GrantsKept(policies, threads, steps, states, i, k - 1, g);
      StepKeepsLists(states[k - 1], steps[k - 1]);
      NewGrantsOld(states[k - 1], steps[k - 1], g);
      StepBalances(states[k - 1], steps[k - 1], g);
    }
  }

  lemma StepStops(s: State, step: Step, g: Grant)
    requires Enabled(s, step)
    requires ChecksDelivery(s, step, g) ==> g.obs in s.lists[g.note.list].observers
    ensures Stops(Apply(s, step).log, g) == Stops(s.log, g)
  {
    hide FirstFor, Posts, Local, GrantsFor, Enumerates, Occupies;
    if step.Check? {
      var f := Top(s, step.thread);
      LogAppend(s.log, Stopped(f.obs, f.note), g);
    } else if step.Start? {
      var f := Top(s, step.thread);
      LogAppend(s.log, Called(f.on, f.obs, f.note), g);
    }
  }

  lemma {:induction false} StopsKept(policies: map<nat, Policy>, threads: nat, steps: seq<Step>, states: seq<State>, i: nat, k: nat, g: Grant)
    requires Run(policies, threads, steps, states) && i <= k < |states|
    requires RegisteredWhenChecked(steps, states, i, k, g)
    ensures Stops(states[k].log, g) == Stops(states[i].log, g)
    decreases k - i
  {
    hide Enabled, Apply, Stops, ChecksDelivery;
    if i < k {
      StopsKept(policies, threads, steps, states, i, k - 1, g);
      StepStops(states[k - 1], steps[k - 1], g);
    }
  }

  /** One undertaken delivery stays one: called, stopped or still on its way. */
  lemma DeliveryFollowed(policies: map<nat, Policy>, threads: nat, steps: seq<Step>, states: seq<State>, i: nat, k: nat, g: Grant)
    requires Run(policies, threads, steps, states) && i < k < |states|
    requires Granted(states[i].grants, g) == 0
    requires g.note.id < states[i + 1].notes && NotAdded(steps, i + 1, k, g.note.list, g.obs)
    ensures Calls(states[k].log, g) + Stops(states[k].log, g) + Outstanding(states[k], g) == NewGrants(states[i], steps[i], g)
    ensures RegisteredWhenChecked(steps, states, i, k, g) ==> Stops(states[k].log, g) == 0
  {
    hide Enabled, Apply, Granted, NewGrants, Calls, Stops, Outstanding, RegisteredWhenChecked;
    StepBalances(states[i], steps[i], g);
    GrantsKept(policies, threads, steps, states, i + 1, k, g);
    BalancedHolds(policies, threads, steps, states, k, g);
    BalancedHolds(policies, threads, steps, states, i, g);
    if RegisteredWhenChecked(steps, states, i, k, g) {
      StopsKept(policies, threads, steps, states, i, k, g);
    }
  }

  lemma NoneBeforeSent(policies: map<nat, Policy>, threads: nat, steps: seq<Step>, states: seq<State>, i: nat, g: Grant)
    requires Run(policies, threads, steps, states) && i < |states| && states[i].notes <= g.note.id
    ensures Granted(states[i].grants, g) == 0
  {
    hide Run, AllSent, Granted;
    AllSentHolds(policies, threads, steps, states, i);
    UnsentNotGranted(states[i], g);
  }

  lemma SendingGrants(s: State, step: Step, g: Grant)
    requires Enabled(s, step) && Sends(s, step, g.note)
    ensures NewGrants(s, step, g) == One(g.obs in s.lists[g.note.list].observers)
    ensures g.note.id < Apply(s, step).notes
  {
  }

  /** A notification reaches each observer registered at its critical section exactly once,
      provided the observer is not added again and is registered when its turn is checked;
      an observer that was not registered is not called at all. */
  lemma NotifiedExactlyOnce(policies: map<nat, Policy>, threads: nat, steps: seq<Step>, states: seq<State>, i: nat, k: nat, g: Grant)
    requires Run(policies, threads, steps, states) && i < k < |states|
    requires Sends(states[i], steps[i], g.note) && NotAdded(steps, i + 1, k, g.note.list, g.obs)
    ensures g.note.list in states[i].lists
    ensures g.obs in states[i].lists[g.note.list].observers && RegisteredWhenChecked(steps, states, i, k, g)
      ==> Calls(states[k].log, g) + Outstanding(states[k], g) == 1
    ensures g.obs !in states[i].lists[g.note.list].observers
      ==> Calls(states[k].log, g) == 0 && Outstanding(states[k], g) == 0
  {
    assert Enabled(states[i], steps[i]);
    hide Apply, Granted, NewGrants, Calls, Stops, Outstanding, RegisteredWhenChecked;
    SendingGrants(states[i], steps[i], g);
    NoneBeforeSent(policies, threads, steps, states, i, g);
    DeliveryFollowed(policies, threads, steps, states, i, k, g);
  }

  lemma AddingGrants(s: State, step: Step, g: Grant)
    requires Enabled(s, step) && step.AddObserver? && step.list == g.note.list && step.obs == g.obs
    requires s.threads[step.thread].stack != [] && Inv(s)
    ensures NewGrants(s, step, g) ==
      One(s.lists[g.note.list].policy == All && TopNote(s.threads[step.thread].stack) == Some(g.note))
  {
  }

  /** An observer first added, inside a callback, after notification `g.note` was sent (at
      step `j`) is called for it exactly once if `g.note` is the innermost notification
      being dispatched on the adding thread and the policy is ALL, and not at all otherwise. */
  lemma AddedInCallback(policies: map<nat, Policy>, threads: nat, steps: seq<Step>, states: seq<State>, j: nat, i: nat, k: nat, g: Grant)
    requires Run(policies, threads, steps, states) && j < i < k < |states|
    requires Sends(states[j], steps[j], g.note) && NotAdded(steps, j + 1, i, g.note.list, g.obs)
    requires g.note.list in states[j].lists && g.obs !in states[j].lists[g.note.list].observers
    requires steps[i].AddObserver? && steps[i].list == g.note.list && steps[i].obs == g.obs
    requires steps[i].thread < |states[i].threads| && states[i].threads[steps[i].thread].stack != []
    requires NotAdded(steps, i + 1, k, g.note.list, g.obs) && RegisteredWhenChecked(steps, states, i, k, g)
    ensures g.note.list in states[i].lists
    ensures Calls(states[k].log, g) + Outstanding(states[k], g) ==
      One(states[i].lists[g.note.list].policy == All && TopNote(states[i].threads[steps[i].thread].stack) == Some(g.note))
  {
    assert Enabled(states[j], steps[j]) && Enabled(states[i], steps[i]);
    hide Apply, Granted, NewGrants, Calls, Stops, Outstanding, RegisteredWhenChecked, Inv, TopNote;
    InvHolds(policies, threads, steps, states, i);
    AddingGrants(states[i], steps[i], g);
    SendingGrants(states[j], steps[j], g);
    NoneBeforeSent(policies, threads, steps, states, j, g);
    StepBalances(states[j], steps[j], g);
    GrantsKept(policies, threads, steps, states, j + 1, i, g);
    StepKeepsLists(states[i], steps[i]);
    DeliveryFollowed(policies, threads, steps, states, i, k, g);
  }

  lemma NewGrantsExisting(s: State, step: Step, g: Grant)
    requires Enabled(s, step) && g.note.id < s.notes && g.note.list in s.lists
    requires s.lists[g.note.list].policy == ExistingOnly
    ensures NewGrants(s, step, g) == 0
  {
  }

  lemma {:induction false} GrantsKeptExisting(policies: map<nat, Policy>, threads: nat, steps: seq<Step>, states: seq<State>, i: nat, k: nat, g: Grant)
    requires Run(policies, threads, steps, states) && i <= k < |states| && g.note.id < states[i].notes
    requires g.note.list in states[i].lists && states[i].lists[g.note.list].policy == ExistingOnly
    ensures Granted(states[k].grants, g) == Granted(states[i].grants, g) && states[i].notes <= states[k].notes
    ensures g.note.list in states[k].lists && states[k].lists[g.note.list].policy == ExistingOnly
    decreases k - i
  {
    hide Enabled, Apply, Granted, NewGrants;
    if i < k {
      GrantsKeptExisting(policies, threads, steps, states, i, k - 1, g);
      StepKeepsLists(states[k - 1], steps[k - 1]);
      NewGrantsExisting(states[k - 1], steps[k - 1], g);
      StepBalances(states[k - 1], steps[k - 1], g);
    }
  }

  /** Under EXISTING_ONLY a notification is called for an observer at most once, and only
      if the observer was registered when it was sent, whatever is added later. */
  lemma ExistingOnlyBound(policies: map<nat, Policy>, threads: nat, steps: seq<Step>, states: seq<State>, i: nat, k: nat, g: Grant)
    requires Run(policies, threads, steps, states) && i < k < |states| && Sends(states[i], steps[i], g.note)
    requires g.note.list in states[i].lists && states[i].lists[g.note.list].policy == ExistingOnly
    ensures Calls(states[k].log, g) + Stops(states[k].log, g) + Outstanding(states[k], g)
         == One(g.obs in states[i].lists[g.note.list].observers)
  {
    assert Enabled(states[i], steps[i]);
    hide Apply, Granted, NewGrants, Calls, Stops, Outstanding;
    SendingGrants(states[i], steps[i], g);
    NoneBeforeSent(policies, threads, steps, states, i, g);
    StepBalances(states[i], steps[i], g);
    StepKeepsLists(states[i], steps[i]);
    GrantsKeptExisting(policies, threads, steps, states, i + 1, k, g);
    BalancedHolds(policies, threads, steps, states, k, g);
  }

  // ----------------------------------------------------------- reachable states

  ghost predicate Reachable(s: State) {
    exists policies: map<nat, Policy>, threads: nat, steps: seq<Step>, states: seq<State> ::
      Run(policies, threads, steps, states) && states[|steps|] == s
  }

  lemma InitReachable(policies: map<nat, Policy>, threads: nat)
    ensures Reachable(Init(policies, threads))
  {
    assert Run(policies, threads, [], [Init(policies, threads)]);
  }

  lemma Reaches(s: State, step: Step)
    requires Reachable(s) && Enabled(s, step)
    ensures Reachable(Apply(s, step))
  {
    hide Enabled, Apply, Init;
    var policies, threads, steps, states :| Run(policies, threads, steps, states) && states[|steps|] == s;
    assert Run(policies, threads, steps + [step], states + [Apply(s, step)]);
  }

  lemma ReachableInv(s: State)
    requires Reachable(s)
    ensures Inv(s) && AllSent(s)
  {
    hide Inv, AllSent;
    var policies, threads, steps, states :| Run(policies, threads, steps, states) && states[|steps|] == s;
    InvHolds(policies, threads, steps, states, |steps|);
    AllSentHolds(policies, threads, steps, states, |steps|);
  }

  lemma ReachableBalanced(s: State, g: Grant)
    requires Reachable(s)
    ensures Balanced(s, g)
  {
    hide Balanced;
    var policies, threads, steps, states :| Run(policies, threads, steps, states) && states[|steps|] == s;
    BalancedHolds(policies, threads, steps, states, |steps|, g);
  }

  /** In a reachable state the thread-local value of a thread is its innermost notification. */
  lemma ReachableTop(s: State, t: nat)
    requires Reachable(s) && t < |s.threads|
    ensures s.threads[t].current == TopNote(s.threads[t].stack)
  {
    hide Reachable;
    ReachableInv(s);
  }

  /** A notification that is sent has one delivery outstanding for each registered observer,
      and none for any other. */
  lemma SentOnce(s: State, step: Step, g: Grant)
    requires Reachable(s) && Enabled(s, step) && Sends(s, step, g.note)
    ensures Outstanding(Apply(s, step), g) == One(g.obs in s.lists[g.note.list].observers)
  {
    ReachableInv(s);
    UnsentNotGranted(s, g);
    ReachableBalanced(s, g);
    StepBalances(s, step, g);
    SendingGrants(s, step, g);
    SendLogs(s, step);
    hide Reachable, Outstanding, Granted, Calls, Stops, Apply, NewGrants;
  }

  lemma SendLogs(s: State, step: Step)
    requires Enabled(s, step) && (step.Notify? || step.NotifySynchronously?)
    ensures Apply(s, step).log == s.log
  {
  }

  /** Adding an observer inside a callback for a notification of this list, under ALL, gives
      it one delivery of the innermost one, and nothing else. */
  lemma AddedOnce(s: State, t: nat, l: nat, o: nat, g: Grant)
    requires Reachable(s) && Enabled(s, AddObserver(t, l, o))
    ensures Outstanding(Apply(s, AddObserver(t, l, o)), g) == Outstanding(s, g) +
      One(g.obs == o && g.note.list == l && s.lists[l].policy == All && TopNote(s.threads[t].stack) == Some(g.note))
  {
    hide Reachable;
    ReachableTop(s, t);
    ReachableInv(s);
    AddBalances(s, t, l, o, g);
  }
}
