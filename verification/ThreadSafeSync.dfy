/** NotifySynchronously: how it splits the observers between its loop and the tasks it
    posts, and that its own observers have been dealt with when it returns. */
module ThreadSafeSync {
  import opened Common
  import opened ThreadSafeSpec
  import opened ThreadSafeCount
  import opened ThreadSafeInvariants
  import opened ThreadSafeRuns

  // ------------------------------------------------------------------ the split

  /** Between `s` and `u` a new notification of list `l` was sent from thread `t`, which deals
      itself with the observers of sequence `here`: such an observer has its delivery on that
      thread's own stack, and no task; any other registered observer has one task, on its
      sequence, and nothing on a stack; an observer that is not registered has neither. */
  ghost predicate Split(s: State, u: State, t: nat, l: nat, here: Option<nat>, o: nat)
    requires t < |s.threads| == |u.threads| && l in s.lists
  {
    var m, g := s.lists[l].observers, Grant(o, Note(l, s.notes));
    && (if o in m && here == Some(m[o])
        then InTasks(u.tasks, g) == 0 && InStack(u.threads[t].stack, g) == InThreads(u.threads, g) == 1
        else InTasks(u.tasks, g) == One(o in m) && InThreads(u.threads, g) == 0)
    && forall i :: 0 <= i < |u.tasks| && InTask(u.tasks[i], g) == 1 ==> o in m && u.tasks[i].on == m[o]
  }

  lemma {:induction false} LocalCount(order: seq<nat>, m: map<nat, nat>, on: nat, o: nat)
    requires forall p :: p in order ==> p in m
    ensures Occurs(Local(order, m, on), o) == if o in m && m[o] == on then Occurs(order, o) else 0
  {
    if order != [] {
      LocalCount(Front(order), m, on, o);
      var p, local := Last(order), Local(Front(order), m, on);
      assert Front(local + [p]) == local;
      assert local + [] == local;
    }
  }

  lemma {:induction false} PostsOn(order: seq<nat>, m: map<nat, nat>, n: Note, skip: Option<nat>, i: nat)
    requires forall o :: o in order ==> o in m
    requires i < |Posts(order, m, n, skip)|
    ensures var task := Posts(order, m, n, skip)[i]; task.Deliver? && task.obs in m && task.on == m[task.obs]
  {
    if order != [] && i < |Posts(Front(order), m, n, skip)| {
      PostsOn(Front(order), m, n, skip, i);
    }
  }

  /** Nothing of a notification that has not been sent is under way. */
  lemma NothingBefore(s: State, g: Grant)
    requires Reachable(s) && s.notes <= g.note.id
    ensures InTasks(s.tasks, g) == 0 && InThreads(s.threads, g) == 0 && Granted(s.grants, g) == 0
  {
    ReachableInv(s);
    UnsentNotGranted(s, g);
    ReachableBalanced(s, g);
  }

  lemma {:induction false} StackWithin(threads: seq<Thread>, t: nat, g: Grant)
    requires t < |threads|
    ensures InStack(threads[t].stack, g) <= InThreads(threads, g)
  {
    if t < |threads| - 1 {
      StackWithin(Front(threads), t, g);
    }
  }

  lemma SplitCounts(s: State, t: nat, l: nat, order: seq<nat>, o: nat)
    requires Reachable(s) && Enabled(s, NotifySynchronously(t, l, order))
    ensures var u, m, g := Apply(s, NotifySynchronously(t, l, order)), s.lists[l].observers, Grant(o, Note(l, s.notes));
      && |u.threads| == |s.threads|
      && (if o in m && CurrentSequence(s, t) == Some(m[o])
          then InTasks(u.tasks, g) == 0 && InStack(u.threads[t].stack, g) == InThreads(u.threads, g) == 1
          else InTasks(u.tasks, g) == One(o in m) && InThreads(u.threads, g) == 0)
  {
    hide InTasks, InThreads, Posts, Local;
    var m, n := s.lists[l].observers, Note(l, s.notes);
    var g := Grant(o, n);
    NothingBefore(s, g);
    hide Reachable;
    OccursOnce(order, o);
    TasksAppend(s.tasks, Posts(order, m, n, CurrentSequence(s, t)), g);
    match CurrentSequence(s, t)
    case None => PostsCount(order, m, n, g);
    case Some(on) =>
      LocalCount(order, m, on, o);
      PostsOthersCount(order, m, n, on, g);
      var loop := Looping(on, n, Local(order, m, on));
      PushCount(PostAll(s, l, order, Some(on)), t, loop, g);
      StackWithin(s.threads, t, g);
      StackPush(s.threads[t].stack, loop, g);
  }

  lemma PostedOn(s: State, l: nat, order: seq<nat>, skip: Option<nat>, o: nat, i: nat)
    requires Reachable(s) && l in s.lists && Enumerates(order, s.lists[l].observers)
    requires i < |PostAll(s, l, order, skip).tasks|
    requires InTask(PostAll(s, l, order, skip).tasks[i], Grant(o, Note(l, s.notes))) == 1
    ensures o in s.lists[l].observers && PostAll(s, l, order, skip).tasks[i].on == s.lists[l].observers[o]
  {
    hide Posts;
    ReachableInv(s);
    hide Reachable;
    assert SentTasks(s.tasks, s.lists.Keys, s.notes);
    assert i >= |s.tasks|;
    PostsOn(order, s.lists[l].observers, Note(l, s.notes), skip, i - |s.tasks|);
  }

  /** NotifySynchronously keeps for its loop exactly the observers of the calling sequence,
      and posts one task for each of the others, to that observer's sequence. */
  lemma SyncSplits(s: State, t: nat, l: nat, order: seq<nat>, o: nat)
    requires Reachable(s) && Enabled(s, NotifySynchronously(t, l, order))
    ensures |Apply(s, NotifySynchronously(t, l, order)).threads| == |s.threads|
    ensures Split(s, Apply(s, NotifySynchronously(t, l, order)), t, l, CurrentSequence(s, t), o)
  {
    SplitCounts(s, t, l, order, o);
    var u, g := Apply(s, NotifySynchronously(t, l, order)), Grant(o, Note(l, s.notes));
    var posted := PostAll(s, l, order, CurrentSequence(s, t)).tasks;
    assert u.tasks == posted;
    hide Reachable, Apply, PostAll, InTasks, InThreads, InStack;
    forall i | 0 <= i < |posted| && InTask(posted[i], g) == 1
      ensures o in s.lists[l].observers && posted[i].on == s.lists[l].observers[o]
    {
      PostedOn(s, l, order, CurrentSequence(s, t), o, i);
    }
  }

  /** Notify calls nobody: it posts one task for each observer, also for those of the calling
      sequence, to that observer's sequence. */
  lemma NotifySplits(s: State, t: nat, l: nat, order: seq<nat>, o: nat)
    requires Reachable(s) && Enabled(s, Notify(t, l, order))
    ensures Apply(s, Notify(t, l, order)).threads == s.threads
    ensures Split(s, Apply(s, Notify(t, l, order)), t, l, None, o)
  {
    hide InTasks, InThreads, Posts;
    var m, n := s.lists[l].observers, Note(l, s.notes);
    var g := Grant(o, n);
    NothingBefore(s, g);
    OccursOnce(order, o);
    PostsCount(order, m, n, g);
    TasksAppend(s.tasks, Posts(order, m, n, None), g);
    var posted := PostAll(s, l, order, None).tasks;
    assert Apply(s, Notify(t, l, order)).tasks == posted;
    hide Reachable, Apply, PostAll;
    forall i | 0 <= i < |posted| && InTask(posted[i], g) == 1
      ensures o in m && posted[i].on == m[o]
    {
      PostedOn(s, l, order, None, o, i);
    }
  }

  // ------------------------------------------------------------ where it is sent

  /** Every task waits behind those posted before it: a step takes out the first task of a
      sequence, or adds tasks at the end. */
  lemma QueuedInOrder(s: State, step: Step)
    requires Enabled(s, step)
    ensures var u := Apply(s, step);
      if step.RunTask?
      then exists i :: 0 <= i < |s.tasks| && s.tasks[i].on == step.on && u.tasks == s.tasks[..i] + s.tasks[i + 1..]
                       && forall k :: 0 <= k < i ==> s.tasks[k].on != step.on
      else s.tasks <= u.tasks
  {
    hide Posts, Local, GrantsFor, Occupies;
    if step.RunTask? {
      var i := FirstFor(s.tasks, step.on);
      assert s.tasks[i].on == step.on;
    }
  }

  /** A task runs on the sequence it was posted to, and a callback on the sequence that its
      call is recorded with; when the code of a task is over the thread is on the sequence
      that it was on before. */
  lemma RunsOnItsSequence(s: State, step: Step)
    requires Enabled(s, step)
    ensures step.RunTask? ==> CurrentSequence(Apply(s, step), step.thread) == Some(step.on)
    ensures step.Start? ==>
      var u := Apply(s, step); u.log != [] && Last(u.log).Called? && CurrentSequence(u, step.thread) == Some(Last(u.log).on)
    ensures step.RunTask? ==>
      var u := Apply(s, step); Top(u, step.thread).User? ==>
        Enabled(u, Return(step.thread)) &&
        CurrentSequence(Apply(u, Return(step.thread)), step.thread) == CurrentSequence(s, step.thread)
  {
    hide Posts, Local, GrantsFor, Enumerates, Occupies;
  }

  ghost predicate Registers(step: Step, l: nat, o: nat) {
    (step.AddObserver? || step.RemoveObserver?) && step.list == l && step.obs == o
  }

  lemma StepRegistration(s: State, step: Step, l: nat, o: nat, on: nat)
    requires Enabled(s, step) && l in s.lists && o in s.lists[l].observers && s.lists[l].observers[o] == on
    requires !Registers(step, l, o)
    ensures l in Apply(s, step).lists && o in Apply(s, step).lists[l].observers
    ensures Apply(s, step).lists[l].observers[o] == on
  {
    hide FirstFor, Posts, Local, GrantsFor, Enumerates, Occupies;
  }

  /** An observer is registered on the sequence from which it was last added, until it is
      added or removed again; so that is where its notifications are sent. */
  lemma {:induction false} RegisteredWhereAdded(policies: map<nat, Policy>, threads: nat, steps: seq<Step>, states: seq<State>,
                                                i: nat, k: nat, on: nat)
    requires Run(policies, threads, steps, states) && i < k < |states|
    requires steps[i].AddObserver? && Enabled(states[i], steps[i]) && CurrentSequence(states[i], steps[i].thread) == Some(on)
    requires forall m :: i < m < k ==> !Registers(steps[m], steps[i].list, steps[i].obs)
    ensures var l, o := steps[i].list, steps[i].obs;
      l in states[k].lists && o in states[k].lists[l].observers && states[k].lists[l].observers[o] == on
    decreases k
  {
    if k > i + 1 {
      hide Enabled, Apply;
      RegisteredWhereAdded(policies, threads, steps, states, i, k - 1, on);
      StepRegistration(states[k - 1], steps[k - 1], steps[i].list, steps[i].obs, on);
    } else {
      assert states[k] == Apply(states[i], steps[i]);
    }
  }

  // ----------------------------------------------------------- until it returns

  /** The deliveries of `g` under way anywhere but in the calls above height `h` of thread `t`. */
  ghost function Elsewhere(s: State, t: nat, h: nat, g: Grant): int
    requires t < |s.threads| && h <= |s.threads[t].stack|
  {
    Outstanding(s, g) - InStack(s.threads[t].stack, g) + InStack(s.threads[t].stack[..h], g)
  }

  /** A step posts no more deliveries than it undertakes. */
  lemma TasksGrow(s: State, step: Step, g: Grant)
    requires Enabled(s, step)
    ensures InTasks(Apply(s, step).tasks, g) <= InTasks(s.tasks, g) + NewGrants(s, step, g)
  {
    hide InTasks, FirstFor, Posts, Local, GrantsFor, Occupies;
    match step
    case Post(on) => PostBalances(s, on, g);
    case RunTask(t, on) => TaskTaken(s.tasks, FirstFor(s.tasks, on), g);
    case AddObserver(t, l, o) => AddBalances(s, t, l, o, g);
    case Notify(t, l, order) =>
      OccursOnce(order, g.obs);
      PostsCount(order, s.lists[l].observers, Note(l, s.notes), g);
      TasksAppend(s.tasks, Posts(order, s.lists[l].observers, Note(l, s.notes), None), g);
    case NotifySynchronously(t, l, order) => SyncTasksGrow(s, t, l, order, g);
    case _ =>
  }

  lemma SyncTasksGrow(s: State, t: nat, l: nat, order: seq<nat>, g: Grant)
    requires Enabled(s, NotifySynchronously(t, l, order))
    ensures InTasks(Apply(s, NotifySynchronously(t, l, order)).tasks, g)
         <= InTasks(s.tasks, g) + NewGrants(s, NotifySynchronously(t, l, order), g)
  {
    hide InTasks, Posts, Local, GrantsFor;
    var m, n := s.lists[l].observers, Note(l, s.notes);
    OccursOnce(order, g.obs);
    TasksAppend(s.tasks, Posts(order, m, n, CurrentSequence(s, t)), g);
    match CurrentSequence(s, t)
    case None => PostsCount(order, m, n, g);
    case Some(on) => PostsOthersCount(order, m, n, on, g);
  }

  /** A step changes its own thread only, and only from the top call on. */
  lemma TopOnly(s: State, step: Step, t: nat, h: nat)
    requires Enabled(s, step) && ThreadOf(step) == Some(t) && h < |s.threads[t].stack|
    ensures |Apply(s, step).threads| == |s.threads|
    ensures Apply(s, step).threads == s.threads[t := Apply(s, step).threads[t]]
    ensures h <= |Apply(s, step).threads[t].stack|
    ensures Apply(s, step).threads[t].stack[..h] == s.threads[t].stack[..h]
  {
    hide FirstFor, Posts, Local, GrantsFor, Enumerates, Occupies;
  }

  /** Deliveries come to be elsewhere only by being undertaken anew. */
  lemma ElsewhereGrows(s: State, step: Step, t: nat, h: nat, g: Grant)
    requires Enabled(s, step) && t < |s.threads| && h < |s.threads[t].stack| && Balanced(s, g)
    ensures var u := Apply(s, step);
      && |u.threads| == |s.threads| && h <= |u.threads[t].stack|
      && Elsewhere(u, t, h, g) <= Elsewhere(s, t, h, g) + NewGrants(s, step, g)
  {
    hide Enabled, Apply, NewGrants, InTasks, InThreads, InStack, Calls, Stops, Granted;
    var u := Apply(s, step);
    if ThreadOf(step) == Some(t) {
      TopOnly(s, step, t, h);
      TasksGrow(s, step, g);
      ThreadsUpdate(s.threads, t, u.threads[t], g);
    } else {
      OthersKept(s, step, t);
      StepBalances(s, step, g);
      LogGrows(s, step, g);
    }
  }

  lemma LogGrows(s: State, step: Step, g: Grant)
    requires Enabled(s, step)
    ensures Calls(s.log, g) <= Calls(Apply(s, step).log, g) && Stops(s.log, g) <= Stops(Apply(s, step).log, g)
  {
    hide FirstFor, Posts, Local, GrantsFor, Enumerates, Occupies, Calls, Stops;
    if step.Check? {
      var f := Top(s, step.thread);
      LogAppend(s.log, Stopped(f.obs, f.note), g);
    } else if step.Start? {
      var f := Top(s, step.thread);
      LogAppend(s.log, Called(f.on, f.obs, f.note), g);
    }
  }

  /** Delivery `g` has been made or stopped, or one of those undertaken is still in the calls
      above height `h` of thread `t`. */
  ghost predicate InHand(s: State, t: nat, h: nat, g: Grant) {
    Calls(s.log, g) + Stops(s.log, g) >= 1 ||
    (t < |s.threads| && h < |s.threads[t].stack| && Elsewhere(s, t, h, g) < Granted(s.grants, g))
  }

  lemma StepInHand(s: State, step: Step, t: nat, h: nat, g: Grant)
    requires Enabled(s, step) && Balanced(s, g) && InHand(s, t, h, g)
    ensures InHand(Apply(s, step), t, h, g)
  {
    hide Enabled, Apply, NewGrants, Outstanding, InStack, Calls, Stops, Granted;
    var u := Apply(s, step);
    LogGrows(s, step, g);
    if Calls(s.log, g) + Stops(s.log, g) == 0 {
      StepBalances(s, step, g);
      ElsewhereGrows(s, step, t, h, g);
      var stack := u.threads[t].stack;
      assert |stack| == h ==> stack[..h] == stack;
    }
  }

  lemma StartInHand(s: State, t: nat, l: nat, order: seq<nat>, o: nat)
    requires Reachable(s) && Enabled(s, NotifySynchronously(t, l, order))
    requires o in s.lists[l].observers && CurrentSequence(s, t) == Some(s.lists[l].observers[o])
    ensures InHand(Apply(s, NotifySynchronously(t, l, order)), t, |s.threads[t].stack|, Grant(o, Note(l, s.notes)))
  {
    var step, g := NotifySynchronously(t, l, order), Grant(o, Note(l, s.notes));
    NothingBefore(s, g);
    SyncSplits(s, t, l, order, o);
    StackWithin(s.threads, t, g);
    hide Reachable, InTasks, InThreads, InStack, Posts, Local, GrantsFor, Granted;
    StepBalances(s, step, g);
    var u := Apply(s, step);
    assert u.threads[t].stack[..|s.threads[t].stack|] == s.threads[t].stack;
  }

  lemma {:induction false} StaysInHand(policies: map<nat, Policy>, threads: nat, steps: seq<Step>, states: seq<State>,
                                       i: nat, k: nat, t: nat, h: nat, g: Grant)
    requires Run(policies, threads, steps, states) && i <= k < |states| && InHand(states[i], t, h, g)
    ensures InHand(states[k], t, h, g)
    decreases k - i
  {
    hide Enabled, Apply, InHand, Balanced;
    if i < k {
      StaysInHand(policies, threads, steps, states, i, k - 1, t, h, g);
      BalancedHolds(policies, threads, steps, states, k - 1, g);
      StepInHand(states[k - 1], steps[k - 1], t, h, g);
    }
  }

  lemma StateReachable(policies: map<nat, Policy>, threads: nat, steps: seq<Step>, states: seq<State>, k: nat)
    requires Run(policies, threads, steps, states) && k < |states|
    ensures Reachable(states[k])
  {
    hide Enabled, Apply, Init;
    assert Run(policies, threads, steps[..k], states[..k + 1]);
    assert states[..k + 1][|steps[..k]|] == states[k];
  }

  /** When NotifySynchronously, called at step `i`, is over, that is when the stack of the
      calling thread is back at its height, every observer of the calling sequence that was
      registered at the call has been called or found removed: exactly once if it was not
      added again, and called if it was registered whenever it was checked. */
  lemma SyncDelivers(policies: map<nat, Policy>, threads: nat, steps: seq<Step>, states: seq<State>, i: nat, k: nat, o: nat)
    requires Run(policies, threads, steps, states) && i < k < |states|
    requires steps[i].NotifySynchronously? && Enabled(states[i], steps[i])
    requires var m, t := states[i].lists[steps[i].list].observers, steps[i].thread;
      && o in m && CurrentSequence(states[i], t) == Some(m[o])
      && t < |states[k].threads| && |states[k].threads[t].stack| <= |states[i].threads[t].stack|
    ensures var l, g := steps[i].list, Grant(o, Note(steps[i].list, states[i].notes));
      && Calls(states[k].log, g) + Stops(states[k].log, g) >= 1
      && (NotAdded(steps, i + 1, k, l, o) ==>
            Calls(states[k].log, g) + Stops(states[k].log, g) == 1 && Outstanding(states[k], g) == 0)
      && (NotAdded(steps, i + 1, k, l, o) && RegisteredWhenChecked(steps, states, i, k, g) ==> Calls(states[k].log, g) == 1)
  {
    var s, t, l, order := states[i], steps[i].thread, steps[i].list, steps[i].order;
    var g := Grant(o, Note(l, s.notes));
    StateReachable(policies, threads, steps, states, i);
    StartInHand(s, t, l, order, o);
    SendingGrants(s, steps[i], g);
    NoneBeforeSent(policies, threads, steps, states, i, g);
    hide Enabled, Apply, Reachable, Calls, Stops, Outstanding, Granted, NewGrants, NotAdded, RegisteredWhenChecked;
    StaysInHand(policies, threads, steps, states, i + 1, k, t, |s.threads[t].stack|, g);
    if NotAdded(steps, i + 1, k, l, o) {
      DeliveryFollowed(policies, threads, steps, states, i, k, g);
    }
  }

  // ---------------------------------------------------------------- it returns

  /** A bound on the steps that the calls in progress still take if they call nothing new. */
  function Work(stack: seq<Frame>): nat {
    if stack == [] then 0 else Work(Front(stack)) + WorkOf(Last(stack))
  }

  function WorkOf(f: Frame): nat {
    match f
    case User(_) => 1
    case Looping(_, _, waiting) => 1 + 4 * |waiting|
    case Checking(_, _, _) => 3
    case Cleared(_, _, _) => 2
    case Calling(_, _, _, _) => 1
  }

  /** The step goes on with the innermost call of a thread, or ends it. */
  predicate GoesOn(step: Step) {
    step.LoopNext? || step.Check? || step.Start? || step.Return?
  }

  lemma WorkPush(stack: seq<Frame>, f: Frame)
    ensures Work(stack + [f]) == Work(stack) + WorkOf(f)
  {
    assert Front(stack + [f]) == stack;
  }

  /** Going on is always possible: no thread gets stuck in a call. */
  lemma NeverStuck(s: State, t: nat) returns (step: Step)
    requires Reachable(s) && HasTop(s, t)
    ensures GoesOn(step) && ThreadOf(step) == Some(t) && Enabled(s, step)
  {
    ReachableInv(s);
    hide Reachable;
    assert SentThread(s.threads[t], s.lists.Keys, s.notes);
    assert SentFrame(Top(s, t), s.lists.Keys, s.notes);
    step := match Top(s, t)
      case User(_) => Return(t)
      case Looping(_, _, _) => LoopNext(t)
      case Checking(_, _, _) => Check(t)
      case Cleared(_, _, _) => Start(t)
      case Calling(_, _, _, _) => Return(t);
  }

  /** Going on comes to an end: each such step leaves its thread less to do, and does not
      touch any other thread; so NotifySynchronously returns once the callbacks do. */
  lemma GoingOnEnds(s: State, step: Step)
    requires Enabled(s, step) && GoesOn(step)
    ensures |Apply(s, step).threads| == |s.threads|
    ensures Work(Apply(s, step).threads[step.thread].stack) < Work(s.threads[step.thread].stack)
    ensures forall u :: 0 <= u < |s.threads| && u != step.thread ==> Apply(s, step).threads[u] == s.threads[u]
  {
    hide Work;
    var stack := s.threads[step.thread].stack;
    var f, below := Last(stack), Front(stack);
    assert stack == below + [f];
    WorkPush(below, f);
    match step
    case LoopNext(_) =>
      if f.waiting != [] {
        var rest, next := f.(waiting := f.waiting[1..]), Checking(f.on, f.waiting[0], f.note);
        WorkPush(below, rest);
        WorkPush(below + [rest], next);
      }
    case Check(_) => WorkPush(below, Cleared(f.on, f.obs, f.note));
    case Start(_) => WorkPush(below, Calling(f.on, f.obs, f.note, s.threads[step.thread].current));
    case Return(_) =>
  }
}
