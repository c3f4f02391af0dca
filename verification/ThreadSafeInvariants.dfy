/** What every step of the protocol keeps: the thread-local value is the top of the
    thread's dispatch stack, a sequence runs on one thread at a time, and everything that
    is in flight for an observer is on that observer's own sequence. */
module ThreadSafeInvariants {
  import opened Common
  import opened ThreadSafeSpec

  // ------------------------------------------------------- the dispatch stack

  /** The notification of the innermost callback in progress. */
  function TopNote(stack: seq<Frame>): Option<Note> {
    if stack == [] then None
    else if Last(stack).Calling? then Some(Last(stack).note)
    else TopNote(Front(stack))
  }

  /** NotifyWrapper is between its locked check and its callback, or before the check. */
  predicate Passing(f: Frame) {
    f.Checking? || f.Cleared?
  }

  /** Every callback in progress remembers the one around it, and nothing runs on top of a
      NotifyWrapper that has not reached its callback. */
  ghost predicate Nested(stack: seq<Frame>) {
    stack == [] ||
    (var below, f := Front(stack), Last(stack);
     && Nested(below)
     && (f.Calling? ==> f.saved == TopNote(below))
     && (below != [] ==> !Passing(Last(below))))
  }

  ghost predicate ThreadOk(th: Thread) {
    th.current == TopNote(th.stack) && Nested(th.stack)
  }

  lemma PushOk(th: Thread, f: Frame)
    requires ThreadOk(th) && !f.Calling? && (th.stack == [] || !Passing(Last(th.stack)))
    ensures ThreadOk(th.(stack := th.stack + [f]))
  {
    assert Front(th.stack + [f]) == th.stack;
  }

  lemma PopOk(th: Thread)
    requires ThreadOk(th) && th.stack != []
    ensures var f := Last(th.stack);
      ThreadOk(Thread(Front(th.stack), if f.Calling? then f.saved else th.current))
  {
  }

  lemma CallOk(th: Thread, f: Frame)
    requires ThreadOk(th) && th.stack != [] && Passing(Last(th.stack)) && f.Calling? && f.saved == th.current
    ensures ThreadOk(Thread(Front(th.stack) + [f], Some(f.note)))
  {
    assert Front(Front(th.stack) + [f]) == Front(th.stack);
  }

  lemma SwapOk(th: Thread, f: Frame)
    requires ThreadOk(th) && th.stack != [] && !Last(th.stack).Calling? && !f.Calling?
    ensures ThreadOk(th.(stack := Front(th.stack) + [f]))
  {
    assert Front(Front(th.stack) + [f]) == Front(th.stack);
  }

  /** The thread that takes a step. */
  function ThreadOf(step: Step): Option<nat> {
    match step
    case Post(_) => None
    case _ => Some(step.thread)
  }

  lemma OthersKept(s: State, step: Step, u: nat)
    requires Enabled(s, step) && u < |s.threads| && ThreadOf(step) != Some(u)
    ensures |Apply(s, step).threads| == |s.threads| && Apply(s, step).threads[u] == s.threads[u]
  {
    hide FirstFor, Posts, Local, GrantsFor, Enumerates, Occupies;
  }

  lemma StepThreadOk(s: State, step: Step, t: nat)
    requires Enabled(s, step) && ThreadOf(step) == Some(t) && ThreadOk(s.threads[t])
    ensures |Apply(s, step).threads| == |s.threads| && ThreadOk(Apply(s, step).threads[t])
  {
    hide FirstFor, Posts, Local, GrantsFor, Occupies, ThreadOk, Nested, TopNote;
    var th := s.threads[t];
    match step
    case RunTask(_, on) =>
      var f := match s.tasks[FirstFor(s.tasks, on)] case Job(_) => User(on) case Deliver(_, o, n) => Checking(on, o, n);
      PushOk(th, f);
    case AddObserver(_, l, o) =>
    case RemoveObserver(_, l, o) =>
    case Notify(_, l, order) =>
    case NotifySynchronously(_, l, order) =>
      if th.stack != [] {
        var on := Top(s, t).on;
        PushOk(th, Looping(on, Note(l, s.notes), Local(order, s.lists[l].observers, on)));
      }
    case LoopNext(_) =>
      var f := Last(th.stack);
      if f.waiting == [] {
        PopOk(th);
      } else {
        var g := f.(waiting := f.waiting[1..]);
        SwapOk(th, g);
        PushOk(th.(stack := Front(th.stack) + [g]), Checking(f.on, f.waiting[0], f.note));
      }
    case Check(_) =>
      var f := Last(th.stack);
      SwapOk(th, Cleared(f.on, f.obs, f.note));
      PopOk(th);
    case Start(_) =>
      var f := Last(th.stack);
      CallOk(th, Calling(f.on, f.obs, f.note, th.current));
    case Return(_) => PopOk(th);
  }

  // ---------------------------------------------------- one thread per sequence

  ghost predicate Exclusive(s: State) {
    forall t, u, on :: 0 <= t < u < |s.threads| && Occupies(s.threads[t], on) ==> !Occupies(s.threads[u], on)
  }

  lemma OccupiesPush(th: Thread, f: Frame, on: nat)
    requires Occupies(th.(stack := th.stack + [f]), on)
    ensures Occupies(th, on) || f.on == on
  {
    var i :| 0 <= i < |th.stack| + 1 && (th.stack + [f])[i].on == on;
    assert i < |th.stack| ==> (th.stack + [f])[i] == th.stack[i];
  }

  lemma OccupiesPop(th: Thread, current: Option<Note>, on: nat)
    requires th.stack != [] && Occupies(Thread(Front(th.stack), current), on)
    ensures Occupies(th, on)
  {
    var i :| 0 <= i < |th.stack| - 1 && Front(th.stack)[i].on == on;
    assert th.stack[i].on == on;
  }

  lemma OccupiesTop(th: Thread)
    requires th.stack != []
    ensures Occupies(th, Last(th.stack).on)
  {
    assert th.stack[|th.stack| - 1] == Last(th.stack);
  }

  /** Replacing the top frame by one of its own sequence occupies nothing new. */
  lemma OccupiesSwap(th: Thread, f: Frame, current: Option<Note>, on: nat)
    requires th.stack != [] && f.on == Last(th.stack).on
    requires Occupies(Thread(Front(th.stack) + [f], current), on)
    ensures Occupies(th, on)
  {
    hide Occupies;
    OccupiesPush(Thread(Front(th.stack), current), f, on);
    if f.on == on {
      OccupiesTop(th);
    } else {
      OccupiesPop(th, current, on);
    }
  }

  /** A step puts its thread on a new sequence only by running a task of that sequence. */
  lemma StepOccupies(s: State, step: Step, t: nat, on: nat)
    requires Enabled(s, step) && ThreadOf(step) == Some(t) && |Apply(s, step).threads| == |s.threads|
    requires Occupies(Apply(s, step).threads[t], on)
    ensures Occupies(s.threads[t], on) || step == RunTask(t, on)
  {
    hide FirstFor, Posts, Local, GrantsFor, Occupies;
    var th := s.threads[t];
    if th.stack != [] {
      OccupiesTop(th);
    }
    match step
    case RunTask(_, q) =>
      var f := match s.tasks[FirstFor(s.tasks, q)] case Job(_) => User(q) case Deliver(_, o, n) => Checking(q, o, n);
      OccupiesPush(th, f, on);
    case AddObserver(_, l, o) =>
    case RemoveObserver(_, l, o) =>
    case Notify(_, l, order) =>
    case NotifySynchronously(_, l, order) =>
      if th.stack != [] {
        var q := Top(s, t).on;
        OccupiesPush(th, Looping(q, Note(l, s.notes), Local(order, s.lists[l].observers, q)), on);
      }
    case LoopNext(_) =>
      var f := Last(th.stack);
      if f.waiting == [] {
        OccupiesPop(th, th.current, on);
      } else {
        var g := f.(waiting := f.waiting[1..]);
        OccupiesPush(Thread(Front(th.stack) + [g], th.current), Checking(f.on, f.waiting[0], f.note), on);
        if f.on != on { OccupiesSwap(th, g, th.current, on); }
      }
    case Check(_) =>
      var f := Last(th.stack);
      if f.obs in s.lists[f.note.list].observers {
        OccupiesSwap(th, Cleared(f.on, f.obs, f.note), th.current, on);
      } else {
        OccupiesPop(th, th.current, on);
      }
    case Start(_) =>
      var f := Last(th.stack);
      OccupiesSwap(th, Calling(f.on, f.obs, f.note, th.current), Some(f.note), on);
    case Return(_) =>
      var f := Last(th.stack);
      OccupiesPop(th, if f.Calling? then f.saved else th.current, on);
  }

  lemma {:induction false} StepExclusive(s: State, step: Step)
    requires Enabled(s, step) && Exclusive(s)
    ensures Exclusive(Apply(s, step))
  {
    hide Enabled, Apply, Occupies;
    var after := Apply(s, step);
    StepKeepsThreads(s, step);
    forall t, u, on | 0 <= t < u < |after.threads| && Occupies(after.threads[t], on)
      ensures !Occupies(after.threads[u], on)
    {
      if Occupies(after.threads[u], on) {
        StepApart(s, step, t, u, on);
      }
    }
  }

  lemma StepKeepsThreads(s: State, step: Step)
    requires Enabled(s, step)
    ensures |Apply(s, step).threads| == |s.threads|
  {
    hide FirstFor, Posts, Local, GrantsFor, Enumerates, Occupies;
  }

  lemma RunTaskAlone(s: State, t: nat, u: nat, on: nat)
    requires Enabled(s, RunTask(t, on)) && u < |s.threads| && u != t
    ensures !Occupies(s.threads[u], on)
  {
  }

  lemma {:induction false} StepApart(s: State, step: Step, t: nat, u: nat, on: nat)
    requires Enabled(s, step) && Exclusive(s) && t < u < |s.threads| == |Apply(s, step).threads|
    ensures !(Occupies(Apply(s, step).threads[t], on) && Occupies(Apply(s, step).threads[u], on))
  {
    hide Enabled, Apply, Occupies;
    var after := Apply(s, step);
    if Occupies(after.threads[t], on) && Occupies(after.threads[u], on) {
      if ThreadOf(step) == Some(t) {
        OthersKept(s, step, u);
        StepOccupies(s, step, t, on);
        if step == RunTask(t, on) { RunTaskAlone(s, t, u, on); }
      } else {
        OthersKept(s, step, t);
        if ThreadOf(step) == Some(u) {
          StepOccupies(s, step, u, on);
          if step == RunTask(u, on) { RunTaskAlone(s, u, t, on); }
        } else {
          OthersKept(s, step, u);
        }
      }
    }
  }

  // ------------------------------------------------------- observers at home

  /** Each observer of each list registers from one sequence only. */
  ghost predicate Disciplined(s: State, step: Step, home: (nat, nat) -> nat)
    requires Enabled(s, step)
  {
    step.AddObserver? ==>
      CurrentSequence(s, step.thread).None? || CurrentSequence(s, step.thread) == Some(home(step.list, step.obs))
  }

  ghost predicate ObserversHome(s: State, home: (nat, nat) -> nat) {
    forall l, o :: l in s.lists && o in s.lists[l].observers ==> s.lists[l].observers[o] == home(l, o)
  }

  ghost predicate TaskHome(t: Task, home: (nat, nat) -> nat) {
    t.Deliver? ==> t.on == home(t.note.list, t.obs)
  }

  ghost predicate TasksHome(tasks: seq<Task>, home: (nat, nat) -> nat) {
    forall i :: 0 <= i < |tasks| ==> TaskHome(tasks[i], home)
  }

  ghost predicate FrameHome(f: Frame, home: (nat, nat) -> nat) {
    match f
    case User(_) => true
    case Looping(on, n, waiting) => forall i :: 0 <= i < |waiting| ==> home(n.list, waiting[i]) == on
    case Checking(on, o, n) => on == home(n.list, o)
    case Cleared(on, o, n) => on == home(n.list, o)
    case Calling(on, o, n, _) => on == home(n.list, o)
  }

  ghost predicate ThreadHome(th: Thread, home: (nat, nat) -> nat) {
    forall i :: 0 <= i < |th.stack| ==> FrameHome(th.stack[i], home)
  }

  ghost predicate LogHome(log: seq<Event>, home: (nat, nat) -> nat) {
    forall i :: 0 <= i < |log| && log[i].Called? ==> log[i].on == home(log[i].note.list, log[i].obs)
  }

  ghost predicate AtHome(s: State, home: (nat, nat) -> nat) {
    && ObserversHome(s, home) && TasksHome(s.tasks, home) && LogHome(s.log, home)
    && forall t :: 0 <= t < |s.threads| ==> ThreadHome(s.threads[t], home)
  }

  lemma {:induction false} PostsHome(order: seq<nat>, m: map<nat, nat>, n: Note, skip: Option<nat>, home: (nat, nat) -> nat)
    requires forall o :: o in order ==> o in m
    requires forall o :: o in m ==> m[o] == home(n.list, o)
    ensures TasksHome(Posts(order, m, n, skip), home)
  {
    if order != [] {
      PostsHome(Front(order), m, n, skip, home);
    }
  }

  lemma {:induction false} LocalHome(order: seq<nat>, m: map<nat, nat>, l: nat, on: nat, home: (nat, nat) -> nat)
    requires forall o :: o in order ==> o in m
    requires forall o :: o in m ==> m[o] == home(l, o)
    ensures forall i :: 0 <= i < |Local(order, m, on)| ==> home(l, Local(order, m, on)[i]) == on
  {
    if order != [] {
      LocalHome(Front(order), m, l, on, home);
    }
  }

  lemma StepObserversHome(s: State, step: Step, home: (nat, nat) -> nat)
    requires Enabled(s, step) && Disciplined(s, step, home) && ObserversHome(s, home)
    ensures ObserversHome(Apply(s, step), home)
  {
    hide FirstFor, Posts, Local, GrantsFor, Enumerates, Occupies;
  }

  lemma StepTasksHome(s: State, step: Step, home: (nat, nat) -> nat)
    requires Enabled(s, step) && Disciplined(s, step, home) && ObserversHome(s, home) && TasksHome(s.tasks, home)
    ensures TasksHome(Apply(s, step).tasks, home)
  {
    hide Posts, Local, GrantsFor, Occupies;
    match step
    case AddObserver(t, l, o) =>
      if CurrentSequence(s, t).Some? && PassedOn(s, t, l).Some? {
        assert TaskHome(Deliver(home(l, o), o, PassedOn(s, t, l).value), home);
      }
    case Notify(t, l, order) => PostsHome(order, s.lists[l].observers, Note(l, s.notes), None, home);
    case NotifySynchronously(t, l, order) =>
      PostsHome(order, s.lists[l].observers, Note(l, s.notes), CurrentSequence(s, t), home);
    case _ =>
  }

  lemma StepThreadHome(s: State, step: Step, t: nat, home: (nat, nat) -> nat)
    requires Enabled(s, step) && ThreadOf(step) == Some(t) && |Apply(s, step).threads| == |s.threads|
    requires ObserversHome(s, home) && TasksHome(s.tasks, home) && ThreadHome(s.threads[t], home)
    ensures ThreadHome(Apply(s, step).threads[t], home)
  {
    hide Posts, GrantsFor, Occupies;
    match step
    case RunTask(_, on) => assert TaskHome(s.tasks[FirstFor(s.tasks, on)], home);
    case NotifySynchronously(_, l, order) =>
      if s.threads[t].stack != [] {
        LocalHome(order, s.lists[l].observers, l, Top(s, t).on, home);
      }
    case AddObserver(_, _, _) =>
    case RemoveObserver(_, _, _) =>
    case Notify(_, _, _) =>
    case LoopNext(_) => assert FrameHome(Top(s, t), home);
    case Check(_) => assert FrameHome(Top(s, t), home);
    case Start(_) => assert FrameHome(Top(s, t), home);
    case Return(_) =>
  }

  lemma StepLogHome(s: State, step: Step, home: (nat, nat) -> nat)
    requires Enabled(s, step) && AtHome(s, home)
    ensures LogHome(Apply(s, step).log, home)
  {
    hide FirstFor, Posts, Local, GrantsFor, Enumerates, Occupies;
    if step.Start? {
      assert FrameHome(Top(s, step.thread), home);
    }
  }

  lemma StepAtHome(s: State, step: Step, home: (nat, nat) -> nat)
    requires Enabled(s, step) && Disciplined(s, step, home) && AtHome(s, home)
    ensures AtHome(Apply(s, step), home)
  {
    hide Enabled, Apply, ObserversHome, TasksHome, LogHome, ThreadHome;
    StepObserversHome(s, step, home);
    StepTasksHome(s, step, home);
    StepLogHome(s, step, home);
    StepKeepsThreads(s, step);
    forall t | 0 <= t < |Apply(s, step).threads|
      ensures ThreadHome(Apply(s, step).threads[t], home)
    {
      if ThreadOf(step) == Some(t) {
        StepThreadHome(s, step, t, home);
      } else {
        OthersKept(s, step, t);
      }
    }
  }

  // --------------------------------------------------------------- every state

  ghost predicate Inv(s: State) {
    Exclusive(s) && forall t :: 0 <= t < |s.threads| ==> ThreadOk(s.threads[t])
  }

  lemma StepKeepsInv(s: State, step: Step)
    requires Enabled(s, step) && Inv(s)
    ensures Inv(Apply(s, step))
  {
    hide Enabled, Apply, Exclusive, ThreadOk;
    StepExclusive(s, step);
    StepKeepsThreads(s, step);
    forall t | 0 <= t < |Apply(s, step).threads|
      ensures ThreadOk(Apply(s, step).threads[t])
    {
      if ThreadOf(step) == Some(t) {
        StepThreadOk(s, step, t);
      } else {
        OthersKept(s, step, t);
      }
    }
  }
}
