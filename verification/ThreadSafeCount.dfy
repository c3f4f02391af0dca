/** Where each undertaken delivery is: every delivery granted is posted, in progress,
    called or stopped, and each is in exactly one of those places. */
module ThreadSafeCount {
  import opened Common
  import opened ThreadSafeSpec

  // ------------------------------------------------------------------ counting

  function One(b: bool): nat { if b then 1 else 0 }

  function Occurs(s: seq<nat>, o: nat): nat {
    if s == [] then 0 else Occurs(Front(s), o) + One(Last(s) == o)
  }

  function InTasks(tasks: seq<Task>, g: Grant): nat {
    if tasks == [] then 0 else InTasks(Front(tasks), g) + InTask(Last(tasks), g)
  }

  function InTask(t: Task, g: Grant): nat {
    One(t.Deliver? && t.obs == g.obs && t.note == g.note)
  }

  /** Deliveries that a call in progress has yet to make. */
  function InFrame(f: Frame, g: Grant): nat {
    match f
    case User(_) => 0
    case Looping(_, n, waiting) => if n == g.note then Occurs(waiting, g.obs) else 0
    case Checking(_, o, n) => One(Grant(o, n) == g)
    case Cleared(_, o, n) => One(Grant(o, n) == g)
    case Calling(_, _, _, _) => 0
  }

  function InStack(stack: seq<Frame>, g: Grant): nat {
    if stack == [] then 0 else InStack(Front(stack), g) + InFrame(Last(stack), g)
  }

  function InThreads(threads: seq<Thread>, g: Grant): nat {
    if threads == [] then 0 else InThreads(Front(threads), g) + InStack(Last(threads).stack, g)
  }

  function Calls(log: seq<Event>, g: Grant): nat {
    if log == [] then 0
    else Calls(Front(log), g) + One(Last(log).Called? && Grant(Last(log).obs, Last(log).note) == g)
  }

  function Stops(log: seq<Event>, g: Grant): nat {
    if log == [] then 0
    else Stops(Front(log), g) + One(Last(log).Stopped? && Grant(Last(log).obs, Last(log).note) == g)
  }

  function Granted(grants: seq<Grant>, g: Grant): nat {
    if grants == [] then 0 else Granted(Front(grants), g) + One(Last(grants) == g)
  }

  function Outstanding(s: State, g: Grant): nat {
    InTasks(s.tasks, g) + InThreads(s.threads, g)
  }

  predicate Balanced(s: State, g: Grant) {
    Granted(s.grants, g) == Outstanding(s, g) + Calls(s.log, g) + Stops(s.log, g)
  }

  // ------------------------------------------------------- sums over sequences

  lemma {:induction false} TasksAppend(a: seq<Task>, b: seq<Task>, g: Grant)
    ensures InTasks(a + b, g) == InTasks(a, g) + InTasks(b, g)
  {
    if b == [] {
      assert a + b == a;
    } else {
      TasksAppend(a, Front(b), g);
      assert Front(a + b) == a + Front(b);
    }
  }

  lemma TaskTaken(tasks: seq<Task>, i: nat, g: Grant)
    requires i < |tasks|
    ensures InTasks(tasks[..i] + tasks[i + 1..], g) == InTasks(tasks, g) - InTask(tasks[i], g)
  {
    assert tasks == tasks[..i] + ([tasks[i]] + tasks[i + 1..]);
    TasksAppend(tasks[..i], tasks[i + 1..], g);
    TasksAppend(tasks[..i], [tasks[i]] + tasks[i + 1..], g);
    TasksAppend([tasks[i]], tasks[i + 1..], g);
  }

  lemma {:induction false} GrantsAppend(a: seq<Grant>, b: seq<Grant>, g: Grant)
    ensures Granted(a + b, g) == Granted(a, g) + Granted(b, g)
  {
    if b == [] {
      assert a + b == a;
    } else {
      GrantsAppend(a, Front(b), g);
      assert Front(a + b) == a + Front(b);
    }
  }

  lemma {:induction false} OccursHead(s: seq<nat>, o: nat)
    requires s != []
    ensures Occurs(s, o) == One(s[0] == o) + Occurs(s[1..], o)
  {
    if |s| == 1 {
      assert Front(s) == [];
    } else {
      OccursHead(Front(s), o);
      assert Front(s)[1..] == Front(s[1..]);
    }
  }

  lemma {:induction false} OccursAbsent(s: seq<nat>, o: nat)
    requires o !in s
    ensures Occurs(s, o) == 0
  {
    if s != [] {
      OccursAbsent(Front(s), o);
    }
  }

  lemma {:induction false} OccursOnce(s: seq<nat>, o: nat)
    requires forall i, j :: 0 <= i < j < |s| ==> s[i] != s[j]
    ensures Occurs(s, o) == One(o in s)
  {
    if s != [] {
      if Last(s) == o {
        OccursAbsent(Front(s), o);
      } else {
        OccursOnce(Front(s), o);
        assert s == Front(s) + [Last(s)];
      }
    }
  }

  lemma {:induction false} ThreadsUpdate(threads: seq<Thread>, t: nat, th: Thread, g: Grant)
    requires t < |threads|
    ensures InThreads(threads[t := th], g) + InStack(threads[t].stack, g) == InThreads(threads, g) + InStack(th.stack, g)
  {
    var after := threads[t := th];
    if t == |threads| - 1 {
      assert Front(after) == Front(threads);
    } else {
      assert Front(after) == Front(threads)[t := th];
      ThreadsUpdate(Front(threads), t, th, g);
    }
  }

  lemma StackPush(stack: seq<Frame>, f: Frame, g: Grant)
    ensures InStack(stack + [f], g) == InStack(stack, g) + InFrame(f, g)
  {
    assert Front(stack + [f]) == stack;
  }

  lemma PushCount(s: State, t: nat, f: Frame, g: Grant)
    requires t < |s.threads|
    ensures InThreads(Push(s, t, f).threads, g) == InThreads(s.threads, g) + InFrame(f, g)
  {
    var th := s.threads[t];
    ThreadsUpdate(s.threads, t, th.(stack := th.stack + [f]), g);
    StackPush(th.stack, f, g);
  }

  lemma PopCount(s: State, t: nat, g: Grant)
    requires HasTop(s, t)
    ensures InThreads(Pop(s, t).threads, g) + InFrame(Top(s, t), g) == InThreads(s.threads, g)
  {
    var th := s.threads[t];
    ThreadsUpdate(s.threads, t, th.(stack := Front(th.stack)), g);
  }

  lemma ReplaceCount(s: State, t: nat, f: Frame, g: Grant)
    requires HasTop(s, t)
    ensures InThreads(Replace(s, t, f).threads, g) + InFrame(Top(s, t), g) == InThreads(s.threads, g) + InFrame(f, g)
  {
    PopCount(s, t, g);
    PushCount(Pop(s, t), t, f, g);
  }

  lemma SetCurrentCount(s: State, t: nat, current: Option<Note>, g: Grant)
    requires t < |s.threads|
    ensures InThreads(SetCurrent(s, t, current).threads, g) == InThreads(s.threads, g)
  {
    ThreadsUpdate(s.threads, t, s.threads[t].(current := current), g);
  }

  lemma LogAppend(log: seq<Event>, e: Event, g: Grant)
    ensures Calls(log + [e], g) == Calls(log, g) + One(e.Called? && Grant(e.obs, e.note) == g)
    ensures Stops(log + [e], g) == Stops(log, g) + One(e.Stopped? && Grant(e.obs, e.note) == g)
  {
    assert Front(log + [e]) == log;
  }

  // ------------------------------------------------------------ what is posted

  lemma {:induction false} GrantsForCount(order: seq<nat>, n: Note, g: Grant)
    ensures Granted(GrantsFor(order, n), g) == if g.note == n then Occurs(order, g.obs) else 0
  {
    if order != [] {
      GrantsForCount(Front(order), n, g);
      assert Front(GrantsFor(order, n)) == GrantsFor(Front(order), n);
    }
  }

  lemma OnePost(before: seq<Task>, on: nat, o: nat, n: Note, g: Grant)
    ensures InTasks(before + [Deliver(on, o, n)], g) == InTasks(before, g) + One(Grant(o, n) == g)
  {
    assert Front(before + [Deliver(on, o, n)]) == before;
  }

  lemma {:induction false} PostsCount(order: seq<nat>, m: map<nat, nat>, n: Note, g: Grant)
    requires forall o :: o in order ==> o in m
    ensures InTasks(Posts(order, m, n, None), g) == if g.note == n then Occurs(order, g.obs) else 0
  {
    hide InTasks;
    if order == [] {
      assert InTasks([], g) == 0 by { NoTasks(g); }
    } else {
      var o := Last(order);
      PostsCount(Front(order), m, n, g);
      OnePost(Posts(Front(order), m, n, None), m[o], o, n, g);
    }
  }

  lemma NoTasks(g: Grant)
    ensures InTasks([], g) == 0
  {
  }

  /** What NotifySynchronously does not post it keeps for its loop. */
  lemma {:induction false} PostsOthersCount(order: seq<nat>, m: map<nat, nat>, n: Note, on: nat, g: Grant)
    requires forall o :: o in order ==> o in m
    ensures InTasks(Posts(order, m, n, Some(on)), g) + (if g.note == n then Occurs(Local(order, m, on), g.obs) else 0)
         == if g.note == n then Occurs(order, g.obs) else 0
  {
    hide InTasks;
    if order == [] {
      NoTasks(g);
    } else {
      var o := Last(order);
      PostsOthersCount(Front(order), m, n, on, g);
      var posts, local := Posts(Front(order), m, n, Some(on)), Local(Front(order), m, on);
      if m[o] == on {
        assert Front(local + [o]) == local;
        assert posts + [] == posts;
      } else {
        OnePost(posts, m[o], o, n, g);
        assert local + [] == local;
      }
    }
  }

  // ---------------------------------------------------------- every step balances

  /** The change a step makes to the number of deliveries granted. */
  function NewGrants(s: State, step: Step, g: Grant): nat
    requires Enabled(s, step)
  {
    match step
    case AddObserver(t, l, o) =>
      One(CurrentSequence(s, t).Some? && PassedOn(s, t, l) == Some(g.note) && o == g.obs)
    case Notify(t, l, order) => One(g.note == Note(l, s.notes) && g.obs in s.lists[l].observers)
    case NotifySynchronously(t, l, order) => One(g.note == Note(l, s.notes) && g.obs in s.lists[l].observers)
    case _ => 0
  }

  lemma PostAllGrants(s: State, l: nat, order: seq<nat>, skip: Option<nat>, g: Grant)
    requires l in s.lists && Enumerates(order, s.lists[l].observers)
    ensures Granted(PostAll(s, l, order, skip).grants, g) ==
            Granted(s.grants, g) + One(g.note == Note(l, s.notes) && g.obs in s.lists[l].observers)
  {
    var n := Note(l, s.notes);
    GrantsForCount(order, n, g);
    GrantsAppend(s.grants, GrantsFor(order, n), g);
    OccursOnce(order, g.obs);
  }

  lemma NotifyBalances(s: State, l: nat, order: seq<nat>, g: Grant)
    requires l in s.lists && Enumerates(order, s.lists[l].observers) && Balanced(s, g)
    ensures Balanced(PostAll(s, l, order, None), g)
  {
    var n, m := Note(l, s.notes), s.lists[l].observers;
    PostAllGrants(s, l, order, None, g);
    OccursOnce(order, g.obs);
    PostsCount(order, m, n, g);
    TasksAppend(s.tasks, Posts(order, m, n, None), g);
  }

  lemma RunTaskBalances(s: State, t: nat, on: nat, g: Grant)
    requires Enabled(s, RunTask(t, on))
    ensures Outstanding(Apply(s, RunTask(t, on)), g) == Outstanding(s, g)
  {
    hide FirstFor, InTasks, InThreads, Occupies;
    var i := FirstFor(s.tasks, on);
    TaskTaken(s.tasks, i, g);
    var rest := s.(tasks := s.tasks[..i] + s.tasks[i + 1..]);
    var f := match s.tasks[i] case Job(_) => User(on) case Deliver(_, o, n) => Checking(on, o, n);
    PushCount(rest, t, f, g);
  }

  lemma AddBalances(s: State, t: nat, l: nat, o: nat, g: Grant)
    requires Enabled(s, AddObserver(t, l, o))
    ensures var after := Apply(s, AddObserver(t, l, o));
      && Outstanding(after, g) == Outstanding(s, g) + NewGrants(s, AddObserver(t, l, o), g)
      && Granted(after.grants, g) == Granted(s.grants, g) + NewGrants(s, AddObserver(t, l, o), g)
  {
    var on, passed := CurrentSequence(s, t), PassedOn(s, t, l);
    if on.Some? && passed.Some? {
      var task, grant := Deliver(on.value, o, passed.value), Grant(o, passed.value);
      assert Front(s.tasks + [task]) == s.tasks;
      assert Front(s.grants + [grant]) == s.grants;
    }
  }

  lemma LoopBalances(s: State, t: nat, g: Grant)
    requires Enabled(s, LoopNext(t))
    ensures Outstanding(Apply(s, LoopNext(t)), g) == Outstanding(s, g)
  {
    var f := Top(s, t);
    if f.waiting == [] {
      PopCount(s, t, g);
    } else {
      OccursHead(f.waiting, g.obs);
      var rest := f.(waiting := f.waiting[1..]);
      ReplaceCount(s, t, rest, g);
      PushCount(Replace(s, t, rest), t, Checking(f.on, f.waiting[0], f.note), g);
    }
  }

  lemma CheckBalances(s: State, t: nat, g: Grant)
    requires Enabled(s, Check(t))
    ensures var after := Apply(s, Check(t));
      && Outstanding(after, g) + Stops(after.log, g) == Outstanding(s, g) + Stops(s.log, g)
      && Calls(after.log, g) == Calls(s.log, g)
  {
    var f := Top(s, t);
    if f.obs in s.lists[f.note.list].observers {
      ReplaceCount(s, t, Cleared(f.on, f.obs, f.note), g);
    } else {
      PopCount(s, t, g);
      LogAppend(s.log, Stopped(f.obs, f.note), g);
    }
  }

  lemma StartBalances(s: State, t: nat, g: Grant)
    requires Enabled(s, Start(t))
    ensures var after := Apply(s, Start(t));
      && Outstanding(after, g) + Calls(after.log, g) == Outstanding(s, g) + Calls(s.log, g)
      && Stops(after.log, g) == Stops(s.log, g)
  {
    var f := Top(s, t);
    var calling := Calling(f.on, f.obs, f.note, s.threads[t].current);
    ReplaceCount(s, t, calling, g);
    SetCurrentCount(Replace(s, t, calling), t, Some(f.note), g);
    LogAppend(s.log, Called(f.on, f.obs, f.note), g);
  }

  lemma ReturnBalances(s: State, t: nat, g: Grant)
    requires Enabled(s, Return(t))
    ensures Outstanding(Apply(s, Return(t)), g) == Outstanding(s, g)
  {
    var f := Top(s, t);
    PopCount(s, t, g);
    if f.Calling? {
      SetCurrentCount(Pop(s, t), t, f.saved, g);
    }
  }

  lemma SyncBalances(s: State, t: nat, l: nat, order: seq<nat>, on: nat, g: Grant)
    requires t < |s.threads| && l in s.lists && Enumerates(order, s.lists[l].observers) && Balanced(s, g)
    ensures Balanced(Push(PostAll(s, l, order, Some(on)), t,
                          Looping(on, Note(l, s.notes), Local(order, s.lists[l].observers, on))), g)
  {
    var n, m := Note(l, s.notes), s.lists[l].observers;
    PostAllGrants(s, l, order, Some(on), g);
    OccursOnce(order, g.obs);
    PostsOthersCount(order, m, n, on, g);
    TasksAppend(s.tasks, Posts(order, m, n, Some(on)), g);
    PushCount(PostAll(s, l, order, Some(on)), t, Looping(on, n, Local(order, m, on)), g);
  }

  lemma PostBalances(s: State, on: nat, g: Grant)
    ensures Outstanding(Apply(s, Post(on)), g) == Outstanding(s, g)
  {
    assert Front(s.tasks + [Job(on)]) == s.tasks;
  }

  /** Conservation: no step loses or duplicates a delivery, and the deliveries granted
      grow by exactly `NewGrants`. */
  lemma StepBalances(s: State, step: Step, g: Grant)
    requires Enabled(s, step)
    ensures Balanced(s, g) ==> Balanced(Apply(s, step), g)
    ensures Granted(Apply(s, step).grants, g) == Granted(s.grants, g) + NewGrants(s, step, g)
  {
    hide InTasks, InThreads, Calls, Stops, Granted, Enumerates, FirstFor, Posts, Local, GrantsFor;
    match step
    case Post(on) => PostBalances(s, on, g);
    case RunTask(t, on) => RunTaskBalances(s, t, on, g);
    case AddObserver(t, l, o) => AddBalances(s, t, l, o, g);
    case RemoveObserver(t, l, o) =>
    case Notify(t, l, order) =>
      PostAllGrants(s, l, order, None, g);
      if Balanced(s, g) { NotifyBalances(s, l, order, g); }
    case NotifySynchronously(t, l, order) => SyncStepBalances(s, t, l, order, g);
    case LoopNext(t) => LoopBalances(s, t, g);
    case Check(t) => CheckBalances(s, t, g);
    case Start(t) => StartBalances(s, t, g);
    case Return(t) => ReturnBalances(s, t, g);
  }

  lemma SyncStepBalances(s: State, t: nat, l: nat, order: seq<nat>, g: Grant)
    requires Enabled(s, NotifySynchronously(t, l, order))
    ensures var after := Apply(s, NotifySynchronously(t, l, order));
      && (Balanced(s, g) ==> Balanced(after, g))
      && Granted(after.grants, g) == Granted(s.grants, g) + NewGrants(s, NotifySynchronously(t, l, order), g)
  {
    hide InTasks, InThreads, Calls, Stops, Granted, Enumerates, Posts, Local, GrantsFor;
    match CurrentSequence(s, t)
    case None =>
      PostAllGrants(s, l, order, None, g);
      if Balanced(s, g) { NotifyBalances(s, l, order, g); }
    case Some(on) =>
      PostAllGrants(s, l, order, Some(on), g);
      if Balanced(s, g) { SyncBalances(s, t, l, order, on, g); }
  }
}
