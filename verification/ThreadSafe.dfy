/** The operations of ObserverListThreadSafe on shared memory.  Each method is one step of
    the protocol: a critical section, or an access to the thread-local value.  What a process
    holds is always the end of a run of the protocol. */
module ThreadSafe {
  import opened Common
  import opened ThreadSafeSpec
  import opened ThreadSafeCount
  import opened ThreadSafeInvariants
  import opened ThreadSafeRuns
  import opened ThreadSafeRemoval
  import opened ThreadSafeSync

  class Process {
    var lists: map<nat, List>
    var tasks: seq<Task>
    var threads: seq<Thread>
    var notes: nat
    ghost var log: seq<Event>
    ghost var grants: seq<Grant>

    ghost function Value(): State
      reads this
    {
      State(lists, tasks, threads, log, grants, notes)
    }

    ghost predicate Valid()
      reads this
    {
      Reachable(Value())
    }

    constructor (policies: map<nat, Policy>, count: nat)
      ensures Valid() && Value() == Init(policies, count)
    {
      lists := map l | l in policies :: List(policies[l], map[]);
      tasks, threads := [], seq(count, _ => Thread([], None));
      notes, log, grants := 0, [], [];
      InitReachable(policies, count);
    }

    /** AddObserver, called on thread `t`.  Inside a callback for a notification of this list,
        under ALL, the observer gets one delivery of the innermost one; otherwise nothing is
        delivered to it that was sent before. */
    method AddObserver(t: nat, l: nat, o: nat)
      requires Valid() && Enabled(Value(), Step.AddObserver(t, l, o))
      modifies this
      ensures Valid() && Value() == Apply(old(Value()), Step.AddObserver(t, l, o))
      ensures threads == old(threads) && (threads[t].stack != [] ==> Registered(Value(), l, o))
      ensures forall g: Grant :: Outstanding(Value(), g) == Outstanding(old(Value()), g) + One(PassesOn(old(Value()), t, l, o, g))
    {
      ghost var s := Value();
      AddEffects(s, t, l, o);
      hide Reachable, Outstanding, PassesOn;
      if threads[t].stack != [] {
        var on := Last(threads[t].stack).on;
        var policy := lists[l].policy;
        lists := lists[l := List(policy, lists[l].observers[o := on])];
        if policy == All {
          var current := threads[t].current;
          if current.Some? && current.value.list == l {
            tasks := tasks + [Deliver(on, o, current.value)];
            grants := grants + [Grant(o, current.value)];
          }
        }
      }
    }

    /** Afterwards the observer is not registered, and if this is called on the sequence the
        observer registers from, no thread is about to call it. */
    method RemoveObserver(t: nat, l: nat, o: nat, ghost home: (nat, nat) -> nat)
      requires Valid() && Enabled(Value(), Step.RemoveObserver(t, l, o))
      modifies this
      ensures Valid() && Value() == Apply(old(Value()), Step.RemoveObserver(t, l, o))
      ensures !Registered(Value(), l, o)
      ensures forall k: nat, p: nat :: (k, p) != (l, o) ==> Registered(Value(), k, p) == Registered(old(Value()), k, p)
      ensures AtHome(old(Value()), home) && CurrentSequence(old(Value()), t) == Some(home(l, o)) ==>
        forall u :: !AboutToCall(Value(), u, l, o)
    {
      ghost var s := Value();
      RemoveEffects(s, t, l, o, home);
      hide Reachable, AtHome, AboutToCall;
      lists := lists[l := List(lists[l].policy, lists[l].observers - {o})];
    }

    /** Notify: one task for every observer, posted to the observer's sequence, and nothing
        for anybody else; no call is started. */
    method Notify(t: nat, l: nat) returns (ghost order: seq<nat>)
      requires Valid() && InCode(Value(), t) && l in lists
      modifies this
      ensures Enumerates(order, old(lists[l].observers))
      ensures Valid() && Value() == Apply(old(Value()), Step.Notify(t, l, order))
      ensures threads == old(threads) && forall o: nat :: Split(old(Value()), Value(), t, l, None, o)
      ensures forall o: nat :: Outstanding(Value(), Grant(o, Note(l, old(notes)))) == One(o in old(lists[l].observers))
    {
      ghost var s := Value();
      var n := Note(l, notes);
      var posts, local;
      posts, local, order := Deliveries(lists[l].observers, n, None);
      NotifyEffects(s, t, l, order);
      hide Reachable, Outstanding, Split, Enumerates;
      tasks, notes, grants := tasks + posts, notes + 1, grants + GrantsFor(order, n);
    }

    /** The critical section of NotifySynchronously: observers of the calling sequence have
        their delivery on the calling thread's stack, to be called in a loop; the others get
        one task each, on their own sequence. */
    method NotifySynchronously(t: nat, l: nat) returns (ghost order: seq<nat>)
      requires Valid() && InCode(Value(), t) && l in lists
      modifies this
      ensures Enumerates(order, old(lists[l].observers))
      ensures Valid() && Value() == Apply(old(Value()), Step.NotifySynchronously(t, l, order))
      ensures |threads| == |old(threads)| && forall o: nat :: Split(old(Value()), Value(), t, l, CurrentSequence(old(Value()), t), o)
      ensures forall o: nat :: Outstanding(Value(), Grant(o, Note(l, old(notes)))) == One(o in old(lists[l].observers))
    {
      ghost var s := Value();
      var n := Note(l, notes);
      var here := if threads[t].stack == [] then None else Some(Last(threads[t].stack).on);
      var posts, local;
      posts, local, order := Deliveries(lists[l].observers, n, here);
      SyncEffects(s, t, l, order);
      hide Reachable, Outstanding, Split, Enumerates;
      tasks, notes, grants := tasks + posts, notes + 1, grants + GrantsFor(order, n);
      if here.Some? {
        threads := threads[t := Thread(threads[t].stack + [Looping(here.value, n, local)], threads[t].current)];
      }
    }

    /** One turn of the loop of NotifySynchronously: the next call of NotifyWrapper, or the
        end of the loop.  No delivery is lost or made twice, and none is made yet. */
    method LoopNext(t: nat)
      requires Valid() && Enabled(Value(), Step.LoopNext(t))
      modifies this
      ensures Valid() && Value() == Apply(old(Value()), Step.LoopNext(t))
      ensures log == old(log) && forall g: Grant :: Outstanding(Value(), g) == Outstanding(old(Value()), g)
    {
      ghost var s := Value();
      LoopEffects(s, t);
      hide Reachable, Outstanding;
      var f := Last(threads[t].stack);
      var stack := Front(threads[t].stack);
      if f.waiting != [] {
        stack := stack + [Looping(f.on, f.note, f.waiting[1..])] + [Checking(f.on, f.waiting[0], f.note)];
      }
      threads := threads[t := Thread(stack, threads[t].current)];
    }

    /** NotifyWrapper up to the end of its critical section: the thread is then about to call
        the observer exactly if it is registered; otherwise the delivery is over. */
    method Check(t: nat)
      requires Valid() && Enabled(Value(), Step.Check(t))
      modifies this
      ensures Valid() && Value() == Apply(old(Value()), Step.Check(t))
      ensures var f := old(Top(Value(), t));
        if Registered(Value(), f.note.list, f.obs)
        then log == old(log) && AboutToCall(Value(), t, f.note.list, f.obs)
        else log == old(log) + [Stopped(f.obs, f.note)] && !AboutToCall(Value(), t, f.note.list, f.obs)
      ensures forall g: Grant ::
        Outstanding(Value(), g) + Stops(log, g) == Outstanding(old(Value()), g) + Stops(old(log), g)
    {
      ghost var s := Value();
      CheckEffects(s, t);
      hide Reachable, Outstanding, Stops, AboutToCall, Registered;
      var f := Last(threads[t].stack);
      var below := Front(threads[t].stack);
      if f.obs in lists[f.note.list].observers {
        threads := threads[t := Thread(below + [Cleared(f.on, f.obs, f.note)], threads[t].current)];
      } else {
        threads := threads[t := Thread(below, threads[t].current)];
        log := log + [Stopped(f.obs, f.note)];
      }
    }

    /** NotifyWrapper saves the thread-local value, replaces it and starts the callback: the
        value is the innermost notification of the thread, and the delivery has become a call. */
    method Start(t: nat)
      requires Valid() && Enabled(Value(), Step.Start(t))
      modifies this
      ensures Valid() && Value() == Apply(old(Value()), Step.Start(t))
      ensures threads[t].current == TopNote(threads[t].stack) == Some(old(Top(Value(), t)).note)
      ensures forall g: Grant ::
        Outstanding(Value(), g) + Calls(log, g) == Outstanding(old(Value()), g) + Calls(old(log), g)
    {
      ghost var s := Value();
      StartEffects(s, t);
      hide Reachable, Outstanding, Calls, TopNote;
      var f := Last(threads[t].stack);
      var previous := threads[t].current;
      threads := threads[t := Thread(Front(threads[t].stack) + [Calling(f.on, f.obs, f.note, previous)], Some(f.note))];
      log := log + [Called(f.on, f.obs, f.note)];
    }

    /** A callback returns to NotifyWrapper, which restores the thread-local value; or other
        code returns.  The value is that of the callback around it, if there is one. */
    method Return(t: nat)
      requires Valid() && Enabled(Value(), Step.Return(t))
      modifies this
      ensures Valid() && Value() == Apply(old(Value()), Step.Return(t))
      ensures threads[t].stack == Front(old(threads[t].stack)) && threads[t].current == TopNote(threads[t].stack)
      ensures log == old(log) && forall g: Grant :: Outstanding(Value(), g) == Outstanding(old(Value()), g)
    {
      ghost var s := Value();
      ReturnEffects(s, t);
      hide Reachable, Outstanding, TopNote;
      var f := Last(threads[t].stack);
      threads := threads[t := Thread(Front(threads[t].stack), if f.Calling? then f.saved else threads[t].current)];
    }
  }

  // ------------------------------------------------- what the steps mean to a caller

  /** Delivery `g` is of the innermost notification of thread `t`, which is one of list `l`,
      to observer `o`, and the policy is ALL. */
  predicate PassesOn(s: State, t: nat, l: nat, o: nat, g: Grant)
    requires t < |s.threads| && l in s.lists
  {
    && g.obs == o && g.note.list == l && s.lists[l].policy == All
    && TopNote(s.threads[t].stack) == Some(g.note)
  }

  lemma AddEffects(s: State, t: nat, l: nat, o: nat)
    requires Reachable(s) && Enabled(s, Step.AddObserver(t, l, o))
    ensures var u := Apply(s, Step.AddObserver(t, l, o));
      && Reachable(u) && (s.threads[t].stack != [] ==> Registered(u, l, o))
      && forall g: Grant :: Outstanding(u, g) == Outstanding(s, g) + One(PassesOn(s, t, l, o, g))
  {
    Reaches(s, Step.AddObserver(t, l, o));
    forall g: Grant
      ensures Outstanding(Apply(s, Step.AddObserver(t, l, o)), g) == Outstanding(s, g) + One(PassesOn(s, t, l, o, g))
    {
      AddedOnce(s, t, l, o, g);
    }
  }

  lemma RemoveEffects(s: State, t: nat, l: nat, o: nat, home: (nat, nat) -> nat)
    requires Reachable(s) && Enabled(s, Step.RemoveObserver(t, l, o))
    ensures var u := Apply(s, Step.RemoveObserver(t, l, o));
      && Reachable(u)
      && (AtHome(s, home) && CurrentSequence(s, t) == Some(home(l, o)) ==> forall v :: !AboutToCall(u, v, l, o))
  {
    var step := Step.RemoveObserver(t, l, o);
    Reaches(s, step);
    ReachableInv(s);
    hide Reachable, Apply, AboutToCall, Inv, AtHome;
    if AtHome(s, home) && CurrentSequence(s, t) == Some(home(l, o)) {
      forall v: nat ensures !AboutToCall(Apply(s, step), v, l, o) {
        NobodyAboutToCall(s, step, l, o, home, v);
      }
    }
  }

  lemma NotifyEffects(s: State, t: nat, l: nat, order: seq<nat>)
    requires Reachable(s) && Enabled(s, Step.Notify(t, l, order))
    ensures var u := Apply(s, Step.Notify(t, l, order));
      && Reachable(u) && u.threads == s.threads
      && (forall o: nat :: Split(s, u, t, l, None, o))
      && forall o: nat :: Outstanding(u, Grant(o, Note(l, s.notes))) == One(o in s.lists[l].observers)
  {
    var step := Step.Notify(t, l, order);
    Reaches(s, step);
    var u := Apply(s, step);
    assert u.threads == s.threads;
    hide Reachable, Apply, Split, Outstanding;
    forall o: nat
      ensures Split(s, u, t, l, None, o) && Outstanding(u, Grant(o, Note(l, s.notes))) == One(o in s.lists[l].observers)
    {
      NotifySplits(s, t, l, order, o);
      SentOnce(s, step, Grant(o, Note(l, s.notes)));
    }
  }

  lemma SyncEffects(s: State, t: nat, l: nat, order: seq<nat>)
    requires Reachable(s) && Enabled(s, Step.NotifySynchronously(t, l, order))
    ensures var u := Apply(s, Step.NotifySynchronously(t, l, order));
      && Reachable(u) && |u.threads| == |s.threads|
      && (forall o: nat :: Split(s, u, t, l, CurrentSequence(s, t), o))
      && forall o: nat :: Outstanding(u, Grant(o, Note(l, s.notes))) == One(o in s.lists[l].observers)
  {
    var step := Step.NotifySynchronously(t, l, order);
    Reaches(s, step);
    StepKeepsThreads(s, step);
    var u := Apply(s, step);
    hide Reachable, Apply, Split, Outstanding;
    forall o: nat
      ensures Split(s, u, t, l, CurrentSequence(s, t), o)
      ensures Outstanding(u, Grant(o, Note(l, s.notes))) == One(o in s.lists[l].observers)
    {
      SyncSplits(s, t, l, order, o);
      SentOnce(s, step, Grant(o, Note(l, s.notes)));
    }
  }

  lemma LoopEffects(s: State, t: nat)
    requires Reachable(s) && Enabled(s, Step.LoopNext(t))
    ensures var u := Apply(s, Step.LoopNext(t));
      Reachable(u) && u.log == s.log && forall g: Grant :: Outstanding(u, g) == Outstanding(s, g)
  {
    Reaches(s, Step.LoopNext(t));
    forall g: Grant ensures Outstanding(Apply(s, Step.LoopNext(t)), g) == Outstanding(s, g) {
      LoopBalances(s, t, g);
    }
  }

  lemma CheckEffects(s: State, t: nat)
    requires Reachable(s) && Enabled(s, Step.Check(t))
    ensures var u, f := Apply(s, Step.Check(t)), Top(s, t);
      && Reachable(u) && u.lists == s.lists
      && (Registered(s, f.note.list, f.obs) <==> f.obs in s.lists[f.note.list].observers)
      && (AboutToCall(u, t, f.note.list, f.obs) <==> Registered(s, f.note.list, f.obs))
      && forall g: Grant :: Outstanding(u, g) + Stops(u.log, g) == Outstanding(s, g) + Stops(s.log, g)
  {
    Reaches(s, Step.Check(t));
    ReachableInv(s);
    var u := Apply(s, Step.Check(t));
    forall g: Grant ensures Outstanding(u, g) + Stops(u.log, g) == Outstanding(s, g) + Stops(s.log, g) {
      CheckBalances(s, t, g);
    }
    hide Reachable, AllSent, Exclusive;
    var stack := s.threads[t].stack;
    assert ThreadOk(s.threads[t]);
    if |stack| > 1 { NestedBelow(stack); }
  }

  lemma StartEffects(s: State, t: nat)
    requires Reachable(s) && Enabled(s, Step.Start(t))
    ensures var u := Apply(s, Step.Start(t));
      && Reachable(u) && t < |u.threads| && u.threads[t].current == TopNote(u.threads[t].stack) == Some(Top(s, t).note)
      && forall g: Grant :: Outstanding(u, g) + Calls(u.log, g) == Outstanding(s, g) + Calls(s.log, g)
  {
    Reaches(s, Step.Start(t));
    var u := Apply(s, Step.Start(t));
    ReachableTop(u, t);
    forall g: Grant ensures Outstanding(u, g) + Calls(u.log, g) == Outstanding(s, g) + Calls(s.log, g) {
      StartBalances(s, t, g);
    }
  }

  lemma ReturnEffects(s: State, t: nat)
    requires Reachable(s) && Enabled(s, Step.Return(t))
    ensures var u := Apply(s, Step.Return(t));
      && Reachable(u) && u.log == s.log
      && t < |u.threads| && u.threads[t].current == TopNote(u.threads[t].stack)
      && forall g: Grant :: Outstanding(u, g) == Outstanding(s, g)
  {
    Reaches(s, Step.Return(t));
    var u := Apply(s, Step.Return(t));
    ReachableTop(u, t);
    forall g: Grant ensures Outstanding(u, g) == Outstanding(s, g) {
      ReturnBalances(s, t, g);
    }
  }

  /** The loop over the observers: a task for every observer that is not of sequence
      `here`, and those of `here` set aside, in the order of the iteration. */
  method Deliveries(m: map<nat, nat>, n: Note, here: Option<nat>) returns (posts: seq<Task>, local: seq<nat>, order: seq<nat>)
    ensures Enumerates(order, m)
    ensures posts == Posts(order, m, n, here)
    ensures here.Some? ==> local == Local(order, m, here.value)
  {
    var rest := m.Keys;
    posts, local, order := [], [], [];
    while rest != {}
      invariant rest <= m.Keys && forall o :: o in m ==> (o in rest <==> o !in order)
      invariant forall o :: o in order ==> o in m
      invariant forall i, j :: 0 <= i < j < |order| ==> order[i] != order[j]
      invariant posts == Posts(order, m, n, here)
      invariant here.Some? ==> local == Local(order, m, here.value)
      decreases |rest|
    {
      var o :| o in rest;
      rest := rest - {o};
      PostsStep(order, m, n, here, o);
      if here == Some(m[o]) {
        local := local + [o];
      } else {
        posts := posts + [Deliver(m[o], o, n)];
      }
      order := order + [o];
    }
  }

  lemma PostsStep(order: seq<nat>, m: map<nat, nat>, n: Note, skip: Option<nat>, o: nat)
    requires o in m && forall p :: p in order ==> p in m
    ensures forall p :: p in order + [o] ==> p in m
    ensures Posts(order + [o], m, n, skip)
         == Posts(order, m, n, skip) + (if skip == Some(m[o]) then [] else [Deliver(m[o], o, n)])
    ensures skip.Some? ==>
      (var on := skip.value; Local(order + [o], m, on) == Local(order, m, on) + if m[o] == on then [o] else [])
  {
    assert Front(order + [o]) == order;
  }
}
