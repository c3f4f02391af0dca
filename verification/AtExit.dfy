/** The stack of AtExitManagers.  A callback is named by its registration number, so a
    larger name is a later registration.  Callbacks may register more callbacks, process
    callbacks themselves and create or destroy managers; a step of the machine is one of
    these actions, and a callback that runs is any number of further steps. */
module AtExit {

  datatype Manager = Manager(id: nat, stack: seq<nat>)

  /** A call of ProcessCallbacksNow in progress: the callbacks it took from `manager` and
      has not run yet.  A final pass is the one made by the manager's destructor. */
  datatype Pass = Pass(id: nat, manager: nat, tasks: seq<nat>, final: bool)

  /** The beginning of a pass over `manager`, when `count` callbacks had been registered. */
  datatype Birth = Birth(manager: nat, count: nat)

  datatype Event = Ran(pass: nat, manager: nat, task: nat)

  /** `home[t]` is the manager callback `t` was registered with, `births[p]` the beginning
      of pass `p`, and `lost` are the callbacks left in a manager that was destroyed. */
  datatype State = State(
    managers: seq<Manager>, passes: seq<Pass>, ran: seq<Event>, home: seq<nat>, lost: seq<nat>,
    managerIds: nat, births: seq<Birth>, disabled: bool)

  const INIT := State([], [], [], [], [], 0, [], false)

  /** Begin is a call of ProcessCallbacksNow and Destroy the start of the destructor of the
      manager on top; End ends the innermost pass, and the destructor it belongs to. */
  datatype Step = NewManager | Register | Begin | Destroy | RunNext | End | Disable

  function Last<T>(s: seq<T>): T
    requires s != []
  {
    s[|s| - 1]
  }

  function Front<T>(s: seq<T>): seq<T>
    requires s != []
  {
    s[..|s| - 1]
  }

  /** The destructor of manager `id` is running its final pass. */
  predicate BeingDestroyed(s: State, id: nat) {
    exists i :: 0 <= i < |s.passes| && s.passes[i].final && s.passes[i].manager == id
  }

  /** No object is destroyed twice at once. */
  predicate Enabled(s: State, step: Step) {
    match step
    case NewManager => true
    case Register => true
    case Begin => true
    case Destroy => s.managers != [] ==> !BeingDestroyed(s, Last(s.managers).id)
    case RunNext => s.passes != [] && Last(s.passes).tasks != []
    case End => s.passes != [] && Last(s.passes).tasks == []
    case Disable => s.managers != []
  }

  function Position(ms: seq<Manager>, id: nat): (i: nat)
    ensures i <= |ms|
    ensures i < |ms| ==> ms[i].id == id
    ensures forall k :: 0 <= k < i ==> ms[k].id != id
  {
    if ms == [] || ms[0].id == id then 0 else 1 + Position(ms[1..], id)
  }

  /** All callbacks waiting in the managers. */
  function Waiting(ms: seq<Manager>): seq<nat> {
    if ms == [] then [] else Waiting(Front(ms)) + Last(ms).stack
  }

  /** ProcessCallbacksNow takes what is waiting in the manager on top. */
  function TakeTop(s: State, final: bool): State
    requires s.managers != []
  {
    var top := Last(s.managers);
    s.(managers := Front(s.managers) + [top.(stack := [])],
       passes := s.passes + [Pass(|s.births|, top.id, top.stack, final)],
       births := s.births + [Birth(top.id, |s.home|)])
  }

  /** The managers from position `i` on are gone, and what was waiting in them is lost. */
  function Dropped(s: State, i: nat): State
    requires i <= |s.managers|
  {
    s.(managers := s.managers[..i], lost := s.lost + Waiting(s.managers[i..]))
  }

  /** The destructor of `id` leaves the manager below it on top, also if callbacks left
      other managers above it. */
  function Gone(s: State, id: nat): State {
    Dropped(s, Position(s.managers, id))
  }

  function Apply(s: State, step: Step): State
    requires Enabled(s, step)
  {
    match step
    case NewManager => s.(managers := s.managers + [Manager(s.managerIds, [])], managerIds := s.managerIds + 1)
    case Register =>
      if s.managers == [] then s
      else
        var top := Last(s.managers);
        s.(managers := Front(s.managers) + [top.(stack := top.stack + [|s.home|])], home := s.home + [top.id])
    case Begin => if s.managers == [] then s else TakeTop(s, false)
    case Destroy =>
      if s.managers == [] then s
      else if s.disabled then Gone(s, Last(s.managers).id)
      else TakeTop(s, true)
    case RunNext =>
      var p := Last(s.passes);
      s.(passes := Front(s.passes) + [p.(tasks := Front(p.tasks))],
         ran := s.ran + [Ran(p.id, p.manager, Last(p.tasks))])
    case End =>
      var p := Last(s.passes);
      var ended := s.(passes := Front(s.passes));
      if p.final then Gone(ended, p.manager) else ended
    case Disable => s.(disabled := true)
  }

  // ------------------------------------------------------------- conservation

  function Occurs(ts: seq<nat>, t: nat): nat {
    if ts == [] then 0 else Occurs(Front(ts), t) + if Last(ts) == t then 1 else 0
  }

  /** How often callback `t` is waiting in a manager, taken by a pass, or has run. */
  function InManagers(ms: seq<Manager>, t: nat): nat {
    if ms == [] then 0 else InManagers(Front(ms), t) + Occurs(Last(ms).stack, t)
  }

  function InPasses(ps: seq<Pass>, t: nat): nat {
    if ps == [] then 0 else InPasses(Front(ps), t) + Occurs(Last(ps).tasks, t)
  }

  function TimesRun(es: seq<Event>, t: nat): nat {
    if es == [] then 0 else TimesRun(Front(es), t) + if Last(es).task == t then 1 else 0
  }

  function Places(s: State, t: nat): nat {
    InManagers(s.managers, t) + InPasses(s.passes, t) + TimesRun(s.ran, t) + Occurs(s.lost, t)
  }

  /** Every callback ever registered is in exactly one place, once. */
  ghost predicate Conserved(s: State) {
    forall t: nat :: Places(s, t) == if t < |s.home| then 1 else 0
  }

  lemma PutLast(ms: seq<Manager>, m: Manager, ps: seq<Pass>, p: Pass, es: seq<Event>, e: Event, t: nat)
    ensures InManagers(ms + [m], t) == InManagers(ms, t) + Occurs(m.stack, t)
    ensures InPasses(ps + [p], t) == InPasses(ps, t) + Occurs(p.tasks, t)
    ensures TimesRun(es + [e], t) == TimesRun(es, t) + if e.task == t then 1 else 0
  {
    assert Front(ms + [m]) == ms;
    assert Front(ps + [p]) == ps;
    assert Front(es + [e]) == es;
  }

  lemma {:induction false} OccursAppend(a: seq<nat>, b: seq<nat>, t: nat)
    ensures Occurs(a + b, t) == Occurs(a, t) + Occurs(b, t)
  {
    if b == [] {
      assert a + b == a;
    } else {
      assert Front(a + b) == a + Front(b);
      OccursAppend(a, Front(b), t);
    }
  }

  lemma {:induction false} WaitingCount(ms: seq<Manager>, t: nat)
    ensures Occurs(Waiting(ms), t) == InManagers(ms, t)
  {
    if ms != [] {
      WaitingCount(Front(ms), t);
      OccursAppend(Waiting(Front(ms)), Last(ms).stack, t);
    }
  }

  lemma {:induction false} ManagersAppend(a: seq<Manager>, b: seq<Manager>, t: nat)
    ensures InManagers(a + b, t) == InManagers(a, t) + InManagers(b, t)
  {
    if b == [] {
      assert a + b == a;
    } else {
      assert Front(a + b) == a + Front(b);
      ManagersAppend(a, Front(b), t);
    }
  }

  lemma DroppedMoves(s: State, i: nat, t: nat)
    requires i <= |s.managers|
    ensures Places(Dropped(s, i), t) == Places(s, t)
    ensures InManagers(Dropped(s, i).managers, t) + Occurs(Dropped(s, i).lost, t) == InManagers(s.managers, t) + Occurs(s.lost, t)
  {
    var kept, gone := s.managers[..i], s.managers[i..];
    assert s.managers == kept + gone;
    ManagersAppend(kept, gone, t);
    WaitingCount(gone, t);
    OccursAppend(s.lost, Waiting(gone), t);
  }

  lemma TakeTopMoves(s: State, final: bool, t: nat)
    requires s.managers != []
    ensures Places(TakeTop(s, final), t) == Places(s, t)
  {
    var top := Last(s.managers);
    PutLast(Front(s.managers), top.(stack := []), s.passes, Pass(|s.births|, top.id, top.stack, final), [], Ran(0, 0, 0), t);
  }

  /** A step moves callbacks between places; only registering adds one. */
  lemma StepMoves(s: State, step: Step, t: nat)
    requires Enabled(s, step)
    ensures var u := Apply(s, step);
            && |s.home| <= |u.home| <= |s.home| + 1
            && Places(u, t) == Places(s, t) + if t == |s.home| < |u.home| then 1 else 0
  {
    var noPass, noEvent := Pass(0, 0, [], false), Ran(0, 0, 0);
    match step
    case NewManager => PutLast(s.managers, Manager(s.managerIds, []), [], noPass, [], noEvent, t);
    case Register =>
      if s.managers != [] {
        var top := Last(s.managers);
        PutLast(Front(s.managers), top.(stack := top.stack + [|s.home|]), [], noPass, [], noEvent, t);
        assert Front(top.stack + [|s.home|]) == top.stack;
      }
    case Begin => if s.managers != [] { TakeTopMoves(s, false, t); }
    case Destroy =>
      if s.managers != [] {
        TakeTopMoves(s, true, t);
        DroppedMoves(s, Position(s.managers, Last(s.managers).id), t);
      }
    case RunNext =>
      var p := Last(s.passes);
      PutLast([], Manager(0, []), Front(s.passes), p.(tasks := Front(p.tasks)), s.ran, Ran(p.id, p.manager, Last(p.tasks)), t);
    case End =>
      var ended := s.(passes := Front(s.passes));
      DroppedMoves(ended, Position(s.managers, Last(s.passes).manager), t);
    case Disable =>
  }

  lemma StepConserves(s: State, step: Step)
    requires Conserved(s) && Enabled(s, step)
    ensures Conserved(Apply(s, step))
  {
    hide Places;
    var u := Apply(s, step);
    forall t: nat
      ensures Places(u, t) == if t < |u.home| then 1 else 0
    {
      StepMoves(s, step, t);
    }
  }

  // ------------------------------------------------------------------ order

  ghost predicate Increasing(ts: seq<nat>, bound: nat) {
    && (forall i, j :: 0 <= i < j < |ts| ==> ts[i] < ts[j])
    && (forall i :: 0 <= i < |ts| ==> ts[i] < bound)
  }

  ghost predicate AtHome(s: State, ts: seq<nat>, manager: nat) {
    forall i :: 0 <= i < |ts| ==> ts[i] < |s.home| && s.home[ts[i]] == manager
  }

  ghost predicate ManagerOk(s: State, m: Manager) {
    m.id < s.managerIds && Increasing(m.stack, |s.home|) && AtHome(s, m.stack, m.id)
  }

  ghost predicate PassOk(s: State, p: Pass) {
    && p.id < |s.births| && s.births[p.id].manager == p.manager
    && Increasing(p.tasks, s.births[p.id].count) && AtHome(s, p.tasks, p.manager)
  }

  ghost predicate EventOk(s: State, e: Event) {
    && e.pass < |s.births| && s.births[e.pass].manager == e.manager
    && e.task < s.births[e.pass].count && e.task < |s.home| && s.home[e.task] == e.manager
  }

  ghost predicate Stacked(ms: seq<Manager>) {
    forall i, j :: 0 <= i < j < |ms| ==> ms[i].id < ms[j].id
  }

  /** Within one pass, callbacks run in reverse order of registration: those that ran are
      in decreasing order and later than all that are still to run. */
  ghost predicate Reversed(s: State) {
    && (forall i, j :: 0 <= i < j < |s.ran| && s.ran[i].pass == s.ran[j].pass ==> s.ran[i].task > s.ran[j].task)
    && (forall i, k :: 0 <= i < |s.ran| && 0 <= k < |s.passes| && s.ran[i].pass == s.passes[k].id ==>
          Increasing(s.passes[k].tasks, s.ran[i].task))
    && (forall k, l :: 0 <= k < l < |s.passes| ==> s.passes[k].id != s.passes[l].id)
  }

  ghost predicate BirthsOk(s: State) {
    forall b :: 0 <= b < |s.births| ==> s.births[b].count <= |s.home|
  }

  // Everything in the invariant but conservation and what is pending.
  ghost predicate Ordered(s: State) {
    && Stacked(s.managers) && BirthsOk(s)
    && (forall i :: 0 <= i < |s.managers| ==> ManagerOk(s, s.managers[i]))
    && (forall i :: 0 <= i < |s.passes| ==> PassOk(s, s.passes[i]))
    && (forall i :: 0 <= i < |s.ran| ==> EventOk(s, s.ran[i]))
    && Reversed(s)
  }

  lemma RegisterKeepsOrder(s: State)
    requires Ordered(s) && s.managers != []
    ensures Ordered(Apply(s, Register))
  {
    var top := Last(s.managers);
    var t := Apply(s, Register);
    assert ManagerOk(s, top);
    assert ManagerOk(t, Last(t.managers));
    forall i | 0 <= i < |s.managers| - 1 ensures ManagerOk(t, t.managers[i]) {
      assert ManagerOk(s, s.managers[i]);
    }
    forall i | 0 <= i < |s.passes| ensures PassOk(t, t.passes[i]) {
      assert PassOk(s, s.passes[i]);
    }
    forall i | 0 <= i < |s.ran| ensures EventOk(t, t.ran[i]) {
      assert EventOk(s, s.ran[i]);
    }
  }

  lemma TakeTopKeepsOrder(s: State, final: bool)
    requires Ordered(s) && s.managers != []
    ensures Ordered(TakeTop(s, final))
  {
    var top := Last(s.managers);
    var t := TakeTop(s, final);
    assert ManagerOk(s, top);
    assert ManagerOk(t, Last(t.managers)) && PassOk(t, Last(t.passes));
    forall i | 0 <= i < |s.managers| - 1 ensures ManagerOk(t, t.managers[i]) {
      assert ManagerOk(s, s.managers[i]);
    }
    forall i | 0 <= i < |s.passes| ensures PassOk(t, t.passes[i]) {
      assert PassOk(s, s.passes[i]);
    }
    forall i | 0 <= i < |s.ran| ensures EventOk(t, t.ran[i]) {
      assert EventOk(s, s.ran[i]);
    }
  }

  lemma RunKeepsOrder(s: State)
    requires Ordered(s) && Enabled(s, RunNext)
    ensures Ordered(Apply(s, RunNext))
  {
    var p := Last(s.passes);
    var t := Apply(s, RunNext);
    assert PassOk(s, p);
    assert PassOk(t, Last(t.passes)) && EventOk(t, Last(t.ran));
    forall i | 0 <= i < |s.managers| ensures ManagerOk(t, t.managers[i]) {
      assert ManagerOk(s, s.managers[i]);
    }
    forall i | 0 <= i < |s.passes| - 1 ensures PassOk(t, t.passes[i]) {
      assert PassOk(s, s.passes[i]);
    }
    forall i | 0 <= i < |s.ran| ensures EventOk(t, t.ran[i]) {
      assert EventOk(s, s.ran[i]);
    }
    RunKeepsReversed(s);
  }

  lemma RunKeepsReversed(s: State)
    requires Ordered(s) && Enabled(s, RunNext)
    ensures Reversed(Apply(s, RunNext))
  {
    var m := |s.passes| - 1;
    var p := s.passes[m];
    var t := Apply(s, RunNext);
    assert PassOk(s, p);
    forall i, k | 0 <= i < |t.ran| && 0 <= k < |t.passes| && t.ran[i].pass == t.passes[k].id
      ensures Increasing(t.passes[k].tasks, t.ran[i].task)
    {
      if i < |s.ran| {
        assert Increasing(s.passes[k].tasks, s.ran[i].task);
      } else {
        assert k == m;
      }
    }
    forall i, j | 0 <= i < j < |t.ran| && t.ran[i].pass == t.ran[j].pass
      ensures t.ran[i].task > t.ran[j].task
    {
      if j == |s.ran| {
        assert Increasing(p.tasks, s.ran[i].task);
      }
    }
  }

  /** Dropping managers and ended passes leaves the order alone. */
  lemma FewerKeepOrder(s: State, passes: nat, managers: nat)
    requires Ordered(s) && passes <= |s.passes| && managers <= |s.managers|
    ensures Ordered(Dropped(s.(passes := s.passes[..passes]), managers))
  {
    var t := Dropped(s.(passes := s.passes[..passes]), managers);
    forall i | 0 <= i < |t.managers| ensures ManagerOk(t, t.managers[i]) {
      assert ManagerOk(s, s.managers[i]);
    }
    forall i | 0 <= i < |t.passes| ensures PassOk(t, t.passes[i]) {
      assert PassOk(s, s.passes[i]);
    }
    forall i | 0 <= i < |t.ran| ensures EventOk(t, t.ran[i]) {
      assert EventOk(s, s.ran[i]);
    }
  }

  lemma NewManagerKeepsOrder(s: State)
    requires Ordered(s)
    ensures Ordered(Apply(s, NewManager))
  {
    var t := Apply(s, NewManager);
    assert ManagerOk(t, Last(t.managers));
    forall i | 0 <= i < |s.managers| ensures ManagerOk(t, t.managers[i]) && s.managers[i].id < s.managerIds {
      assert ManagerOk(s, s.managers[i]);
    }
    forall i | 0 <= i < |s.passes| ensures PassOk(t, t.passes[i]) {
      assert PassOk(s, s.passes[i]);
    }
    forall i | 0 <= i < |s.ran| ensures EventOk(t, t.ran[i]) {
      assert EventOk(s, s.ran[i]);
    }
  }

  lemma EndKeepsOrder(s: State)
    requires Ordered(s) && Enabled(s, End)
    ensures Ordered(Apply(s, End))
  {
    var p, k := Last(s.passes), |s.passes| - 1;
    if p.final {
      FewerKeepOrder(s, k, Position(s.managers, p.manager));
    } else {
      FewerKeepOrder(s, k, |s.managers|);
      DropNothing(s.(passes := s.passes[..k]));
    }
  }

  lemma DropNothing(s: State)
    ensures Dropped(s, |s.managers|) == s
  {
    assert s.managers[..|s.managers|] == s.managers && s.managers[|s.managers|..] == [];
    assert s.lost + [] == s.lost;
  }

  lemma DisableKeepsOrder(s: State)
    requires Ordered(s)
    ensures Ordered(s.(disabled := true))
  {
    var t := s.(disabled := true);
    forall i | 0 <= i < |t.managers| ensures ManagerOk(t, t.managers[i]) {
      assert ManagerOk(s, s.managers[i]);
    }
    forall i | 0 <= i < |t.passes| ensures PassOk(t, t.passes[i]) {
      assert PassOk(s, s.passes[i]);
    }
    forall i | 0 <= i < |t.ran| ensures EventOk(t, t.ran[i]) {
      assert EventOk(s, s.ran[i]);
    }
  }

  lemma StepKeepsOrder(s: State, step: Step)
    requires Ordered(s) && Enabled(s, step)
    ensures Ordered(Apply(s, step))
  {
    hide Ordered, TakeTop, Dropped, BeingDestroyed;
    match step
    case NewManager => NewManagerKeepsOrder(s);
    case Register => if s.managers != [] { RegisterKeepsOrder(s); }
    case Begin => if s.managers != [] { TakeTopKeepsOrder(s, false); }
    case Destroy =>
      if s.managers != [] {
        TakeTopKeepsOrder(s, true);
        FewerKeepOrder(s, |s.passes|, Position(s.managers, Last(s.managers).id));
        assert s.(passes := s.passes[..|s.passes|]) == s;
      }
    case RunNext => RunKeepsOrder(s);
    case End => EndKeepsOrder(s);
    case Disable => DisableKeepsOrder(s);
  }

  // ------------------------------------------------------- what is still pending

  /** How many callbacks had been registered when the last pass over `manager` began. */
  function LastBirth(births: seq<Birth>, manager: nat): nat {
    if births == [] then 0
    else if Last(births).manager == manager then Last(births).count
    else LastBirth(Front(births), manager)
  }

  predicate Alive(s: State, id: nat) {
    exists i :: 0 <= i < |s.managers| && s.managers[i].id == id
  }

  function One(b: bool): nat { if b then 1 else 0 }

  /** A callback is waiting, or lost with its manager, exactly if no pass over its manager
      has begun since it was registered. */
  ghost predicate PendingOk(s: State, t: nat)
    requires t < |s.home|
  {
    InManagers(s.managers, t) + Occurs(s.lost, t) == One(LastBirth(s.births, s.home[t]) <= t)
  }

  ghost predicate LostOk(s: State) {
    forall i :: 0 <= i < |s.lost| ==>
      s.lost[i] < |s.home| && s.home[s.lost[i]] < s.managerIds && !Alive(s, s.home[s.lost[i]])
  }

  /** The managers of the destructors in progress are there, the innermost on top. */
  ghost predicate FinalOk(s: State) {
    && (forall i :: 0 <= i < |s.passes| && s.passes[i].final ==> Alive(s, s.passes[i].manager))
    && (forall i, j :: 0 <= i < j < |s.passes| && s.passes[i].final && s.passes[j].final ==>
          s.passes[i].manager < s.passes[j].manager)
  }

  ghost predicate Inv(s: State) {
    && Conserved(s) && Ordered(s) && LostOk(s) && FinalOk(s)
    && forall t: nat :: t < |s.home| ==> PendingOk(s, t)
  }

  lemma {:induction false} OccursIn(ts: seq<nat>, t: nat)
    ensures Occurs(ts, t) > 0 <==> t in ts
  {
    if ts != [] {
      OccursIn(Front(ts), t);
      assert ts == Front(ts) + [Last(ts)];
    }
  }

  lemma {:induction false} WaitingIn(ms: seq<Manager>, t: nat) returns (i: nat)
    requires t in Waiting(ms)
    ensures i < |ms| && t in ms[i].stack
  {
    if t in Last(ms).stack {
      i := |ms| - 1;
    } else {
      i := WaitingIn(Front(ms), t);
    }
  }

  /** A callback waits only with the manager it was registered with. */
  lemma WaitsAtHome(s: State, ms: seq<Manager>, t: nat)
    requires forall i :: 0 <= i < |ms| ==> ManagerOk(s, ms[i])
    requires InManagers(ms, t) > 0
    ensures t < |s.home| && exists i :: 0 <= i < |ms| && ms[i].id == s.home[t]
  {
    WaitingCount(ms, t);
    OccursIn(Waiting(ms), t);
    var i := WaitingIn(ms, t);
    assert ManagerOk(s, ms[i]);
    var j :| 0 <= j < |ms[i].stack| && ms[i].stack[j] == t;
  }

  lemma {:induction false} LastBirthBound(s: State, births: seq<Birth>, m: nat)
    requires forall b :: 0 <= b < |births| ==> births[b].count <= |s.home|
    ensures LastBirth(births, m) <= |s.home|
  {
    if births != [] && Last(births).manager != m {
      LastBirthBound(s, Front(births), m);
    }
  }

  lemma RegisterPending(s: State, t: nat)
    requires Inv(s) && s.managers != [] && t <= |s.home|
    ensures PendingOk(Apply(s, Register), t)
  {
    var top := Last(s.managers);
    var u := Apply(s, Register);
    PutLast(Front(s.managers), Last(u.managers), [], Pass(0, 0, [], false), [], Ran(0, 0, 0), t);
    assert Front(top.stack + [|s.home|]) == top.stack;
    assert s.managers == Front(s.managers) + [top];
    if t == |s.home| {
      assert Places(s, t) == 0;
      LastBirthBound(s, s.births, top.id);
    } else {
      assert PendingOk(s, t);
    }
  }

  lemma TakeTopPending(s: State, final: bool, t: nat)
    requires Inv(s) && s.managers != [] && t < |s.home|
    ensures PendingOk(TakeTop(s, final), t)
  {
    var top, u := Last(s.managers), TakeTop(s, final);
    PutLast(Front(s.managers), top.(stack := []), [], Pass(0, 0, [], false), [], Ran(0, 0, 0), t);
    assert Front(u.births) == s.births;
    assert PendingOk(s, t);
    if s.home[t] == top.id {
      if InManagers(Front(s.managers), t) > 0 {
        WaitsAtHome(s, Front(s.managers), t);
        assert false;
      }
      OccursIn(s.lost, t);
      assert s.managers[|s.managers| - 1] == top;
      assert t !in s.lost;
    } else {
      OccursIn(top.stack, t);
      assert ManagerOk(s, top);
    }
  }

  lemma StepPending(s: State, step: Step, t: nat)
    requires Inv(s) && Enabled(s, step) && t < |Apply(s, step).home|
    ensures PendingOk(Apply(s, step), t)
  {
    if t < |s.home| { assert PendingOk(s, t); }
    match step
    case NewManager =>
      PutLast(s.managers, Manager(s.managerIds, []), [], Pass(0, 0, [], false), [], Ran(0, 0, 0), t);
    case Register => if s.managers != [] { RegisterPending(s, t); }
    case Begin => if s.managers != [] { TakeTopPending(s, false, t); }
    case Destroy =>
      if s.managers != [] {
        TakeTopPending(s, true, t);
        DroppedMoves(s, Position(s.managers, Last(s.managers).id), t);
      }
    case RunNext =>
    case End => DroppedMoves(s.(passes := Front(s.passes)), Position(s.managers, Last(s.passes).manager), t);
    case Disable =>
  }

  /** Dropping the managers from `id` on leaves no manager of a lost callback. */
  lemma GoneLost(s: State, id: nat)
    requires Ordered(s) && LostOk(s)
    ensures LostOk(Gone(s, id))
  {
    var i := Position(s.managers, id);
    var u := Gone(s, id);
    forall k | 0 <= k < |u.lost|
      ensures u.lost[k] < |u.home| && u.home[u.lost[k]] < u.managerIds && !Alive(u, u.home[u.lost[k]])
    {
      var t := u.lost[k];
      if k < |s.lost| {
        assert !Alive(s, s.home[s.lost[k]]);
      } else {
        var gone := s.managers[i..];
        assert t == Waiting(gone)[k - |s.lost|];
        var j := WaitingIn(gone, t);
        assert gone[j] == s.managers[i + j];
        assert ManagerOk(s, s.managers[i + j]);
        var q :| 0 <= q < |gone[j].stack| && gone[j].stack[q] == t;
      }
    }
  }

  lemma StepLost(s: State, step: Step)
    requires Ordered(s) && LostOk(s) && Enabled(s, step)
    ensures LostOk(Apply(s, step))
  {
    hide Ordered, Dropped, Waiting;
    var u := Apply(s, step);
    match step
    case Destroy =>
      if s.managers != [] {
        if s.disabled { GoneLost(s, Last(s.managers).id); } else { TakeTopAlive(s, true); }
      }
    case End =>
      var p := Last(s.passes);
      var ended := s.(passes := Front(s.passes));
      if p.final {
        FewerKeepOrder(s, |s.passes| - 1, |s.managers|);
        DropNothing(ended);
        GoneLost(ended, p.manager);
      }
    case Begin => if s.managers != [] { TakeTopAlive(s, false); }
    case NewManager =>
    case Register => if s.managers != [] { RegisterAlive(s); }
    case RunNext =>
    case Disable =>
  }

  lemma TakeTopAlive(s: State, final: bool)
    requires s.managers != []
    ensures forall id :: Alive(TakeTop(s, final), id) == Alive(s, id)
  {
    var u := TakeTop(s, final);
    assert |u.managers| == |s.managers| && forall i :: 0 <= i < |s.managers| ==> u.managers[i].id == s.managers[i].id;
  }

  lemma RegisterAlive(s: State)
    requires s.managers != []
    ensures forall id :: Alive(Apply(s, Register), id) == Alive(s, id)
  {
    var u := Apply(s, Register);
    assert |u.managers| == |s.managers| && forall i :: 0 <= i < |s.managers| ==> u.managers[i].id == s.managers[i].id;
  }

  lemma TopIsLargest(s: State, id: nat)
    requires Stacked(s.managers) && Alive(s, id)
    ensures s.managers != [] && id <= Last(s.managers).id
  {
  }

  /** Below the managers that go, those with smaller numbers stay. */
  lemma GoneAlive(s: State, id: nat, other: nat)
    requires Stacked(s.managers) && Alive(s, id) && Alive(s, other) && other < id
    ensures Alive(Gone(s, id), other)
  {
    var i := Position(s.managers, id);
    var j :| 0 <= j < |s.managers| && s.managers[j].id == other;
    assert j < i;
    assert Gone(s, id).managers[j] == s.managers[j];
  }

  lemma StepFinal(s: State, step: Step)
    requires Ordered(s) && FinalOk(s) && Enabled(s, step)
    ensures FinalOk(Apply(s, step))
  {
    var u := Apply(s, step);
    match step
    case NewManager =>
      forall i | 0 <= i < |u.passes| && u.passes[i].final ensures Alive(u, u.passes[i].manager) {
        var k :| 0 <= k < |s.managers| && s.managers[k].id == s.passes[i].manager;
        assert u.managers[k] == s.managers[k];
      }
    case Register => if s.managers != [] { RegisterAlive(s); }
    case Begin => if s.managers != [] { TakeTopAlive(s, false); }
    case Destroy =>
      if s.managers != [] {
        DestroyFinal(s);
      }
    case RunNext =>
      assert forall i :: 0 <= i < |u.passes| ==> u.passes[i].final == s.passes[i].final && u.passes[i].manager == s.passes[i].manager;
    case End => EndFinal(s);
    case Disable =>
  }

  lemma DestroyFinal(s: State)
    requires Ordered(s) && FinalOk(s) && Enabled(s, Destroy) && s.managers != []
    ensures FinalOk(Apply(s, Destroy))
  {
    var top := Last(s.managers);
    assert s.managers[|s.managers| - 1] == top;
    var u := Apply(s, Destroy);
    forall i | 0 <= i < |s.passes| && s.passes[i].final ensures s.passes[i].manager < top.id {
      TopIsLargest(s, s.passes[i].manager);
    }
    if s.disabled {
      forall i | 0 <= i < |u.passes| && u.passes[i].final ensures Alive(u, u.passes[i].manager) {
        GoneAlive(s, top.id, s.passes[i].manager);
      }
    } else {
      TakeTopAlive(s, true);
    }
  }

  lemma EndFinal(s: State)
    requires Ordered(s) && FinalOk(s) && Enabled(s, End)
    ensures FinalOk(Apply(s, End))
  {
    var p, u := Last(s.passes), Apply(s, End);
    if p.final {
      var ended := s.(passes := Front(s.passes));
      forall i | 0 <= i < |u.passes| && u.passes[i].final ensures Alive(u, u.passes[i].manager) {
        assert s.passes[i].manager < p.manager;
        GoneAlive(ended, p.manager, s.passes[i].manager);
      }
    }
  }

  /** Every step keeps: each callback is in one place, passes take and run callbacks of
      their manager in reverse order, and a callback is pending exactly if no pass over its
      manager has begun since. */
  lemma {:induction false} StepKeepsInv(s: State, step: Step)
    requires Inv(s) && Enabled(s, step)
    ensures Inv(Apply(s, step))
  {
    hide Apply, Enabled, Conserved, Ordered, LostOk, FinalOk, PendingOk;
    StepConserves(s, step);
    StepKeepsOrder(s, step);
    StepLost(s, step);
    StepFinal(s, step);
    forall t: nat | t < |Apply(s, step).home| ensures PendingOk(Apply(s, step), t) {
      StepPending(s, step, t);
    }
  }
}
