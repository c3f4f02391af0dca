/** ObserverListThreadSafe as a protocol: any number of lists, observers, sequences and
    threads.

    Lists, observers, sequences and threads are numbered.  All posted tasks are kept in
    one sequence in posting order; a sequence runs its own tasks in that order.  A thread
    is a stack of the calls in progress on it; a call that is running user code can do
    anything, including running a nested loop that takes more tasks.  Each critical
    section and each access to the thread-local value is one step. */
module ThreadSafeSpec {
  import opened Common

  datatype Policy = All | ExistingOnly

  /** One call of Notify() on list `list`. */
  datatype Note = Note(list: nat, id: nat)

  /** Something posted to sequence `on`: NotifyWrapper for an observer, or unrelated code. */
  datatype Task = Job(on: nat) | Deliver(on: nat, obs: nat, note: Note)

  /** A call in progress: unrelated code; the loop of NotifySynchronously; and NotifyWrapper
      before its locked check, after the check, and while the callback runs. */
  datatype Frame =
    | User(on: nat)
    | Looping(on: nat, note: Note, waiting: seq<nat>)
    | Checking(on: nat, obs: nat, note: Note)
    | Cleared(on: nat, obs: nat, note: Note)
    | Calling(on: nat, obs: nat, note: Note, saved: Option<Note>)

  /** `current` is tls_current_notification_. */
  datatype Thread = Thread(stack: seq<Frame>, current: Option<Note>)

  datatype Event = Called(on: nat, obs: nat, note: Note) | Stopped(obs: nat, note: Note)

  /** A delivery of a notification to an observer that the protocol has undertaken. */
  datatype Grant = Grant(obs: nat, note: Note)

  datatype List = List(policy: Policy, observers: map<nat, nat>)

  datatype State = State(
    lists: map<nat, List>, tasks: seq<Task>, threads: seq<Thread>,
    log: seq<Event>, grants: seq<Grant>, notes: nat)

  function Init(policies: map<nat, Policy>, threads: nat): State {
    State(map l | l in policies :: List(policies[l], map[]), [],
          seq(threads, _ => Thread([], None)), [], [], 0)
  }

  function Front<T>(s: seq<T>): seq<T>
    requires s != []
  {
    s[..|s| - 1]
  }

  function Last<T>(s: seq<T>): T
    requires s != []
  {
    s[|s| - 1]
  }

  datatype Step =
    | Post(on: nat)
    | RunTask(thread: nat, on: nat)
    | AddObserver(thread: nat, list: nat, obs: nat)
    | RemoveObserver(thread: nat, list: nat, obs: nat)
    | Notify(thread: nat, list: nat, order: seq<nat>)
    | NotifySynchronously(thread: nat, list: nat, order: seq<nat>)
    | LoopNext(thread: nat)
    | Check(thread: nat)
    | Start(thread: nat)
    | Return(thread: nat)

  // ------------------------------------------------------------------ reading

  /** The first task posted to sequence `on`, or the number of tasks. */
  function FirstFor(tasks: seq<Task>, on: nat): (i: nat)
    ensures i <= |tasks|
    ensures i < |tasks| ==> tasks[i].on == on
    ensures forall k :: 0 <= k < i ==> tasks[k].on != on
  {
    if tasks == [] || tasks[0].on == on then 0 else 1 + FirstFor(tasks[1..], on)
  }

  predicate HasTop(s: State, t: nat) {
    t < |s.threads| && s.threads[t].stack != []
  }

  function Top(s: State, t: nat): Frame
    requires HasTop(s, t)
  {
    Last(s.threads[t].stack)
  }

  /** User code is in control of thread `t`; with an empty stack it is code that has no
      task runner of its own. */
  predicate InCode(s: State, t: nat) {
    t < |s.threads| && (s.threads[t].stack == [] || Top(s, t).User? || Top(s, t).Calling?)
  }

  /** The sequence on which thread `t` is running (SequencedTaskRunnerHandle). */
  function CurrentSequence(s: State, t: nat): Option<nat>
    requires t < |s.threads|
  {
    if s.threads[t].stack == [] then None else Some(Top(s, t).on)
  }

  predicate Occupies(th: Thread, on: nat) {
    exists i :: 0 <= i < |th.stack| && th.stack[i].on == on
  }

  /** `order` lists the observers once each: some order of iteration over the map. */
  predicate Enumerates(order: seq<nat>, observers: map<nat, nat>) {
    && (forall o :: o in order ==> o in observers)
    && (forall o :: o in observers ==> o in order)
    && (forall i, j :: 0 <= i < j < |order| ==> order[i] != order[j])
  }

  // ------------------------------------------------------------------- writing

  function Push(s: State, t: nat, f: Frame): State
    requires t < |s.threads|
  {
    s.(threads := s.threads[t := s.threads[t].(stack := s.threads[t].stack + [f])])
  }

  function Pop(s: State, t: nat): State
    requires HasTop(s, t)
  {
    s.(threads := s.threads[t := s.threads[t].(stack := Front(s.threads[t].stack))])
  }

  function Replace(s: State, t: nat, f: Frame): State
    requires HasTop(s, t)
  {
    Push(Pop(s, t), t, f)
  }

  function SetCurrent(s: State, t: nat, current: Option<Note>): State
    requires t < |s.threads|
  {
    s.(threads := s.threads[t := s.threads[t].(current := current)])
  }

  /** The tasks posted for `order`, leaving out observers of sequence `skip`. */
  function Posts(order: seq<nat>, observers: map<nat, nat>, note: Note, skip: Option<nat>): seq<Task>
    requires forall o :: o in order ==> o in observers
  {
    if order == [] then []
    else
      var o := Last(order);
      Posts(Front(order), observers, note, skip)
      + if skip == Some(observers[o]) then [] else [Deliver(observers[o], o, note)]
  }

  /** The observers of sequence `on`. */
  function Local(order: seq<nat>, observers: map<nat, nat>, on: nat): seq<nat>
    requires forall o :: o in order ==> o in observers
  {
    if order == [] then []
    else
      var o := Last(order);
      Local(Front(order), observers, on) + if observers[o] == on then [o] else []
  }

  function GrantsFor(order: seq<nat>, note: Note): seq<Grant> {
    if order == [] then [] else GrantsFor(Front(order), note) + [Grant(Last(order), note)]
  }

  // --------------------------------------------------------------------- steps

  predicate Enabled(s: State, step: Step) {
    match step
    case Post(_) => true
    case RunTask(t, on) =>
      && InCode(s, t) && FirstFor(s.tasks, on) < |s.tasks|
      && forall u :: 0 <= u < |s.threads| && u != t ==> !Occupies(s.threads[u], on)
    case AddObserver(t, l, _) => InCode(s, t) && l in s.lists
    case RemoveObserver(t, l, _) => InCode(s, t) && l in s.lists
    case Notify(t, l, order) => InCode(s, t) && l in s.lists && Enumerates(order, s.lists[l].observers)
    case NotifySynchronously(t, l, order) => InCode(s, t) && l in s.lists && Enumerates(order, s.lists[l].observers)
    case LoopNext(t) => HasTop(s, t) && Top(s, t).Looping?
    case Check(t) => HasTop(s, t) && Top(s, t).Checking? && Top(s, t).note.list in s.lists
    case Start(t) => HasTop(s, t) && Top(s, t).Cleared?
    case Return(t) => HasTop(s, t) && InCode(s, t)
  }

  function SetObservers(s: State, l: nat, observers: map<nat, nat>): State
    requires l in s.lists
  {
    s.(lists := s.lists[l := s.lists[l].(observers := observers)])
  }

  /** The notification that AddObserver passes on to an observer added by thread `t`. */
  function PassedOn(s: State, t: nat, l: nat): Option<Note>
    requires t < |s.threads| && l in s.lists
  {
    var current := s.threads[t].current;
    if s.lists[l].policy == All && current.Some? && current.value.list == l then current else None
  }

  function Register(s: State, l: nat, o: nat, on: nat, passed: Option<Note>): State
    requires l in s.lists
  {
    var added := SetObservers(s, l, s.lists[l].observers[o := on]);
    match passed
    case None => added
    case Some(n) => added.(tasks := s.tasks + [Deliver(on, o, n)], grants := s.grants + [Grant(o, n)])
  }

  /** The critical section of Notify and NotifySynchronously; the latter skips the
      observers of sequence `skip`. */
  function PostAll(s: State, l: nat, order: seq<nat>, skip: Option<nat>): State
    requires l in s.lists && forall o :: o in order ==> o in s.lists[l].observers
  {
    var n := Note(l, s.notes);
    s.(tasks := s.tasks + Posts(order, s.lists[l].observers, n, skip),
       grants := s.grants + GrantsFor(order, n), notes := s.notes + 1)
  }

  function Apply(s: State, step: Step): State
    requires Enabled(s, step)
  {
    match step
    case Post(on) => s.(tasks := s.tasks + [Job(on)])
    case RunTask(t, on) =>
      var i := FirstFor(s.tasks, on);
      var rest := s.(tasks := s.tasks[..i] + s.tasks[i + 1..]);
      Push(rest, t, match s.tasks[i]
                    case Job(_) => User(on)
                    case Deliver(_, o, n) => Checking(on, o, n))
    case AddObserver(t, l, o) =>
      (match CurrentSequence(s, t)
       case None => s
       case Some(on) => Register(s, l, o, on, PassedOn(s, t, l)))
    case RemoveObserver(t, l, o) => SetObservers(s, l, s.lists[l].observers - {o})
    case Notify(t, l, order) => PostAll(s, l, order, None)
    case NotifySynchronously(t, l, order) =>
      (match CurrentSequence(s, t)
       case None => PostAll(s, l, order, None)
       case Some(on) =>
         Push(PostAll(s, l, order, Some(on)), t,
              Looping(on, Note(l, s.notes), Local(order, s.lists[l].observers, on))))
    case LoopNext(t) =>
      var f := Top(s, t);
      if f.waiting == [] then Pop(s, t)
      else Push(Replace(s, t, f.(waiting := f.waiting[1..])), t, Checking(f.on, f.waiting[0], f.note))
    case Check(t) =>
      var f := Top(s, t);
      if f.obs in s.lists[f.note.list].observers then Replace(s, t, Cleared(f.on, f.obs, f.note))
      else Pop(s, t).(log := s.log + [Stopped(f.obs, f.note)])
    case Start(t) =>
      var f := Top(s, t);
      SetCurrent(Replace(s, t, Calling(f.on, f.obs, f.note, s.threads[t].current)), t, Some(f.note))
        .(log := s.log + [Called(f.on, f.obs, f.note)])
    case Return(t) =>
      var f := Top(s, t);
      if f.Calling? then SetCurrent(Pop(s, t), t, f.saved) else Pop(s, t)
  }

  /** A run of the protocol from its start. */
  ghost predicate Run(policies: map<nat, Policy>, threads: nat, steps: seq<Step>, states: seq<State>) {
    && |states| == |steps| + 1 && states[0] == Init(policies, threads)
    && forall k :: 0 <= k < |steps| ==> Enabled(states[k], steps[k]) && states[k + 1] == Apply(states[k], steps[k])
  }
}
