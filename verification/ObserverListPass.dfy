/** What an ObserverList keeps over every history of calls, that it refines a plain
    ordered sequence without duplicates, and what one notification pass visits when
    the notified code does anything it likes to the list. */
module ObserverListPass {
  import opened ObserverListSpec

  // ------------------------------------------------------------ histories

  function Run<I(==)>(s: State<I>, ops: seq<Op<I>>): State<I>
    decreases |ops|
  {
    if ops == [] then s else Run(Apply(s, ops[0]), ops[1..])
  }

  predicate ProperRun<I(==)>(s: State<I>, ops: seq<Op<I>>)
    decreases |ops|
  {
    ops != [] ==> Proper(s, ops[0]) && ProperRun(Apply(s, ops[0]), ops[1..])
  }

  lemma EraseKeepsUnique(slots: seq<Pointer>, i: nat)
    requires NoDuplicates(slots) && i < |slots|
    ensures NoDuplicates(slots[..i] + slots[i + 1..])
    ensures Null !in slots ==> Null !in slots[..i] + slots[i + 1..]
  {
    var r := slots[..i] + slots[i + 1..];
    assert forall k :: 0 <= k < |r| ==> r[k] == slots[if k < i then k else k + 1];
  }

  lemma InvAfterRemove<I>(s: State<I>, o: Observer)
    requires Inv(s)
    ensures Inv(Remove(s, o))
  {
    var i := Find(s.slots, To(o));
    if i < |s.slots| {
      EraseKeepsUnique(s.slots, i);
    }
  }

  lemma InvAfterEnd<I>(s: State<I>, id: I)
    requires Inv(s)
    ensures Inv(EndIter(s, id))
  {
    if id in s.live && s.live.Keys == {id} {
      CompactedNoDuplicates(s.slots);
      CompactedIsContents(s.slots);
    } else if id in s.live {
      var other :| other in s.live && other != id;
      assert other in EndIter(s, id).live;
    }
  }

  /** Every operation keeps the invariant: no observer twice, marked slots only while
      an iterator is live, every live iterator within its clamped maximum. */
  lemma InvPreserved<I>(s: State<I>, op: Op<I>)
    requires Inv(s) && Proper(s, op)
    ensures Inv(Apply(s, op))
  {
    match op
    case OpRemove(o) => InvAfterRemove(s, o);
    case OpEnd(id) => InvAfterEnd(s, id);
    case OpAssign(dst, src) => InvAfterEnd(s, dst);
    case OpAdd(o) =>
    case OpClear =>
    case OpBegin(id) =>
    case OpAdvance(id) =>
    case OpCopy(src, dst) =>
    case OpDestroy =>
  }

  lemma {:induction false} InvOverRun<I>(s: State<I>, ops: seq<Op<I>>)
    requires Inv(s) && ProperRun(s, ops)
    ensures Inv(Run(s, ops))
    decreases |ops|
  {
    if ops != [] {
      InvPreserved(s, ops[0]);
      InvOverRun(Apply(s, ops[0]), ops[1..]);
    }
  }

  // ----------------------------------------------------------- refinement

  /** `c` without `o`. */
  function Without(c: seq<Observer>, o: Observer): seq<Observer>
  {
    if c == [] then []
    else
      var n := |c| - 1;
      Without(c[..n], o) + if c[n] == o then [] else [c[n]]
  }

  /** The same operations on a plain sequence; the iterators do not exist here. */
  function AbstractApply<I>(c: seq<Observer>, op: Op<I>): seq<Observer> {
    match op
    case OpAdd(o) => if o in c then c else c + [o]
    case OpRemove(o) => Without(c, o)
    case OpClear => []
    case OpDestroy => []
    case _ => c
  }

  function AbstractRun<I>(c: seq<Observer>, ops: seq<Op<I>>): seq<Observer>
    decreases |ops|
  {
    if ops == [] then c else AbstractRun(AbstractApply(c, ops[0]), ops[1..])
  }

  lemma {:induction false} WithoutAbsent(c: seq<Observer>, o: Observer)
    requires o !in c
    ensures Without(c, o) == c
  {
    if c != [] {
      WithoutAbsent(c[..|c| - 1], o);
    }
  }

  lemma {:induction false} WithoutAppend(a: seq<Observer>, b: seq<Observer>, o: Observer)
    ensures Without(a + b, o) == Without(a, o) + Without(b, o)
  {
    if b == [] {
      assert a + b == a;
    } else {
      assert (a + b)[..|a + b| - 1] == a + b[..|b| - 1];
      WithoutAppend(a, b[..|b| - 1], o);
    }
  }

  lemma ContentsAround(a: seq<Pointer>, p: Pointer, b: seq<Pointer>)
    ensures Contents(a + [p] + b) == Contents(a) + (if p.To? then [p.obs] else []) + Contents(b)
  {
    ContentsAppend(a + [p], b);
    assert (a + [p])[..|a|] == a;
  }

  lemma WithoutLast(a: seq<Observer>, o: Observer)
    ensures Without(a + [o], o) == Without(a, o)
  {
    assert (a + [o])[..|a|] == a;
  }

  lemma WithoutAround(a: seq<Observer>, o: Observer, b: seq<Observer>)
    requires o !in a && o !in b
    ensures Without(a + [o] + b, o) == a + b
  {
    hide Without;
    WithoutAppend(a + [o], b, o);
    WithoutLast(a, o);
    WithoutAbsent(a, o);
    WithoutAbsent(b, o);
  }

  /** Erasing or marking the one slot that holds `o` both delete `o` from the contents. */
  lemma RemoveDeletes(slots: seq<Pointer>, i: nat)
    requires NoDuplicates(slots) && i < |slots| && slots[i].To?
    ensures Contents(slots[..i] + slots[i + 1..]) == Without(Contents(slots), slots[i].obs)
    ensures Contents(slots[i := Null]) == Without(Contents(slots), slots[i].obs)
  {
    hide Without, Contents;
    var o := slots[i].obs;
    var a, b := slots[..i], slots[i + 1..];
    ContentsMember(a, o);
    ContentsMember(b, o);
    WithoutAround(Contents(a), o, Contents(b));
    assert slots == a + [slots[i]] + b;
    ContentsAround(a, slots[i], b);
    assert slots[i := Null] == a + [Null] + b;
    ContentsAround(a, Null, b);
    ContentsAppend(a, b);
  }

  /** The list refines the plain sequence, whether or not iterators are live: adding
      appends, removing deletes, and everything iterators do is invisible. */
  lemma Refines<I>(s: State<I>, op: Op<I>)
    requires Inv(s) && Proper(s, op)
    ensures Contents(Apply(s, op).slots) == AbstractApply(Contents(s.slots), op)
  {
    match op
    case OpAdd(o) =>
      ContentsMember(s.slots, o);
      ContentsAround(s.slots, To(o), []);
      assert s.slots + [To(o)] + [] == s.slots + [To(o)];
    case OpRemove(o) => RefinesRemove(s, o);
    case OpClear => ContentsNulls(Clear(s).slots);
    case OpEnd(id) => CompactedIsContents(s.slots);
    case OpAssign(dst, src) => CompactedIsContents(s.slots);
    case OpBegin(id) =>
    case OpAdvance(id) =>
    case OpCopy(src, dst) =>
    case OpDestroy =>
  }

  lemma RefinesRemove<I>(s: State<I>, o: Observer)
    requires Inv(s)
    ensures Contents(Remove(s, o).slots) == Without(Contents(s.slots), o)
  {
    var i := Find(s.slots, To(o));
    if i < |s.slots| {
      RemoveDeletes(s.slots, i);
    } else {
      ContentsMember(s.slots, o);
      WithoutAbsent(Contents(s.slots), o);
    }
  }

  /** Over every history: the contents are those of the plain sequence after the same
      history, HasObserver is membership in it, nothing occurs twice, and when no
      iterator is live the vector holds exactly the contents. */
  lemma {:induction false} HistoryRefines<I>(s: State<I>, ops: seq<Op<I>>)
    requires Inv(s) && ProperRun(s, ops)
    ensures Inv(Run(s, ops))
    ensures Contents(Run(s, ops).slots) == AbstractRun(Contents(s.slots), ops)
    ensures forall o :: To(o) in Run(s, ops).slots <==> o in AbstractRun(Contents(s.slots), ops)
    ensures Run(s, ops).live == map[] ==> Compacted(Run(s, ops).slots) == Run(s, ops).slots
    decreases |ops|
  {
    if ops != [] {
      InvPreserved(s, ops[0]);
      Refines(s, ops[0]);
      HistoryRefines(Apply(s, ops[0]), ops[1..]);
    } else {
      forall o ensures To(o) in s.slots <==> o in Contents(s.slots) { ContentsMember(s.slots, o); }
      if s.live == map[] { CompactedFixed(s.slots); }
    }
  }

  /** A new list starts in the invariant with nothing in it. */
  lemma InitOk<I>(policy: Policy, ops: seq<Op<I>>)
    requires ProperRun(Init<I>(policy), ops)
    ensures Inv(Run(Init<I>(policy), ops))
    ensures Contents(Run(Init<I>(policy), ops).slots) == AbstractRun([], ops)
  {
    HistoryRefines(Init<I>(policy), ops);
  }

  // ---------------------------------------------- what a live iterator sees

  /** `t` is `s` with some slots marked and some appended, seen by a live iterator. */
  ghost predicate Grew(s: seq<Pointer>, t: seq<Pointer>) {
    && |s| <= |t|
    && forall p :: 0 <= p < |s| ==> t[p] == s[p] || t[p] == Null
  }

  /** Everything except moving, ending or overwriting the iterator `id` itself. */
  predicate Foreign<I(==)>(op: Op<I>, id: I) {
    match op
    case OpBegin(x) => x != id
    case OpAdvance(x) => x != id
    case OpEnd(x) => x != id
    case OpCopy(_, dst) => dst != id
    case OpAssign(dst, _) => dst != id
    case _ => true
  }

  predicate ForeignRun<I(==)>(s: State<I>, ops: seq<Op<I>>, id: I) {
    ProperRun(s, ops) && forall i :: 0 <= i < |ops| ==> Foreign(ops[i], id)
  }

  /** While an iterator is live the vector never shrinks, an old slot keeps its value
      or becomes marked, and no other call moves the iterator; only destroying the list
      unlinks it, and then it stands at the end. */
  lemma {:induction false} LiveIteratorStable<I>(s: State<I>, ops: seq<Op<I>>, id: I)
    requires Inv(s) && id in s.live && ForeignRun(s, ops, id)
    ensures var t := Run(s, ops);
            if id in t.live
            then Grew(s.slots, t.slots) && t.live[id] == s.live[id]
            else !t.alive && IsEnd(t, id)
    decreases |ops|
  {
    if ops != [] {
      var t := Apply(s, ops[0]);
      InvPreserved(s, ops[0]);
      assert forall i :: 0 <= i < |ops[1..]| ==> Foreign(ops[1..][i], id);
      if id in t.live {
        assert Foreign(ops[0], id);
        assert Grew(s.slots, t.slots) && t.live[id] == s.live[id];
        LiveIteratorStable(t, ops[1..], id);
      } else {
        assert Foreign(ops[0], id);
        assert ops[0] == OpDestroy;
        DeadStaysDead(t, ops[1..], id);
      }
    }
  }

  /** After the list is destroyed every iterator equals end() and every step of it,
      or of any other iterator, changes nothing. */
  lemma {:induction false} DeadStaysDead<I>(s: State<I>, ops: seq<Op<I>>, id: I)
    requires !s.alive && s.live == map[] && ProperRun(s, ops)
    ensures Run(s, ops) == s && IsEnd(Run(s, ops), id)
    decreases |ops|
  {
    if ops != [] {
      DeadStaysDead(Apply(s, ops[0]), ops[1..], id);
    }
  }

  /** A step keeps an iterator within its clamped maximum exactly when the iterator was
      not at the end: stepping at the end leaves it past the end, where is_end() is
      false and the index names no slot it may visit. */
  lemma StepWithinIffNotAtEnd<I>(s: State<I>, id: I)
    requires Inv(s) && id in s.live
    ensures Inv(Advance(s, id)) <==> !IsEnd(s, id)
    ensures IsEnd(s, id) ==> !IsEnd(Advance(s, id), id)
  {
    var t := Advance(s, id);
    assert id in t.live;
    if !IsEnd(s, id) {
      InvPreserved(s, OpAdvance(id));
    }
  }

  // ----------------------------------------------------------------- a pass

  /** One round of `for (auto& o : list) o.Notify()`: at `t` the cursor is not at the
      end, `body` is everything the notified observer makes happen before it returns,
      and `u` is the state at the next test against end(). */
  ghost predicate Round<I>(t: State<I>, id: I, body: seq<Op<I>>, u: State<I>) {
    !IsEnd(t, id) && ForeignRun(t, body, id) && u == Advance(Run(t, body), id)
  }

  /** A pass of a new iterator `id` over the list `s`; `tests` are the states at its tests
      against end().  The last one may or may not be at the end. */
  ghost predicate Pass<I>(s: State<I>, id: I, bodies: seq<seq<Op<I>>>, tests: seq<State<I>>) {
    && Inv(s) && s.alive && id !in s.live
    && |tests| == |bodies| + 1 && tests[0] == Begin(s, id)
    && forall k :: 0 <= k < |bodies| ==> Round(tests[k], id, bodies[k], tests[k + 1])
  }

  ghost predicate Complete<I>(s: State<I>, id: I, bodies: seq<seq<Op<I>>>, tests: seq<State<I>>) {
    Pass(s, id, bodies, tests) && IsEnd(tests[|bodies|], id)
  }

  /** The position the notification sent at test `t` goes to, and who is there. */
  function Position<I(==)>(t: State<I>, id: I): nat
    requires id in t.live
  {
    t.live[id].index
  }

  function Notified<I(==)>(t: State<I>, id: I): Pointer {
    if id in t.live && t.live[id].index < |t.slots| then t.slots[t.live[id].index] else Null
  }

  function Max<I(==)>(t: State<I>, id: I): nat
    requires id in t.live
  {
    ClampedMax(t.slots, t.live[id].limit)
  }

  /** A cursor that went from its place in `t` to its place in `u` jumped only over slots
      that are marked in `u`. */
  ghost predicate Forward<I>(t: State<I>, u: State<I>, id: I)
    requires id in t.live && id in u.live
  {
    && Grew(t.slots, u.slots) && u.live[id].limit == t.live[id].limit
    && Position(t, id) < Position(u, id) <= Max(u, id)
    && forall p :: Position(t, id) < p < Position(u, id) ==> u.slots[p] == Null
  }

  /** What the tests of a pass look like to its own cursor. */
  ghost predicate Trail<I>(id: I, tests: seq<State<I>>) {
    && |tests| > 0
    && (forall k :: 0 <= k < |tests| ==> Inv(tests[k]))
    && (forall k :: 0 <= k < |tests| - 1 ==>
          id in tests[k].live && Position(tests[k], id) < Max(tests[k], id) && Notified(tests[k], id).To?)
    && (forall k :: 0 < k < |tests| && id in tests[k].live ==> Forward(tests[k - 1], tests[k], id))
    && (id in tests[0].live ==> forall p :: 0 <= p < Position(tests[0], id) ==> tests[0].slots[p] == Null)
  }

  lemma RoundKeeps<I>(t: State<I>, id: I, body: seq<Op<I>>, u: State<I>)
    requires Inv(t) && Round(t, id, body, u)
    ensures Inv(u)
    ensures id in u.live ==> Forward(t, u, id)
    ensures id in u.live && !IsEnd(u, id) ==> Notified(u, id).To?
  {
    LiveIteratorStable(t, body, id);
    InvOverRun(t, body);
    InvPreserved(Run(t, body), OpAdvance(id));
  }

  /** Every pass leaves such a trail, whatever the notified code does. */
  lemma {:induction false} PassLeavesTrail<I>(s: State<I>, id: I, bodies: seq<seq<Op<I>>>, tests: seq<State<I>>)
    requires Pass(s, id, bodies, tests)
    ensures Trail(id, tests)
    ensures !IsEnd(tests[|bodies|], id) ==> Notified(tests[|bodies|], id).To?
    decreases |bodies|
  {
    var n := |bodies|;
    if n == 0 {
      InvPreserved(s, OpBegin(id));
    } else {
      var before := tests[..n];
      forall k | 0 <= k < n - 1
        ensures Round(before[k], id, bodies[..n - 1][k], before[k + 1])
      {
        assert Round(tests[k], id, bodies[k], tests[k + 1]);
      }
      PassLeavesTrail(s, id, bodies[..n - 1], before);
      assert before[n - 1] == tests[n - 1];
      RoundKeeps(tests[n - 1], id, bodies[n - 1], tests[n]);
      TrailExtends(id, before, tests[n]);
      assert tests == before + [tests[n]];
    }
  }

  lemma TrailExtends<I>(id: I, before: seq<State<I>>, u: State<I>)
    requires Trail(id, before) && Inv(u)
    requires var t := before[|before| - 1];
             && id in t.live && Position(t, id) < Max(t, id) && Notified(t, id).To?
             && (id in u.live ==> Forward(t, u, id))
    ensures Trail(id, before + [u])
  {
  }

  /** Between two tests the slots only grew and the cursor only advanced. */
  lemma {:induction false} TrailOrder<I>(id: I, tests: seq<State<I>>, j: nat, k: nat)
    requires Trail(id, tests) && j <= k < |tests| && id in tests[k].live
    ensures id in tests[j].live
    ensures Grew(tests[j].slots, tests[k].slots)
    ensures Position(tests[j], id) + (k - j) <= Position(tests[k], id)
    ensures tests[j].live[id].limit == tests[k].live[id].limit
    decreases k
  {
    if j < k {
      TrailOrder(id, tests, j, k - 1);
      assert Forward(tests[k - 1], tests[k], id);
    }
  }

  /** The notification of test `k` goes to position `p`. */
  ghost predicate VisitedAt<I>(id: I, tests: seq<State<I>>, k: nat, p: nat)
    requires k < |tests|
  {
    id in tests[k].live && Position(tests[k], id) == p
  }

  /** The cursor jumped over position `p` on its way to test `k`, because the slot was
      marked at that moment. */
  ghost predicate PassedOver<I>(id: I, tests: seq<State<I>>, k: nat, p: nat)
    requires k < |tests|
  {
    && id in tests[k].live && p < Position(tests[k], id)
    && (k > 0 ==> id in tests[k - 1].live && Position(tests[k - 1], id) < p)
    && p < |tests[k].slots| && tests[k].slots[p] == Null
  }

  /** Every position behind the cursor was notified, or was marked when its turn came. */
  lemma {:induction false} Covered<I>(id: I, tests: seq<State<I>>, k: nat, p: nat)
    requires Trail(id, tests) && k < |tests| && id in tests[k].live && p < Position(tests[k], id)
    ensures (exists j :: 0 <= j < k && VisitedAt(id, tests, j, p)) ||
            (exists j :: 0 <= j <= k && PassedOver(id, tests, j, p))
    decreases k
  {
    if k == 0 {
      assert CursorOk(tests[0].policy, tests[0].slots, tests[0].live[id]);
      assert PassedOver(id, tests, 0, p);
    } else {
      assert Forward(tests[k - 1], tests[k], id);
      if p < Position(tests[k - 1], id) {
        Covered(id, tests, k - 1, p);
      } else if p == Position(tests[k - 1], id) {
        assert VisitedAt(id, tests, k - 1, p);
      } else {
        assert PassedOver(id, tests, k, p);
      }
    }
  }

  /** A complete pass over a list that still exists: each position below the clamped
      maximum is notified if and only if its slot was not marked when its turn came, and
      no position is notified twice. */
  lemma CompletePass<I>(s: State<I>, id: I, bodies: seq<seq<Op<I>>>, tests: seq<State<I>>, p: nat)
    requires Complete(s, id, bodies, tests) && id in tests[|bodies|].live
    requires p < Max(tests[|bodies|], id)
    ensures (exists k :: 0 <= k < |bodies| && VisitedAt(id, tests, k, p)) <==>
            !(exists j :: 0 <= j <= |bodies| && PassedOver(id, tests, j, p))
    ensures forall j, k :: 0 <= j < k < |bodies| ==> VisitedAt(id, tests, j, p) ==> !VisitedAt(id, tests, k, p)
  {
    PassLeavesTrail(s, id, bodies, tests);
    Covered(id, tests, |bodies|, p);
    forall k, j | 0 <= k < |bodies| && 0 <= j <= |bodies| && VisitedAt(id, tests, k, p)
      ensures !PassedOver(id, tests, j, p)
    {
      if PassedOver(id, tests, j, p) {
        if j <= k { TrailOrder(id, tests, j, k); } else { TrailOrder(id, tests, k, j - 1); }
      }
    }
    forall j, k | 0 <= j < k < |bodies| && VisitedAt(id, tests, j, p)
      ensures !VisitedAt(id, tests, k, p)
    {
      TrailOrder(id, tests, j, k);
    }
  }

  /** Notifications go to unmarked slots at strictly increasing positions, and a position
      found marked at some test is never notified from then on. */
  lemma VisitsIncreaseAndSkipRemoved<I>(s: State<I>, id: I, bodies: seq<seq<Op<I>>>, tests: seq<State<I>>, j: nat, k: nat)
    requires Pass(s, id, bodies, tests) && j < k < |bodies|
    ensures Notified(tests[j], id).To? && Notified(tests[k], id).To?
    ensures Position(tests[j], id) < Position(tests[k], id)
    ensures forall p :: 0 <= p < |tests[j].slots| && tests[j].slots[p] == Null ==> !VisitedAt(id, tests, k, p)
  {
    PassLeavesTrail(s, id, bodies, tests);
    TrailOrder(id, tests, j, k);
  }

  // --------------------------------------------------- what observers see

  predicate Removes<I(==)>(op: Op<I>, o: Observer) {
    op == OpRemove(o) || op == OpClear || op == OpDestroy
  }

  predicate Spares<I(==)>(ops: seq<Op<I>>, o: Observer) {
    forall i :: 0 <= i < |ops| ==> !Removes(ops[i], o)
  }

  /** Calls that do not remove `o` leave it in its slot while an iterator is live. */
  lemma {:induction false} SparedStays<I>(s: State<I>, ops: seq<Op<I>>, id: I, p: nat, o: Observer)
    requires Inv(s) && id in s.live && ForeignRun(s, ops, id) && Spares(ops, o)
    requires p < |s.slots| && s.slots[p] == To(o)
    ensures id in Run(s, ops).live
    ensures p < |Run(s, ops).slots| && Run(s, ops).slots[p] == To(o)
    decreases |ops|
  {
    if ops != [] {
      var t := Apply(s, ops[0]);
      InvPreserved(s, ops[0]);
      assert Foreign(ops[0], id) && !Removes(ops[0], o);
      assert id in t.live && p < |t.slots| && t.slots[p] == To(o);
      SparedStays(t, ops[1..], id, p, o);
    }
  }

  /** While an iterator is live and is not stepped, the slot of an observer, such as the one
      it stands at, keeps the observer exactly as long as nobody removes it; otherwise the
      slot is marked. */
  lemma {:induction false} KeptIffSpared<I>(s: State<I>, ops: seq<Op<I>>, id: I, p: nat, o: Observer)
    requires Inv(s) && id in s.live && ForeignRun(s, ops, id) && id in Run(s, ops).live
    requires p < |s.slots| && s.slots[p] == To(o)
    ensures p < |Run(s, ops).slots|
    ensures Run(s, ops).slots[p] == if Spares(ops, o) then To(o) else Null
    decreases |ops|
  {
    hide Inv;
    if Spares(ops, o) {
      SparedStays(s, ops, id, p, o);
    } else {
      var t := Apply(s, ops[0]);
      InvPreserved(s, ops[0]);
      assert Foreign(ops[0], id) && forall i :: 0 <= i < |ops[1..]| ==> Foreign(ops[1..][i], id);
      if Removes(ops[0], o) {
        RemovedIsMarked(s, ops[0], ops[1..], id, p, o);
        LiveIteratorStable(t, ops[1..], id);
      } else {
        assert Spares([ops[0]], o) && [ops[0]][1..] == [] && Run(t, []) == t;
        assert ProperRun(s, [ops[0]]);
        SparedStays(s, [ops[0]], id, p, o);
        assert !Spares(ops[1..], o) by {
          var i :| 0 <= i < |ops| && Removes(ops[i], o);
          assert ops[1..][i - 1] == ops[i];
        }
        KeptIffSpared(t, ops[1..], id, p, o);
      }
    }
  }

  lemma RemovedIsMarked<I>(s: State<I>, op: Op<I>, rest: seq<Op<I>>, id: I, p: nat, o: Observer)
    requires Inv(s) && id in s.live && Removes(op, o) && Proper(s, op) && ForeignRun(Apply(s, op), rest, id)
    requires p < |s.slots| && s.slots[p] == To(o) && id in Run(Apply(s, op), rest).live
    ensures var t := Apply(s, op); id in t.live && p < |t.slots| && t.slots[p] == Null
  {
    if op == OpDestroy {
      DeadStaysDead(Apply(s, op), rest, id);
    }
  }

  /** An iterator that is not at the end can stand at a marked slot: the observer it stands
      at was removed after the last step. */
  lemma CurrentCanBeMarked()
    ensures var s := Run(Init<nat>(All), [OpAdd(7), OpBegin(0), OpRemove(7)]);
      Inv(s) && !IsEnd(s, 0) && s.slots[s.live[0].index] == Null
  {
    var s0 := Init<nat>(All);
    var s1, ops1 := Apply(s0, OpAdd(7)), [OpBegin(0), OpRemove(7)];
    var s2, ops2 := Apply(s1, OpBegin(0)), [OpRemove(7)];
    var s3 := Apply(s2, OpRemove(7));
    var ops: seq<Op<nat>> := [OpAdd(7), OpBegin(0), OpRemove(7)];
    assert ops[1..] == ops1 && ops1[1..] == ops2 && ops2[1..] == [];
    assert s1.slots == [To(7)] && s2.live == map[0 := Cursor(0, Unlimited)];
    assert 0 in s2.live && s2.live != map[];
    assert Find(s2.slots, To(7)) == 0;
    assert s3.slots == s2.slots[0 := Null] == [Null];
    assert Run(s3, []) == s3 && Run(s2, ops2) == s3 && Run(s1, ops1) == s3;
  }

  /** A complete pass that spares the observer at `p` until its turn notifies it there. */
  lemma {:induction false} ReachesPosition<I>(id: I, bodies: seq<seq<Op<I>>>, tests: seq<State<I>>, k: nat, p: nat, o: Observer)
      returns (n: nat)
    requires Trail(id, tests) && |tests| == |bodies| + 1 && IsEnd(tests[|bodies|], id)
    requires forall j :: 0 <= j < |bodies| ==> Round(tests[j], id, bodies[j], tests[j + 1])
    requires k <= |bodies| && id in tests[k].live && Position(tests[k], id) <= p < Max(tests[k], id)
    requires tests[k].slots[p] == To(o)
    requires forall j :: k <= j < |bodies| && Position(tests[j], id) < p ==> Spares(bodies[j], o)
    ensures k <= n < |bodies| && VisitedAt(id, tests, n, p) && Notified(tests[n], id) == To(o)
    decreases |bodies| - k
  {
    if Position(tests[k], id) == p {
      n := k;
    } else {
      assert Round(tests[k], id, bodies[k], tests[k + 1]);
      SparedStays(tests[k], bodies[k], id, p, o);
      assert Forward(tests[k], tests[k + 1], id);
      n := ReachesPosition(id, bodies, tests, k + 1, p, o);
    }
  }

  /** An observer in the list when the pass begins, and not removed before its turn, is
      notified at its own position. */
  lemma PresentIsVisited<I>(s: State<I>, id: I, bodies: seq<seq<Op<I>>>, tests: seq<State<I>>, p: nat, o: Observer)
      returns (n: nat)
    requires Complete(s, id, bodies, tests) && p < |s.slots| && s.slots[p] == To(o)
    requires forall j :: 0 <= j < |bodies| && id in tests[j].live && Position(tests[j], id) < p ==> Spares(bodies[j], o)
    ensures n < |bodies| && VisitedAt(id, tests, n, p) && Notified(tests[n], id) == To(o)
  {
    PassLeavesTrail(s, id, bodies, tests);
    n := ReachesPosition(id, bodies, tests, 0, p, o);
  }

  lemma {:induction false} StaysAtPosition<I>(id: I, bodies: seq<seq<Op<I>>>, tests: seq<State<I>>, k: nat, p: nat, o: Observer)
    requires Trail(id, tests) && |tests| == |bodies| + 1 && k < |bodies|
    requires forall j :: 0 <= j < |bodies| ==> Round(tests[j], id, bodies[j], tests[j + 1]) && Spares(bodies[j], o)
    requires p < |tests[0].slots| && tests[0].slots[p] == To(o)
    ensures p < |tests[k].slots| && tests[k].slots[p] == To(o)
  {
    if k > 0 {
      StaysAtPosition(id, bodies, tests, k - 1, p, o);
      assert Round(tests[k - 1], id, bodies[k - 1], tests[k]);
      SparedStays(tests[k - 1], bodies[k - 1], id, p, o);
    }
  }

  /** An observer that no notified code removes is notified exactly once. */
  lemma PresentVisitedExactlyOnce<I>(s: State<I>, id: I, bodies: seq<seq<Op<I>>>, tests: seq<State<I>>, p: nat, o: Observer)
      returns (n: nat)
    requires Complete(s, id, bodies, tests) && p < |s.slots| && s.slots[p] == To(o)
    requires forall j :: 0 <= j < |bodies| ==> Spares(bodies[j], o)
    ensures n < |bodies| && VisitedAt(id, tests, n, p)
    ensures forall k :: 0 <= k < |bodies| ==> (Notified(tests[k], id) == To(o) <==> k == n)
  {
    PassLeavesTrail(s, id, bodies, tests);
    n := ReachesPosition(id, bodies, tests, 0, p, o);
    forall k | 0 <= k < |bodies| && k != n
      ensures Notified(tests[k], id) != To(o)
    {
      StaysAtPosition(id, bodies, tests, k, p, o);
      if k < n { TrailOrder(id, tests, k, n); } else { TrailOrder(id, tests, n, k); }
      assert NoDuplicates(tests[k].slots);
    }
  }

  /** EXISTING_ONLY: no position at or past the initial size is notified, so a pass makes
      at most that many notifications whatever the notified code adds. */
  lemma ExistingOnlyBound<I>(s: State<I>, id: I, bodies: seq<seq<Op<I>>>, tests: seq<State<I>>)
    requires Pass(s, id, bodies, tests) && s.policy == ExistingOnly
    ensures forall k :: 0 <= k < |bodies| ==> id in tests[k].live && Position(tests[k], id) < |s.slots|
    ensures |bodies| <= |s.slots|
  {
    PassLeavesTrail(s, id, bodies, tests);
    forall k | 0 <= k < |bodies|
      ensures id in tests[k].live && k <= Position(tests[k], id) < |s.slots|
    {
      TrailOrder(id, tests, 0, k);
    }
    if |bodies| > 0 {
      assert |bodies| - 1 <= Position(tests[|bodies| - 1], id) < |s.slots|;
    }
  }

  /** ALL: when a pass ends, every observer still in the list, whenever it was added, has
      been notified by it. */
  lemma AllVisitsLateAdditions<I>(s: State<I>, id: I, bodies: seq<seq<Op<I>>>, tests: seq<State<I>>, o: Observer)
    requires Complete(s, id, bodies, tests) && s.policy == All
    requires id in tests[|bodies|].live && To(o) in tests[|bodies|].slots
    ensures exists k :: 0 <= k < |bodies| && Notified(tests[k], id) == To(o)
  {
    var n := |bodies|;
    PassLeavesTrail(s, id, bodies, tests);
    TrailOrder(id, tests, 0, n);
    var p :| 0 <= p < |tests[n].slots| && tests[n].slots[p] == To(o);
    Covered(id, tests, n, p);
    if j :| 0 <= j < n && VisitedAt(id, tests, j, p) {
      TrailOrder(id, tests, j, n);
    } else {
      var j :| 0 <= j <= n && PassedOver(id, tests, j, p);
      TrailOrder(id, tests, j, n);
      assert false;
    }
  }

  // ------------------------------------------------------------------ copies

  /** Two iterators that compare equal and will go on doing so: both unlinked, or at one
      place with one maximum. */
  ghost predicate Together<I>(s: State<I>, a: I, b: I) {
    (a in s.live <==> b in s.live) && (a in s.live ==> s.live[a] == s.live[b])
  }

  /** The operation constructs, moves or ends iterator `id`. */
  predicate Touches<I(==)>(op: Op<I>, id: I) {
    match op
    case OpBegin(x) => x == id
    case OpAdvance(x) => x == id
    case OpEnd(x) => x == id
    case OpCopy(_, dst) => dst == id
    case OpAssign(dst, _) => dst == id
    case _ => false
  }

  /** A copied or assigned iterator is together with the one it was made from, which has not
      moved; the list is as before, unless the iterator assigned to was the last live one. */
  lemma CopyTogether<I>(s: State<I>, src: I, dst: I)
    requires Inv(s) && src != dst
    ensures dst !in s.live ==>
      var u := CopyIter(s, src, dst);
      Together(u, src, dst) && u.slots == s.slots && forall id :: id in s.live ==> id in u.live && u.live[id] == s.live[id]
    ensures var u := AssignIter(s, dst, src);
      Together(u, src, dst) && (src in s.live ==> src in u.live && u.live[src] == s.live[src] && u.slots == s.slots)
  {
  }

  /** Iterators that are together are both at the end or neither is; advancing both keeps them
      together, and so does everything that does not touch them. */
  lemma StayTogether<I>(s: State<I>, a: I, b: I, op: Op<I>)
    requires Inv(s) && Together(s, a, b) && a != b
    ensures IsEnd(s, a) == IsEnd(s, b)
    ensures Together(Advance(Advance(s, a), b), a, b)
    ensures Proper(s, op) && !Touches(op, a) && !Touches(op, b) ==> Together(Apply(s, op), a, b)
  {
  }
}
