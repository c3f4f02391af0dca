/** What a CallbackList keeps over every history, that it refines a plain list of
    subscriptions, and what one Notify runs when callbacks subscribe, unsubscribe and
    notify again. */
module CallbackListPass {
  import opened CallbackListSpec

  lemma EraseKeepsNumbers(nodes: seq<Node>, issued: nat, i: nat)
    requires Numbered(nodes, issued) && i < |nodes|
    ensures Numbered(nodes[..i] + nodes[i + 1..], issued)
    ensures AllLive(nodes) ==> AllLive(nodes[..i] + nodes[i + 1..])
  {
    var r := nodes[..i] + nodes[i + 1..];
    assert forall k :: 0 <= k < |r| ==> r[k] == nodes[if k < i then k else k + 1];
  }

  lemma InvAfterUnsubscribe<I>(s: State<I>, id: nat)
    requires Inv(s)
    ensures Inv(Unsubscribe(s, id))
  {
    var i := Find(s.nodes, id);
    if i < |s.nodes| {
      EraseKeepsNumbers(s.nodes, s.issued, i);
    }
  }

  lemma InvAfterEnd<I>(s: State<I>, it: I)
    requires Inv(s) && it in s.active
    ensures Inv(End(s, it))
  {
    CompactedNumbered(s.nodes, s.issued);
  }

  /** Every operation keeps the invariant. */
  lemma InvPreserved<I>(s: State<I>, op: Op<I>)
    requires Inv(s) && Proper(s, op)
    ensures Inv(Apply(s, op))
  {
    match op
    case OpUnsubscribe(id) => InvAfterUnsubscribe(s, id);
    case OpEnd(it) => InvAfterEnd(s, it);
    case OpAdd =>
    case OpBegin(it) =>
    case OpCopy(src, dst) =>
    case OpSetRemoval(_) =>
    case OpNext(it) =>
  }

  // ----------------------------------------------------------- refinement

  function Without(c: seq<nat>, id: nat): seq<nat> {
    if c == [] then []
    else Without(c[..|c| - 1], id) + if c[|c| - 1] == id then [] else [c[|c| - 1]]
  }

  /** The same operations on the plain list of subscriptions. */
  function AbstractApply<I>(c: seq<nat>, issued: nat, op: Op<I>): seq<nat> {
    match op
    case OpAdd => c + [issued]
    case OpUnsubscribe(id) => Without(c, id)
    case _ => c
  }

  lemma {:induction false} WithoutAppend(a: seq<nat>, b: seq<nat>, id: nat)
    ensures Without(a + b, id) == Without(a, id) + Without(b, id)
  {
    if b == [] {
      assert a + b == a;
    } else {
      assert (a + b)[..|a + b| - 1] == a + b[..|b| - 1];
      WithoutAppend(a, b[..|b| - 1], id);
    }
  }

  lemma WithoutLast(c: seq<nat>, id: nat, x: seq<nat>)
    requires |x| <= 1
    ensures Without(c + x, id) == Without(c, id) + if x != [] && x[0] != id then x else []
  {
    if x == [] {
      assert c + x == c;
    } else {
      assert (c + x)[..|c|] == c;
    }
  }

  lemma ContentsAround(a: seq<Node>, x: Node, b: seq<Node>)
    ensures Contents(a + [x] + b) == Contents(a) + (if x.live then [x.id] else []) + Contents(b)
  {
    ContentsAppend(a + [x], b);
    assert (a + [x])[..|a|] == a;
  }

  /** Erasing and resetting the one node of a subscription both delete it. */
  lemma WithoutFrom(nodes: seq<Node>, i: nat)
    requires i < |nodes|
    requires forall k, l :: 0 <= k < l < |nodes| ==> nodes[k].id < nodes[l].id
    ensures Contents(nodes[..i] + nodes[i + 1..]) == Without(Contents(nodes), nodes[i].id)
    ensures Contents(nodes[i := nodes[i].(live := false)]) == Without(Contents(nodes), nodes[i].id)
  {
    hide Contents, Without;
    var a, x, b := nodes[..i], nodes[i], nodes[i + 1..];
    var y := x.(live := false);
    assert nodes == a + [x] + b;
    assert nodes[i := y] == a + [y] + b;
    ContentsAround(a, x, b);
    ContentsAround(a, y, b);
    ContentsAppend(a, b);
    WithoutAbove(a, x.id);
    WithoutAbove(b, x.id);
    var mid := if x.live then [x.id] else [];
    WithoutAppend(Contents(a) + mid, Contents(b), x.id);
    WithoutLast(Contents(a), x.id, mid);
    assert Contents(a) + [] + Contents(b) == Contents(a) + Contents(b);
  }

  lemma {:induction false} WithoutAbove(nodes: seq<Node>, id: nat)
    requires forall a :: 0 <= a < |nodes| ==> nodes[a].id != id
    ensures Without(Contents(nodes), id) == Contents(nodes)
  {
    if nodes != [] {
      var n := |nodes| - 1;
      WithoutAbove(nodes[..n], id);
      WithoutLast(Contents(nodes[..n]), id, if nodes[n].live then [nodes[n].id] else []);
    }
  }

  /** The list refines the plain list of subscriptions, whether or not iterators are
      active: adding appends, destroying a subscription deletes it, and everything
      iterators do, compacting included, is invisible. */
  lemma Refines<I>(s: State<I>, op: Op<I>)
    requires Inv(s) && Proper(s, op)
    ensures Contents(Apply(s, op).nodes) == AbstractApply(Contents(s.nodes), s.issued, op)
  {
    hide Without;
    match op
    case OpAdd => assert (s.nodes + [Node(s.issued, true)])[..|s.nodes|] == s.nodes;
    case OpUnsubscribe(id) => WithoutFrom(s.nodes, Find(s.nodes, id));
    case OpEnd(it) => CompactedContents(s.nodes);
    case OpBegin(it) =>
    case OpCopy(src, dst) =>
    case OpSetRemoval(_) =>
    case OpNext(it) =>
  }

  /** The exit of the outermost iterator leaves no reset node, and runs the removal
      callback, once, exactly when there was one; no other exit does either. */
  lemma OutermostExit<I>(s: State<I>, it: I)
    requires Inv(s) && it in s.active
    ensures var t := End(s, it);
            if s.active.Keys == {it}
            then AllLive(t.nodes) && t.removals == s.removals + (if s.hasRemoval && !AllLive(s.nodes) then 1 else 0)
            else t.nodes == s.nodes && t.removals == s.removals
  {
    CompactedNumbered(s.nodes, s.issued);
    CompactedSame(s.nodes);
    if s.active.Keys == {it} {
      assert s.active - {it} == map[];
    } else {
      var other :| other in s.active && other != it;
      assert other in s.active - {it};
    }
  }

  // ------------------------------------------------------------- histories

  ghost predicate History<I>(hasRemoval: bool, ops: seq<Op<I>>, states: seq<State<I>>) {
    && |states| == |ops| + 1 && states[0] == Init(hasRemoval)
    && forall k :: 0 <= k < |ops| ==> Proper(states[k], ops[k]) && states[k + 1] == Apply(states[k], ops[k])
  }

  /** Over every history, nested passes and all: the invariant holds at each point, so
      nothing is reset while no iterator is active, and each call does to the plain list of
      subscriptions what the plain list does. */
  lemma {:induction false} HistoryRefines<I>(hasRemoval: bool, ops: seq<Op<I>>, states: seq<State<I>>, k: nat)
    requires History(hasRemoval, ops, states) && k <= |ops|
    ensures Inv(states[k])
    ensures k > 0 ==>
              Contents(states[k].nodes) == AbstractApply(Contents(states[k - 1].nodes), states[k - 1].issued, ops[k - 1])
  {
    if k > 0 {
      HistoryRefines(hasRemoval, ops, states, k - 1);
      InvPreserved(states[k - 1], ops[k - 1]);
      Refines(states[k - 1], ops[k - 1]);
    }
  }

  lemma {:induction false} CompactedShorter(nodes: seq<Node>)
    ensures |Compacted(nodes)| < |nodes| <==> !AllLive(nodes)
  {
    if nodes != [] {
      var n := |nodes| - 1;
      CompactedShorter(nodes[..n]);
      CompactedSame(nodes[..n]);
    }
  }

  /** The removal callback runs, once, in exactly the calls that make the list shorter:
      destroying a subscription outside of every pass, and the end of the outermost pass if
      a subscription was destroyed during it. */
  lemma RemovalsStep<I>(s: State<I>, op: Op<I>)
    requires Inv(s) && Proper(s, op)
    ensures var u := Apply(s, op);
      && u.removals == s.removals + (if s.hasRemoval && |u.nodes| < |s.nodes| then 1 else 0)
      && u.hasRemoval == (if op.OpSetRemoval? then op.has else s.hasRemoval)
      && (|u.nodes| < |s.nodes| <==>
            || (op.OpUnsubscribe? && s.active == map[])
            || (op.OpEnd? && s.active.Keys == {op.it} && !AllLive(s.nodes)))
  {
    if op.OpEnd? {
      OutermostExit(s, op.it);
      CompactedShorter(s.nodes);
      CompactedSame(s.nodes);
      var rest := s.active - {op.it};
      if rest == map[] {
        assert forall x :: x in s.active && x != op.it ==> x in rest;
      }
    }
  }

  /** The steps that made the list shorter while a removal callback was set. */
  ghost function Shortenings<I>(states: seq<State<I>>): nat {
    if |states| < 2 then 0
    else
      var n := |states| - 1;
      Shortenings(states[..n]) + if states[n - 1].hasRemoval && |states[n].nodes| < |states[n - 1].nodes| then 1 else 0
  }

  /** Over every history the removal callbacks have run as often as the list got shorter while
      one was set. */
  lemma {:induction false} RemovalsHistory<I>(hasRemoval: bool, ops: seq<Op<I>>, states: seq<State<I>>, k: nat)
    requires History(hasRemoval, ops, states) && k <= |ops|
    ensures states[k].removals == Shortenings(states[..k + 1])
  {
    hide Apply;
    if k > 0 {
      RemovalsHistory(hasRemoval, ops, states, k - 1);
      HistoryRefines(hasRemoval, ops, states, k - 1);
      hide Inv;
      RemovalsStep(states[k - 1], ops[k - 1]);
      assert states[..k + 1][..k] == states[..k];
    }
  }

  /** A copied iterator stands where the other one does, fetches the same callback next and
      moves to the same place; nothing else changes. */
  lemma CopyFetchesSame<I>(s: State<I>, src: I, dst: I)
    requires Inv(s) && Proper(s, OpCopy(src, dst))
    ensures var u := Apply(s, OpCopy(src, dst));
      && u.nodes == s.nodes && u.removals == s.removals && u.active.Keys == s.active.Keys + {dst}
      && (forall it :: it in s.active ==> u.active[it] == s.active[it])
      && u.active[src] == u.active[dst] && CursorOk(u.nodes, u.active[dst])
      && Fetched(u.nodes, u.active[src]) == Fetched(u.nodes, u.active[dst])
      && (var v := GetNext(GetNext(u, src), dst); v.active[src] == v.active[dst])
  {
  }

  ghost predicate Foreign<I>(op: Op<I>, it: I) {
    match op
    case OpAdd => true
    case OpUnsubscribe(_) => true
    case OpBegin(x) => x != it
    case OpCopy(_, dst) => dst != it
    case OpSetRemoval(_) => true
    case OpNext(x) => x != it
    case OpEnd(x) => x != it
  }

  /** `path` are the states from `s` on as `ops` happen, none of which touches `it`. */
  ghost predicate Path<I>(ops: seq<Op<I>>, path: seq<State<I>>, it: I) {
    && |path| == |ops| + 1
    && forall i :: 0 <= i < |ops| ==>
         Foreign(ops[i], it) && Proper(path[i], ops[i]) && path[i + 1] == Apply(path[i], ops[i])
  }

  ghost predicate Grew(a: seq<Node>, b: seq<Node>) {
    |a| <= |b| && forall p :: 0 <= p < |a| ==> b[p].id == a[p].id && (b[p].live ==> a[p].live)
  }

  lemma StepStable<I>(s: State<I>, op: Op<I>, it: I)
    requires Inv(s) && Proper(s, op) && it in s.active && Foreign(op, it)
    ensures var t := Apply(s, op);
            Inv(t) && it in t.active && t.active[it] == s.active[it] && Grew(s.nodes, t.nodes)
  {
    InvPreserved(s, op);
    if op.OpEnd? {
      assert it in s.active - {op.it};
    }
  }

  /** While an iterator is active nothing else moves it, no node is erased, and a node
      keeps its callback or is reset. */
  lemma {:induction false} ActiveStable<I>(ops: seq<Op<I>>, path: seq<State<I>>, it: I, k: nat)
    requires Path(ops, path, it) && k <= |ops| && Inv(path[0]) && it in path[0].active
    ensures Inv(path[k]) && it in path[k].active && path[k].active[it] == path[0].active[it]
    ensures Grew(path[0].nodes, path[k].nodes)
  {
    if k > 0 {
      ActiveStable(ops, path, it, k - 1);
      StepStable(path[k - 1], ops[k - 1], it);
    }
  }

  // ----------------------------------------------------------------- a pass

  /** The position of the callback that GetNext hands to the pass at `t`. */
  function Position<I(==)>(t: State<I>, it: I): nat {
    if it in t.active && t.active[it].passed <= |t.nodes| then Fetched(t.nodes, t.active[it]) else |t.nodes|
  }

  ghost predicate Ready<I>(t: State<I>, it: I) {
    Inv(t) && it in t.active && CursorOk(t.nodes, t.active[it])
  }

  /** One round of Notify: GetNext at `t` hands out a callback, and while it runs `ops`
      happen; `u` is the state at the next GetNext. */
  ghost predicate Round<I>(t: State<I>, it: I, ops: seq<Op<I>>, path: seq<State<I>>, u: State<I>) {
    && it in t.active && t.active[it].passed <= |t.nodes| && Position(t, it) < |t.nodes|
    && Path(ops, path, it) && path[0] == GetNext(t, it) && u == path[|ops|]
  }

  /** What one round does, seen by its own cursor. */
  ghost predicate Forward<I>(t: State<I>, u: State<I>, it: I)
    requires Ready(t, it) && Ready(u, it)
  {
    var j := Position(t, it);
    && !t.active[it].atEnd
    && j < |t.nodes| && t.nodes[j].live
    && u.active[it] == Cursor(j + 1, j + 1 == |t.nodes|)
    && Grew(t.nodes, u.nodes)
  }

  lemma RoundMoves<I>(t: State<I>, it: I, ops: seq<Op<I>>, path: seq<State<I>>, u: State<I>)
    requires Inv(t) && Round(t, it, ops, path, u)
    ensures Ready(t, it) && Ready(u, it) && Forward(t, u, it)
  {
    InvPreserved(t, OpNext(it));
    ActiveStable(ops, path, it, |ops|);
  }

  /** The states `tests` at the GetNext calls of one Notify. */
  ghost predicate Trail<I>(it: I, tests: seq<State<I>>) {
    && |tests| > 0
    && (forall k :: 0 <= k < |tests| ==> Ready(tests[k], it))
    && (forall k :: 0 < k < |tests| ==> Forward(tests[k - 1], tests[k], it))
    && tests[0].active[it] == Cursor(0, tests[0].nodes == [])
  }

  ghost predicate Pass<I>(s: State<I>, it: I, bodies: seq<seq<Op<I>>>, paths: seq<seq<State<I>>>, tests: seq<State<I>>) {
    && Inv(s) && it !in s.active
    && |paths| == |bodies| && |tests| == |bodies| + 1 && tests[0] == Begin(s, it)
    && forall k :: 0 <= k < |bodies| ==> Round(tests[k], it, bodies[k], paths[k], tests[k + 1])
  }

  /** Every Notify leaves a trail, whatever the callbacks do. */
  lemma {:induction false} PassLeavesTrail<I>(
    s: State<I>, it: I, bodies: seq<seq<Op<I>>>, paths: seq<seq<State<I>>>, tests: seq<State<I>>, n: nat)
    requires Pass(s, it, bodies, paths, tests) && n <= |bodies|
    ensures Trail(it, tests[..n + 1])
  {
    if n == 0 {
      InvPreserved(s, OpBegin(it));
    } else {
      PassLeavesTrail(s, it, bodies, paths, tests, n - 1);
      assert tests[..n][n - 1] == tests[n - 1];
      assert Round(tests[n - 1], it, bodies[n - 1], paths[n - 1], tests[n]);
      RoundMoves(tests[n - 1], it, bodies[n - 1], paths[n - 1], tests[n]);
      TrailExtends(it, tests[..n], tests[n]);
      assert tests[..n + 1] == tests[..n] + [tests[n]];
    }
  }

  lemma TrailExtends<I>(it: I, before: seq<State<I>>, u: State<I>)
    requires Trail(it, before) && Ready(u, it) && Forward(before[|before| - 1], u, it)
    ensures Trail(it, before + [u])
  {
    hide Ready, Forward;
  }

  /** Along a trail the list only grows and the cursor only advances. */
  lemma {:induction false} TrailOrder<I>(it: I, tests: seq<State<I>>, j: nat, k: nat)
    requires Trail(it, tests) && j <= k < |tests|
    ensures Grew(tests[j].nodes, tests[k].nodes)
    ensures tests[j].active[it].passed + (k - j) <= tests[k].active[it].passed
    ensures j < k ==> Position(tests[j], it) < tests[k].active[it].passed
    decreases k
  {
    if j < k {
      TrailOrder(it, tests, j, k - 1);
      assert Forward(tests[k - 1], tests[k], it);
    }
  }

  /** The k-th callback run by the pass is the one at position `p`. */
  ghost predicate RunAt<I>(it: I, tests: seq<State<I>>, k: nat, p: nat)
    requires Trail(it, tests) && k < |tests|
  {
    Position(tests[k], it) == p < |tests[k].nodes|
  }

  /** The k-th GetNext skipped position `p`, because its callback was reset by then. */
  ghost predicate Skipped<I>(it: I, tests: seq<State<I>>, k: nat, p: nat)
    requires Trail(it, tests) && k < |tests|
  {
    && !tests[k].active[it].atEnd
    && tests[k].active[it].passed <= p < Position(tests[k], it)
    && !tests[k].nodes[p].live
  }

  /** Every position the cursor has passed was run, or was reset when its turn came. */
  lemma {:induction false} Covered<I>(it: I, tests: seq<State<I>>, k: nat, p: nat)
    requires Trail(it, tests) && k < |tests| && p < tests[k].active[it].passed
    ensures (exists j :: 0 <= j < k && RunAt(it, tests, j, p)) || (exists j :: 0 <= j < k && Skipped(it, tests, j, p))
    decreases k
  {
    if k > 0 {
      assert Forward(tests[k - 1], tests[k], it);
      if p < tests[k - 1].active[it].passed {
        Covered(it, tests, k - 1, p);
      } else if p == Position(tests[k - 1], it) {
        assert RunAt(it, tests, k - 1, p);
      } else {
        assert Skipped(it, tests, k - 1, p);
      }
    }
  }

  /** The number of nodes there were when the cursor became end(), or are if it has not. */
  function Reach<I(==)>(t: State<I>, it: I): nat
    requires it in t.active
  {
    if t.active[it].atEnd then t.active[it].passed else |t.nodes|
  }

  /** A trail whose last GetNext hands out nothing. */
  ghost predicate Ended<I>(it: I, tests: seq<State<I>>) {
    Trail(it, tests) && Position(tests[|tests| - 1], it) == |tests[|tests| - 1].nodes|
  }

  /** A pass that has ended ran the callback at each position it reached if and only if it
      had not been reset when its turn came, never twice, and ran nothing beyond. */
  lemma EndedPass<I>(it: I, tests: seq<State<I>>, p: nat)
    requires Ended(it, tests)
    ensures var n := |tests| - 1;
            && ((exists k :: 0 <= k < n && RunAt(it, tests, k, p)) <==>
                p < Reach(tests[n], it) && !(exists j :: 0 <= j <= n && Skipped(it, tests, j, p)))
            && forall j, k :: 0 <= j < k < n && RunAt(it, tests, j, p) ==> !RunAt(it, tests, k, p)
  {
    var n := |tests| - 1;
    if p < tests[n].active[it].passed {
      Covered(it, tests, n, p);
    } else if p < Reach(tests[n], it) {
      assert Skipped(it, tests, n, p);
    }
    forall k | 0 <= k < n && RunAt(it, tests, k, p)
      ensures p < Reach(tests[n], it)
      ensures forall j :: 0 <= j <= n ==> !Skipped(it, tests, j, p)
    {
      TrailOrder(it, tests, k, n);
      assert Forward(tests[k], tests[k + 1], it);
      forall j | 0 <= j <= n ensures !Skipped(it, tests, j, p) {
        if j < k { TrailOrder(it, tests, j, k); } else if k < j { TrailOrder(it, tests, k, j); }
      }
    }
    forall j, k | 0 <= j < k < n && RunAt(it, tests, j, p)
      ensures !RunAt(it, tests, k, p)
    {
      TrailOrder(it, tests, j, k);
    }
  }

  /** What the pass reaches: at least every node present when it began, and every node
      added while its cursor was not end(). */
  lemma ReachCovers<I>(it: I, tests: seq<State<I>>, k: nat)
    requires Ended(it, tests) && k < |tests| && (!tests[k].active[it].atEnd || k == 0)
    ensures |tests[k].nodes| <= Reach(tests[|tests| - 1], it)
  {
    var n := |tests| - 1;
    TrailOrder(it, tests, k, n);
    if k < n && tests[n].active[it].atEnd {
      assert Forward(tests[n - 1], tests[n], it);
      TrailOrder(it, tests, k, n - 1);
    }
  }

  /** A callback present when Notify begins is run if and only if it is still subscribed at
      its turn. */
  lemma PresentRuns<I>(it: I, tests: seq<State<I>>, p: nat)
    requires Ended(it, tests) && p < |tests[0].nodes|
    ensures (exists k :: 0 <= k < |tests| - 1 && RunAt(it, tests, k, p)) <==>
            !(exists j :: 0 <= j < |tests| && Skipped(it, tests, j, p))
  {
    ReachCovers(it, tests, 0);
    EndedPass(it, tests, p);
  }

  /** A callback added while the k-th one runs is run by this pass if and only if the
      cursor was not end() at that time and the callback is still subscribed at its turn. */
  lemma AddedRuns<I>(it: I, tests: seq<State<I>>, k: nat, p: nat)
    requires Ended(it, tests) && k < |tests| - 1 && |tests[k].nodes| <= p < |tests[k + 1].nodes|
    ensures (exists m :: 0 <= m < |tests| - 1 && RunAt(it, tests, m, p)) <==>
            !tests[k + 1].active[it].atEnd && !(exists j :: 0 <= j < |tests| && Skipped(it, tests, j, p))
  {
    EndedPass(it, tests, p);
    if tests[k + 1].active[it].atEnd {
      assert Forward(tests[k], tests[k + 1], it);
      if k + 2 < |tests| {
        assert Forward(tests[k + 1], tests[k + 2], it);
      }
    } else {
      ReachCovers(it, tests, k + 1);
    }
  }

  /** Callbacks run in list order, and one that has been reset is never run from then on. */
  lemma RunsInOrder<I>(it: I, tests: seq<State<I>>, j: nat, k: nat)
    requires Trail(it, tests) && j < k < |tests| - 1
    ensures Position(tests[j], it) < Position(tests[k], it) < |tests[k].nodes|
    ensures tests[k].nodes[Position(tests[k], it)].live
    ensures forall p :: 0 <= p < |tests[j].nodes| && !tests[j].nodes[p].live ==> !RunAt(it, tests, k, p)
  {
    TrailOrder(it, tests, j, k);
    assert Forward(tests[k], tests[k + 1], it);
  }

  // ---------------------------------------------- what a subscriber sees

  /** Calls that do not destroy subscription `id` leave its callback in place while an
      iterator is active. */
  lemma {:induction false} SparedStays<I>(ops: seq<Op<I>>, path: seq<State<I>>, it: I, p: nat, id: nat, k: nat)
    requires Path(ops, path, it) && k <= |ops| && Inv(path[0]) && it in path[0].active
    requires p < |path[0].nodes| && path[0].nodes[p] == Node(id, true) && OpUnsubscribe(id) !in ops
    ensures p < |path[k].nodes| && path[k].nodes[p] == Node(id, true)
  {
    if k > 0 {
      SparedStays(ops, path, it, p, id, k - 1);
      ActiveStable(ops, path, it, k - 1);
      ActiveStable(ops, path, it, k);
      assert ops[k - 1] != OpUnsubscribe(id) && path[k] == Apply(path[k - 1], ops[k - 1]);
    }
  }

  /** A callback whose subscription nobody destroys before its turn is run by the pass. */
  lemma {:induction false} SparedRuns<I>(
    it: I, bodies: seq<seq<Op<I>>>, paths: seq<seq<State<I>>>, tests: seq<State<I>>, k: nat, p: nat, id: nat) returns (n: nat)
    requires Ended(it, tests) && |paths| == |bodies| && |tests| == |bodies| + 1 && k <= |bodies|
    requires forall j :: 0 <= j < |bodies| ==> Round(tests[j], it, bodies[j], paths[j], tests[j + 1])
    requires !tests[k].active[it].atEnd && tests[k].active[it].passed <= p < |tests[k].nodes|
    requires tests[k].nodes[p] == Node(id, true)
    requires forall j :: k <= j < |bodies| && Position(tests[j], it) < p ==> OpUnsubscribe(id) !in bodies[j]
    ensures k <= n < |bodies| && RunAt(it, tests, n, p) && tests[n].nodes[p] == Node(id, true)
    decreases |bodies| - k
  {
    var q := Position(tests[k], it);
    if q == p {
      n := k;
    } else {
      assert Round(tests[k], it, bodies[k], paths[k], tests[k + 1]);
      assert Forward(tests[k], tests[k + 1], it);
      InvPreserved(tests[k], OpNext(it));
      SparedStays(bodies[k], paths[k], it, p, id, |bodies[k]|);
      n := SparedRuns(it, bodies, paths, tests, k + 1, p, id);
    }
  }

  /** The whole Notify: a callback subscribed when it begins, and whose subscription is not
      destroyed before its turn, is run exactly once. */
  lemma SubscriberRunsOnce<I>(
    s: State<I>, it: I, bodies: seq<seq<Op<I>>>, paths: seq<seq<State<I>>>, tests: seq<State<I>>, p: nat, id: nat) returns (n: nat)
    requires Pass(s, it, bodies, paths, tests)
    requires Position(tests[|bodies|], it) == |tests[|bodies|].nodes|
    requires p < |s.nodes| && s.nodes[p] == Node(id, true)
    requires forall j :: 0 <= j < |bodies| && Position(tests[j], it) < p ==> OpUnsubscribe(id) !in bodies[j]
    ensures Trail(it, tests) && n < |bodies| && RunAt(it, tests, n, p) && tests[n].nodes[p] == Node(id, true)
    ensures forall k :: 0 <= k < |bodies| && k != n ==> !RunAt(it, tests, k, p)
  {
    PassLeavesTrail(s, it, bodies, paths, tests, |bodies|);
    assert tests[..|bodies| + 1] == tests;
    n := SparedRuns(it, bodies, paths, tests, 0, p, id);
    EndedPass(it, tests, p);
  }
}
