/** The value of a CallbackList with its active iterators, and what one Notify pass runs.

    A node of the std::list is named by the number of its subscription; a node whose
    callback was reset is not `live`.  While an iterator is active no node is erased, so a
    node cursor is known by how many nodes it has passed; `atEnd` tells that it is end(),
    which stays end() when nodes are appended. */
module CallbackListSpec {

  datatype Node = Node(id: nat, live: bool)

  datatype Cursor = Cursor(passed: nat, atEnd: bool)

  datatype State<I> = State(nodes: seq<Node>, active: map<I, Cursor>, issued: nat, hasRemoval: bool, removals: nat)

  function Init<I>(hasRemoval: bool): State<I> {
    State([], map[], 0, hasRemoval, 0)
  }

  function Contents(nodes: seq<Node>): seq<nat> {
    if nodes == [] then []
    else
      var n := |nodes| - 1;
      Contents(nodes[..n]) + if nodes[n].live then [nodes[n].id] else []
  }

  function Compacted(nodes: seq<Node>): seq<Node> {
    if nodes == [] then []
    else
      var n := |nodes| - 1;
      Compacted(nodes[..n]) + if nodes[n].live then [nodes[n]] else []
  }

  /** The position of the node of subscription `id`, or the length. */
  function Find(nodes: seq<Node>, id: nat): (i: nat)
    ensures i <= |nodes|
    ensures i < |nodes| ==> nodes[i].id == id
    ensures forall k :: 0 <= k < i ==> nodes[k].id != id
  {
    if nodes == [] || nodes[0].id == id then 0 else 1 + Find(nodes[1..], id)
  }

  /** The first live node at or after `i`, or the length. */
  function NextLive(nodes: seq<Node>, i: nat): (j: nat)
    requires i <= |nodes|
    ensures i <= j <= |nodes|
    ensures forall p :: i <= p < j ==> !nodes[p].live
    ensures j < |nodes| ==> nodes[j].live
    decreases |nodes| - i
  {
    if i < |nodes| && !nodes[i].live then NextLive(nodes, i + 1) else i
  }

  // ----------------------------------------------------------- operations

  function Add<I>(s: State<I>): State<I> {
    s.(nodes := s.nodes + [Node(s.issued, true)], issued := s.issued + 1)
  }

  function Fire<I>(s: State<I>, changed: bool): State<I> {
    if changed && s.hasRemoval then s.(removals := s.removals + 1) else s
  }

  /** OnSubscriptionDestroyed */
  function Unsubscribe<I(==)>(s: State<I>, id: nat): State<I> {
    var i := Find(s.nodes, id);
    if i == |s.nodes| then s
    else if s.active != map[] then s.(nodes := s.nodes[i := s.nodes[i].(live := false)])
    else Fire(s.(nodes := s.nodes[..i] + s.nodes[i + 1..]), true)
  }

  function Begin<I(==)>(s: State<I>, it: I): State<I> {
    s.(active := s.active[it := Cursor(0, s.nodes == [])])
  }

  function Copy<I(==)>(s: State<I>, src: I, dst: I): State<I>
    requires src in s.active
  {
    s.(active := s.active[dst := s.active[src]])
  }

  /** Where GetNext finds the callback it hands out, or the length if it hands out none. */
  function Fetched(nodes: seq<Node>, c: Cursor): (j: nat)
    requires c.passed <= |nodes|
    ensures j <= |nodes|
  {
    if c.atEnd then |nodes| else NextLive(nodes, c.passed)
  }

  /** Where GetNext leaves the cursor. */
  function Moved(nodes: seq<Node>, c: Cursor): Cursor
    requires c.passed <= |nodes|
  {
    var j := Fetched(nodes, c);
    if c.atEnd then c
    else if j == |nodes| then Cursor(j, true)
    else Cursor(j + 1, j + 1 == |nodes|)
  }

  function GetNext<I(==)>(s: State<I>, it: I): State<I>
    requires it in s.active && s.active[it].passed <= |s.nodes|
  {
    s.(active := s.active[it := Moved(s.nodes, s.active[it])])
  }

  /** The destructor of an iterator: the last one compacts the list and tells the removal
      callback if that changed it. */
  function End<I(==)>(s: State<I>, it: I): State<I>
    requires it in s.active
  {
    var rest := s.active - {it};
    if rest != map[] then s.(active := rest)
    else Fire(s.(active := rest, nodes := Compacted(s.nodes)), Compacted(s.nodes) != s.nodes)
  }

  datatype Op<I> =
    | OpAdd
    | OpUnsubscribe(id: nat)
    | OpBegin(it: I)
    | OpCopy(src: I, dst: I)
    | OpSetRemoval(has: bool)
    | OpNext(it: I)
    | OpEnd(it: I)

  /** What the code that uses the list can do: a subscription is destroyed once, and only
      iterators that exist are used. */
  predicate Proper<I(==)>(s: State<I>, op: Op<I>) {
    match op
    case OpAdd => true
    case OpUnsubscribe(id) => var i := Find(s.nodes, id); i < |s.nodes| && s.nodes[i].live
    case OpBegin(it) => it !in s.active
    case OpCopy(src, dst) => src in s.active && dst !in s.active
    case OpSetRemoval(_) => true
    case OpNext(it) => it in s.active && s.active[it].passed <= |s.nodes|
    case OpEnd(it) => it in s.active
  }

  function Apply<I(==)>(s: State<I>, op: Op<I>): State<I>
    requires Proper(s, op)
  {
    match op
    case OpAdd => Add(s)
    case OpUnsubscribe(id) => Unsubscribe(s, id)
    case OpBegin(it) => Begin(s, it)
    case OpCopy(src, dst) => Copy(s, src, dst)
    case OpSetRemoval(has) => s.(hasRemoval := has)
    case OpNext(it) => GetNext(s, it)
    case OpEnd(it) => End(s, it)
  }

  // ------------------------------------------------------------ invariant

  ghost predicate Numbered(nodes: seq<Node>, issued: nat) {
    && (forall i, j :: 0 <= i < j < |nodes| ==> nodes[i].id < nodes[j].id)
    && (forall i :: 0 <= i < |nodes| ==> nodes[i].id < issued)
  }

  ghost predicate AllLive(nodes: seq<Node>) {
    forall i :: 0 <= i < |nodes| ==> nodes[i].live
  }

  ghost predicate CursorOk(nodes: seq<Node>, c: Cursor) {
    c.passed <= |nodes| && (!c.atEnd ==> c.passed < |nodes|)
  }

  /** Subscription numbers increase along the list, reset nodes exist only while an
      iterator is active, and every cursor is at a node or at end(). */
  ghost predicate Inv<I>(s: State<I>) {
    && Numbered(s.nodes, s.issued)
    && (s.active == map[] ==> AllLive(s.nodes))
    && (forall it :: it in s.active ==> CursorOk(s.nodes, s.active[it]))
  }

  // ------------------------------------------------- lemmas about the nodes

  lemma {:induction false} CompactedMembers(nodes: seq<Node>)
    ensures forall m :: m in Compacted(nodes) <==> m in nodes && m.live
  {
    if nodes != [] {
      var n := |nodes| - 1;
      assert nodes == nodes[..n] + [nodes[n]];
      CompactedMembers(nodes[..n]);
    }
  }

  lemma {:induction false} CompactedNumbered(nodes: seq<Node>, issued: nat)
    requires Numbered(nodes, issued)
    ensures Numbered(Compacted(nodes), issued) && AllLive(Compacted(nodes))
  {
    if nodes != [] {
      var n := |nodes| - 1;
      var before := Compacted(nodes[..n]);
      CompactedNumbered(nodes[..n], issued);
      CompactedMembers(nodes[..n]);
      forall i | 0 <= i < |before| ensures before[i].id < nodes[n].id {
        assert before[i] in nodes[..n];
      }
    }
  }

  lemma {:induction false} CompactedContents(nodes: seq<Node>)
    ensures Contents(Compacted(nodes)) == Contents(nodes)
  {
    if nodes != [] {
      var n := |nodes| - 1;
      var before := Compacted(nodes[..n]);
      CompactedContents(nodes[..n]);
      if nodes[n].live {
        assert (before + [nodes[n]])[..|before|] == before;
      } else {
        assert before + [] == before;
      }
    }
  }

  /** Compacting changes the list exactly when some node was reset. */
  lemma {:induction false} CompactedSame(nodes: seq<Node>)
    ensures |Compacted(nodes)| <= |nodes|
    ensures Compacted(nodes) == nodes <==> AllLive(nodes)
  {
    if nodes != [] {
      var n := |nodes| - 1;
      CompactedSame(nodes[..n]);
      if nodes[n].live && AllLive(nodes[..n]) {
        assert Compacted(nodes) == nodes[..n] + [nodes[n]] == nodes;
      }
      if Compacted(nodes) == nodes {
        assert nodes[n].live;
        assert Compacted(nodes)[..n] == nodes[..n];
        assert Compacted(nodes)[..n] == Compacted(nodes[..n]);
      }
    }
  }

  lemma {:induction false} ContentsAppend(a: seq<Node>, b: seq<Node>)
    ensures Contents(a + b) == Contents(a) + Contents(b)
  {
    if b == [] {
      assert a + b == a;
    } else {
      assert (a + b)[..|a + b| - 1] == a + b[..|b| - 1];
      ContentsAppend(a, b[..|b| - 1]);
    }
  }
}
