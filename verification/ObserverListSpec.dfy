/** The value of an ObserverList together with its live iterators, and what each
    public operation does to that value.

    Observers are raw pointers held by the unchecked adapter, so a slot whose pointer
    is null is a slot marked for removal.  Iterators are named by a type parameter:
    the classes in ObserverList.dfy use the iterator objects themselves, and the
    theorems in ObserverListPass.dfy hold for any names.  An iterator that is not in
    `live` is one whose weak link to the list is null. */
module ObserverListSpec {

  type Observer = nat

  datatype Pointer = Null | To(obs: Observer)

  datatype Policy = All | ExistingOnly

  /** `max_index_`: the largest size_t under the ALL policy, else the size of the
      list when the iterator was made. */
  datatype Limit = Unlimited | UpTo(count: nat)

  datatype Cursor = Cursor(index: nat, limit: Limit)

  datatype State<I> = State(policy: Policy, slots: seq<Pointer>, live: map<I, Cursor>, alive: bool)

  function Init<I>(policy: Policy): State<I> {
    State(policy, [], map[], true)
  }

  // ---------------------------------------------------------------- slots

  /** The observers that are not marked, in order: the abstract value of the list. */
  function Contents(slots: seq<Pointer>): (r: seq<Observer>)
  {
    if slots == [] then []
    else
      var n := |slots| - 1;
      Contents(slots[..n]) + if slots[n].To? then [slots[n].obs] else []
  }

  /** EraseIf(observers_, IsMarkedForRemoval). */
  function Compacted(slots: seq<Pointer>): (r: seq<Pointer>)
  {
    if slots == [] then []
    else
      var n := |slots| - 1;
      Compacted(slots[..n]) + if slots[n].To? then [slots[n]] else []
  }

  /** The position of `p`, or |slots| when it does not occur. */
  function Find(slots: seq<Pointer>, p: Pointer): (i: nat)
    ensures i <= |slots|
    ensures i < |slots| ==> slots[i] == p
    ensures forall k :: 0 <= k < i ==> slots[k] != p
    ensures i < |slots| <==> p in slots
  {
    if slots == [] then 0
    else if slots[0] == p then 0
    else
      assert slots == [slots[0]] + slots[1..];
      1 + Find(slots[1..], p)
  }

  /** Where EnsureValidIndex leaves an index: at the next unmarked slot below `max`. */
  function Skip(slots: seq<Pointer>, i: nat, max: nat): (j: nat)
    requires max <= |slots|
    ensures i <= j
    ensures i <= max ==> j <= max
    ensures max <= i ==> j == i
    ensures forall p :: i <= p < j ==> slots[p] == Null
    ensures j < max ==> slots[j] != Null
    decreases max - i
  {
    if i < max && slots[i] == Null then Skip(slots, i + 1, max) else i
  }

  /** The smaller of the size and the iterator's maximum. */
  function ClampedMax(slots: seq<Pointer>, limit: Limit): (m: nat)
    ensures m <= |slots| && (limit.UpTo? ==> m <= limit.count)
    ensures m == |slots| || (limit.UpTo? && m == limit.count)
  {
    match limit
    case Unlimited => |slots|
    case UpTo(n) => if n < |slots| then n else |slots|
  }

  function EnsureValid(slots: seq<Pointer>, c: Cursor): Cursor {
    c.(index := Skip(slots, c.index, ClampedMax(slots, c.limit)))
  }

  predicate IsEnd<I(==)>(s: State<I>, id: I) {
    id !in s.live || s.live[id].index == ClampedMax(s.slots, s.live[id].limit)
  }

  // ----------------------------------------------------------- operations

  function Add<I>(s: State<I>, o: Observer): State<I> {
    if To(o) in s.slots then s else s.(slots := s.slots + [To(o)])
  }

  function Remove<I(==)>(s: State<I>, o: Observer): State<I> {
    var i := Find(s.slots, To(o));
    if i == |s.slots| then s
    else if s.live == map[] then s.(slots := s.slots[..i] + s.slots[i + 1..])
    else s.(slots := s.slots[i := Null])
  }

  function Clear<I(==)>(s: State<I>): State<I> {
    s.(slots := if s.live == map[] then [] else seq(|s.slots|, _ => Null))
  }

  /** begin(): an empty list hands out an iterator that is not linked at all. */
  function Begin<I(==)>(s: State<I>, id: I): State<I> {
    if s.slots == [] then s
    else
      var limit := if s.policy == All then Unlimited else UpTo(|s.slots|);
      s.(live := s.live[id := EnsureValid(s.slots, Cursor(0, limit))])
  }

  function Advance<I(==)>(s: State<I>, id: I): State<I> {
    if id !in s.live then s
    else
      var c := s.live[id];
      s.(live := s.live[id := EnsureValid(s.slots, c.(index := c.index + 1))])
  }

  /** The destructor of an iterator: the last one compacts the list. */
  function EndIter<I(==)>(s: State<I>, id: I): State<I> {
    if id !in s.live then s
    else if s.live.Keys == {id} then s.(slots := Compacted(s.slots), live := map[])
    else s.(live := s.live - {id})
  }

  function CopyIter<I(==)>(s: State<I>, src: I, dst: I): State<I> {
    if src in s.live then s.(live := s.live[dst := s.live[src]]) else s
  }

  function AssignIter<I(==)>(s: State<I>, dst: I, src: I): State<I> {
    if dst == src then s else CopyIter(EndIter(s, dst), src, dst)
  }

  /** The destructor of the list unlinks every iterator. */
  function Destroy<I>(s: State<I>): State<I> {
    State(s.policy, [], map[], false)
  }

  datatype Op<I> =
    | OpAdd(obs: Observer)
    | OpRemove(obs: Observer)
    | OpClear
    | OpBegin(id: I)
    | OpAdvance(id: I)
    | OpEnd(id: I)
    | OpCopy(src: I, dst: I)
    | OpAssign(dst: I, src: I)
    | OpDestroy

  function Apply<I(==)>(s: State<I>, op: Op<I>): State<I> {
    match op
    case OpAdd(o) => Add(s, o)
    case OpRemove(o) => Remove(s, o)
    case OpClear => Clear(s)
    case OpBegin(id) => Begin(s, id)
    case OpAdvance(id) => Advance(s, id)
    case OpEnd(id) => EndIter(s, id)
    case OpCopy(src, dst) => CopyIter(s, src, dst)
    case OpAssign(dst, src) => AssignIter(s, dst, src)
    case OpDestroy => Destroy(s)
  }

  /** What the caller owes: no list operation after destruction, constructors build
      new iterators, and an iterator that stands at the end is not stepped. */
  predicate Proper<I(==)>(s: State<I>, op: Op<I>) {
    match op
    case OpAdd(_) => s.alive
    case OpRemove(_) => s.alive
    case OpClear => s.alive
    case OpBegin(id) => s.alive && id !in s.live
    case OpAdvance(id) => id in s.live ==> !IsEnd(s, id)
    case OpEnd(_) => true
    case OpCopy(src, dst) => dst !in s.live && src != dst
    case OpAssign(_, _) => true
    case OpDestroy => s.alive
  }

  // ------------------------------------------------------------ invariant

  ghost predicate NoDuplicates(slots: seq<Pointer>) {
    forall i, j :: 0 <= i < j < |slots| && slots[i].To? ==> slots[i] != slots[j]
  }

  ghost predicate CursorOk(policy: Policy, slots: seq<Pointer>, c: Cursor) {
    && c.index <= ClampedMax(slots, c.limit)
    && (c.limit.Unlimited? <==> policy == All)
    && (c.limit.UpTo? ==> c.limit.count <= |slots|)
  }

  /** What every operation keeps. */
  ghost predicate Inv<I>(s: State<I>) {
    && NoDuplicates(s.slots)
    && (s.live == map[] ==> Null !in s.slots)
    && (forall id :: id in s.live ==> CursorOk(s.policy, s.slots, s.live[id]))
    && (!s.alive ==> s.live == map[])
  }

  // -------------------------------------------------- lemmas about slots

  lemma {:induction false} ContentsAppend(a: seq<Pointer>, b: seq<Pointer>)
    ensures Contents(a + b) == Contents(a) + Contents(b)
    ensures Compacted(a + b) == Compacted(a) + Compacted(b)
  {
    if b == [] {
      assert a + b == a;
    } else {
      var n := |b| - 1;
      assert (a + b)[..|a + b| - 1] == a + b[..n];
      ContentsAppend(a, b[..n]);
    }
  }

  lemma {:induction false} CompactedIsContents(slots: seq<Pointer>)
    ensures Contents(Compacted(slots)) == Contents(slots)
    ensures Null !in Compacted(slots)
    ensures forall p :: p in Compacted(slots) <==> p in slots && p != Null
  {
    if slots != [] {
      var n := |slots| - 1;
      assert slots == slots[..n] + [slots[n]];
      CompactedIsContents(slots[..n]);
      ContentsAppend(Compacted(slots[..n]), if slots[n].To? then [slots[n]] else []);
      if slots[n].To? {
        assert Contents([slots[n]]) == Contents([]) + [slots[n].obs];
      }
    }
  }

  lemma {:induction false} CompactedNoDuplicates(slots: seq<Pointer>)
    requires NoDuplicates(slots)
    ensures NoDuplicates(Compacted(slots))
  {
    if slots != [] {
      var n := |slots| - 1;
      CompactedNoDuplicates(slots[..n]);
      CompactedIsContents(slots[..n]);
      var before := Compacted(slots[..n]);
      forall i | 0 <= i < |before|
        ensures before[i] != slots[n]
      {
        assert before[i] in slots[..n];
      }
    }
  }

  lemma {:induction false} CompactedFixed(slots: seq<Pointer>)
    requires Null !in slots
    ensures Compacted(slots) == slots
  {
    if slots != [] {
      CompactedFixed(slots[..|slots| - 1]);
    }
  }

  lemma {:induction false} ContentsMember(slots: seq<Pointer>, o: Observer)
    ensures o in Contents(slots) <==> To(o) in slots
  {
    if slots != [] {
      var n := |slots| - 1;
      assert slots == slots[..n] + [slots[n]];
      ContentsMember(slots[..n], o);
    }
  }

  lemma {:induction false} ContentsNulls(slots: seq<Pointer>)
    requires forall i :: 0 <= i < |slots| ==> slots[i] == Null
    ensures Contents(slots) == []
  {
    if slots != [] {
      ContentsNulls(slots[..|slots| - 1]);
    }
  }
}
