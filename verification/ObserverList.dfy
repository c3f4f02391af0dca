/** ObserverList and its iterators as objects that are updated in place.  Each method
    is proved to do to the heap what ObserverListSpec says it does to the value, the
    iterator objects serving as the names of iterators. */
module ObserverLists {
  import opened ObserverListSpec

  class ObserverList {
    const policy: Policy
    var observers: seq<Pointer>
    var liveIterators: seq<Iter>

    /** The linked nodes are distinct and each links back to this list. */
    ghost predicate Valid()
      reads this, liveIterators
    {
      && (forall i :: 0 <= i < |liveIterators| ==> liveIterators[i].list == this)
      && (forall i, j :: 0 <= i < j < |liveIterators| ==> liveIterators[i] != liveIterators[j])
    }

    ghost function Cursors(): map<Iter, Cursor>
      reads this, liveIterators
    {
      map it | it in liveIterators :: Cursor(it.index, it.maxIndex)
    }

    ghost function Value(): State<Iter>
      reads this, liveIterators
    {
      State(policy, observers, Cursors(), true)
    }

    constructor (policy: Policy)
      ensures Valid() && Value() == Init(policy)
    {
      this.policy := policy;
      observers := [];
      liveIterators := [];
    }

    method HasObserver(obs: Pointer) returns (has: bool)
      ensures has <==> obs != Null && obs in observers
    {
      if obs == Null {
        return false;
      }
      has := Find(observers, obs) != |observers|;
    }

    method AddObserver(obs: Observer)
      requires Valid()
      modifies this`observers
      ensures Valid() && Value() == Add(old(Value()), obs)
    {
      var has := HasObserver(To(obs));
      if has {
        return;
      }
      observers := observers + [To(obs)];
    }

    method RemoveObserver(obs: Observer)
      requires Valid()
      modifies this`observers
      ensures Valid() && Value() == Remove(old(Value()), obs)
    {
      var i := 0;
      while i < |observers| && observers[i] != To(obs)
        invariant i <= |observers|
        invariant forall k :: 0 <= k < i ==> observers[k] != To(obs)
      {
        i := i + 1;
      }
      assert i == Find(observers, To(obs));
      if i == |observers| {
        return;
      }
      EmptyWhenUnlinked();
      if liveIterators == [] {
        observers := observers[..i] + observers[i + 1..];
      } else {
        observers := observers[i := Null];
      }
    }

    lemma EmptyWhenUnlinked()
      ensures liveIterators == [] <==> Cursors() == map[]
      ensures Cursors().Keys == set it | it in liveIterators
    {
      if liveIterators != [] {
        assert liveIterators[0] in Cursors();
      }
    }

    method Clear()
      requires Valid()
      modifies this`observers
      ensures Valid() && Value() == ObserverListSpec.Clear(old(Value()))
    {
      EmptyWhenUnlinked();
      if liveIterators == [] {
        observers := [];
      } else {
        var i := 0;
        while i < |observers|
          invariant i <= |observers| == |old(observers)|
          invariant forall k :: 0 <= k < i ==> observers[k] == Null
        {
          observers := observers[i := Null];
          i := i + 1;
        }
      }
    }

    /** EraseIf over the vector. */
    method Compact()
      modifies this`observers
      ensures observers == Compacted(old(observers))
    {
      var kept, i := [], 0;
      while i < |observers|
        invariant i <= |observers|
        invariant kept == Compacted(observers[..i])
      {
        assert observers[..i + 1][..i] == observers[..i];
        if observers[i].To? {
          kept := kept + [observers[i]];
        }
        i := i + 1;
      }
      assert observers[..i] == observers;
      observers := kept;
    }

    /** begin(): the iterator is linked only when the list is not empty. */
    method Begin() returns (it: Iter)
      requires Valid()
      modifies this`liveIterators
      ensures Valid() && fresh(it) && it.Linked()
      ensures Value() == ObserverListSpec.Begin(old(Value()), it)
    {
      if observers == [] {
        it := new Iter.Default();
      } else {
        it := new Iter.FromList(this);
      }
    }

    /** The destructor: every outstanding iterator is unlinked. */
    method Dispose()
      requires Valid()
      modifies this, liveIterators
      ensures observers == [] && liveIterators == []
      ensures State(policy, observers, Cursors(), false) == Destroy(old(Value()))
      ensures forall it :: it in old(liveIterators) ==> it.list == null && it.index == old(it.index)
    {
      while liveIterators != []
        invariant Valid()
        invariant forall it :: it in liveIterators ==> it in old(liveIterators)
        invariant forall it :: it in old(liveIterators) ==> it in liveIterators || it.list == null
        invariant forall it :: it in old(liveIterators) ==> it.index == old(it.index)
        decreases |liveIterators|
      {
        liveIterators[0].Invalidate();
      }
      observers := [];
    }
  }

  class Iter {
    var list: ObserverList?
    var index: nat
    var maxIndex: Limit

    /** A weak link that is set belongs to a list that knows about it. */
    ghost predicate Linked()
      reads this, list, if list == null then [] else list.liveIterators
    {
      list != null ==> list.Valid() && this in list.liveIterators
    }

    constructor Default()
      ensures list == null && index == 0
    {
      list := null;
      index := 0;
      maxIndex := UpTo(0);
    }

    constructor FromList(l: ObserverList)
      requires l.Valid() && l.observers != []
      modifies l`liveIterators
      ensures l.Valid() && list == l && l.liveIterators == old(l.liveIterators) + [this]
      ensures l.Value() == Begin(old(l.Value()), this)
      ensures index < ClampedMax(l.observers, maxIndex) ==> l.observers[index] != Null
    {
      list := null;
      index := 0;
      maxIndex := if l.policy == All then Unlimited else UpTo(|l.observers|);
      new;
      SetList(l);
      EnsureValidIndex();
      assert l.Cursors() == old(l.Cursors())[this := Cursor(index, maxIndex)];
    }

    method SetList(l: ObserverList)
      requires l.Valid() && list == null
      modifies this`list, l`liveIterators
      ensures list == l && l.liveIterators == old(l.liveIterators) + [this] && l.Valid()
    {
      list := l;
      l.liveIterators := l.liveIterators + [this];
    }

    /** Unlinks this node; nothing happens when it is not linked. */
    method Invalidate()
      requires Linked()
      modifies this`list, (if list == null then {} else {list})`liveIterators
      ensures list == null
      ensures old(list) != null ==>
                && old(list).Valid()
                && |old(list).liveIterators| == |old(list.liveIterators)| - 1
                && forall it :: it in old(list).liveIterators <==> it in old(list.liveIterators) && it != this
    {
      if list != null {
        var l := list;
        var i := 0;
        while l.liveIterators[i] != this
          invariant i < |l.liveIterators|
          invariant forall k :: 0 <= k < i ==> l.liveIterators[k] != this
          decreases |l.liveIterators| - i
        {
          assert exists k :: i < k < |l.liveIterators| && l.liveIterators[k] == this;
          i := i + 1;
        }
        list := null;
        l.liveIterators := l.liveIterators[..i] + l.liveIterators[i + 1..];
      }
    }

    method IsOnlyRemainingNode() returns (only: bool)
      requires Linked()
      ensures only <==> list != null && list.Cursors().Keys == {this}
    {
      if list == null {
        return false;
      }
      only := list.liveIterators[0] == list.liveIterators[|list.liveIterators| - 1];
      if !only {
        assert list.liveIterators[0] in list.Cursors().Keys;
        assert list.liveIterators[|list.liveIterators| - 1] in list.Cursors().Keys;
      }
    }

    method EnsureValidIndex()
      requires list != null
      modifies this`index
      ensures Cursor(index, maxIndex) == EnsureValid(list.observers, Cursor(old(index), maxIndex))
    {
      var max := ClampedMax(list.observers, maxIndex);
      while index < max && list.observers[index] == Null
        invariant Skip(list.observers, index, max) == Skip(list.observers, old(index), max)
        decreases max - index
      {
        index := index + 1;
      }
    }

    method IsEnd() returns (end: bool)
      requires Linked()
      ensures list != null ==> end == ObserverListSpec.IsEnd(list.Value(), this)
      ensures list == null ==> end
    {
      end := list == null || index == ClampedMax(list.observers, maxIndex);
    }

    /** `it != end()` holds exactly when the iterator is not at the end, because end() is
        an unlinked iterator.  Two linked iterators are the same when both are at the end, or
        when they stand at one place of one list. */
    method Equals(other: Iter) returns (same: bool)
      requires Linked() && other.Linked()
      ensures other.list == null && list != null ==> same == ObserverListSpec.IsEnd(list.Value(), this)
      ensures list == null && other.list != null ==> same == ObserverListSpec.IsEnd(other.list.Value(), other)
      ensures other.list == null && list == null ==> same
      ensures list != null && other.list != null ==>
                (same <==> (ObserverListSpec.IsEnd(list.Value(), this) && ObserverListSpec.IsEnd(other.list.Value(), other))
                           || (list == other.list && index == other.index))
    {
      var a := IsEnd();
      var b := other.IsEnd();
      same := (a && b) || (list == other.list && index == other.index);
    }

    /** The current slot, which is marked if its observer was removed since the last step. */
    method GetCurrent() returns (obs: Pointer)
      requires list != null && index < ClampedMax(list.observers, maxIndex)
      ensures obs == list.observers[index]
    {
      obs := list.observers[index];
    }

    /** operator++ */
    method Increment()
      requires Linked()
      modifies this`index
      ensures Linked() && list == old(list)
      ensures list != null ==> list.Value() == Advance(old(list.Value()), this)
      ensures list != null && index < ClampedMax(list.observers, maxIndex) ==> list.observers[index] != Null
      ensures list == null ==> index == old(index)
    {
      if list != null {
        index := index + 1;
        EnsureValidIndex();
        assert list.Cursors() == old(list.Cursors())[this := Cursor(index, maxIndex)];
      }
    }

    /** The destructor: the last iterator compacts the list. */
    method Dispose()
      requires Linked()
      modifies this`list, if list == null then {} else {list}
      ensures list == null
      ensures old(list) != null ==>
                && old(list).Valid()
                && old(list).Value() == EndIter(old(list.Value()), this)
                && forall it :: it in old(list).liveIterators <==> it in old(list.liveIterators) && it != this
    {
      var l := list;
      var only := IsOnlyRemainingNode();
      if only {
        l.Compact();
      }
      Invalidate();
      if l != null {
        CursorsWithout(l);
      }
    }

    /** The cursors of the other iterators are untouched when this one is unlinked. */
    twostate lemma CursorsWithout(l: ObserverList)
      requires forall it :: it in l.liveIterators <==> it in old(l.liveIterators) && it != this
      requires forall it :: it in old(l.liveIterators) ==> it.index == old(it.index) && it.maxIndex == old(it.maxIndex)
      ensures l.Cursors() == old(l.Cursors()) - {this}
    {
    }

    /** operator=, also between iterators of different lists: the list that is left sees
        the end of this iterator, the list that is joined sees a copy of `other`. */
    method Assign(other: Iter)
      requires Linked() && other.Linked()
      modifies this, if list == null then {} else {list}, if other.list == null then {} else {other.list}
      ensures other.list == old(other.list) && list == other.list
      ensures index == other.index == old(other.index) && maxIndex == other.maxIndex == old(other.maxIndex)
      ensures old(list) != null ==> old(list).Valid() && old(list).Value() == AssignIter(old(list.Value()), this, other)
      ensures other.list != null ==> other.list.Valid() && other.list.Value() == AssignIter(old(other.list.Value()), this, other)
    {
      if other == this {
        return;
      }
      ghost var l, m := list, other.list;
      Dispose();
      assert m != null && m != l ==> m.Value() == old(m.Value());
      label D:
      CopyFrom(other);
      assert l != null && m != l ==> l.Value() == old@D(l.Value());
    }

    /** The second half of operator=, for an iterator that has been unlinked. */
    method CopyFrom(other: Iter)
      requires list == null && other.Linked()
      modifies this, (if other.list == null then {} else {other.list})`liveIterators
      ensures other.list == old(other.list) && list == other.list
      ensures index == other.index && maxIndex == other.maxIndex
      ensures list != null ==> list.Valid() && list.Value() == CopyIter(old(other.list.Value()), other, this)
    {
      index := other.index;
      maxIndex := other.maxIndex;
      if other.list != null {
        SetList(other.list);
        assert list.Cursors() == old(other.list.Cursors())[this := Cursor(index, maxIndex)];
      }
    }

    constructor Copy(other: Iter)
      requires other.Linked()
      modifies if other.list == null then {} else {other.list}
      ensures list == other.list == old(other.list) && index == other.index && maxIndex == other.maxIndex
      ensures list != null ==> list.Valid() && list.Value() == CopyIter(old(other.list.Value()), other, this)
    {
      list := null;
      index := other.index;
      maxIndex := other.maxIndex;
      new;
      if other.list != null {
        SetList(other.list);
        assert list.Cursors() == old(other.list.Cursors())[this := Cursor(index, maxIndex)];
      }
    }
  }
}
