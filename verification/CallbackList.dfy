/** CallbackList and its iterators as objects that are updated in place, proved against
    CallbackListSpec. */
module CallbackLists {
  import opened CallbackListSpec

  class CallbackList {
    var callbacks: seq<Node>
    var activeIteratorCount: nat
    var hasRemovalCallback: bool
    var removalRuns: nat
    var issued: nat
    ghost var iterators: set<Iterator>

    /** The counter counts the iterators that point here. */
    ghost predicate Valid()
      reads this, iterators
    {
      && activeIteratorCount == |iterators|
      && (forall it :: it in iterators ==> it.list == this && it.Cursor().passed <= |callbacks|)
    }

    ghost function Value(): State<Iterator>
      reads this, iterators
    {
      State(callbacks, map it | it in iterators :: it.Cursor(), issued, hasRemovalCallback, removalRuns)
    }

    constructor (hasRemovalCallback: bool)
      ensures Valid() && Value() == Init(hasRemovalCallback)
    {
      callbacks := [];
      activeIteratorCount := 0;
      this.hasRemovalCallback := hasRemovalCallback;
      removalRuns := 0;
      issued := 0;
      iterators := {};
    }

    /** set_removal_callback */
    method SetRemovalCallback(has: bool)
      requires Valid()
      modifies this`hasRemovalCallback
      ensures Valid() && Value() == Apply(old(Value()), OpSetRemoval(has))
    {
      hasRemovalCallback := has;
    }

    /** Returns the subscription. */
    method Add() returns (id: nat)
      requires Valid()
      modifies this
      ensures Valid() && Value() == CallbackListSpec.Add(old(Value())) && id == old(issued)
      ensures iterators == old(iterators)
    {
      id := issued;
      callbacks := callbacks + [Node(id, true)];
      issued := issued + 1;
    }

    /** Removes the nodes that were reset, and reports to the removal callback if any was. */
    method Compact()
      modifies this`callbacks, this`removalRuns
      ensures callbacks == Compacted(old(callbacks))
      ensures removalRuns == old(removalRuns) + if hasRemovalCallback && Compacted(old(callbacks)) != old(callbacks) then 1 else 0
    {
      var updated, it, kept := false, 0, [];
      while it < |callbacks|
        invariant it <= |callbacks| && callbacks == old(callbacks)
        invariant kept == Compacted(callbacks[..it])
        invariant updated <==> !AllLive(callbacks[..it])
      {
        assert callbacks[..it + 1][..it] == callbacks[..it];
        if !callbacks[it].live {
          updated := true;
          assert !callbacks[..it + 1][it].live;
        } else {
          kept := kept + [callbacks[it]];
          assert forall i :: 0 <= i < it ==> callbacks[..it + 1][i] == callbacks[..it][i];
        }
        it := it + 1;
      }
      assert callbacks[..it] == callbacks;
      CompactedSame(callbacks);
      callbacks := kept;
      if updated && hasRemovalCallback {
        removalRuns := removalRuns + 1;
      }
    }

    /** Destroying a subscription resets its node while an iterator is active, and erases
        it otherwise; the removal callback runs exactly when that makes the list shorter. */
    method OnSubscriptionDestroyed(id: nat)
      requires Valid() && exists i :: 0 <= i < |callbacks| && callbacks[i].id == id
      modifies this`callbacks, this`removalRuns
      ensures Valid() && Value() == Unsubscribe(old(Value()), id)
      ensures |callbacks| < |old(callbacks)| <==> activeIteratorCount == 0
      ensures removalRuns == old(removalRuns) + if hasRemovalCallback && |callbacks| < |old(callbacks)| then 1 else 0
    {
      var i := Find(callbacks, id);
      ActiveWhenCounted();
      if activeIteratorCount != 0 {
        callbacks := callbacks[i := callbacks[i].(live := false)];
      } else {
        callbacks := callbacks[..i] + callbacks[i + 1..];
        if hasRemovalCallback {
          removalRuns := removalRuns + 1;
        }
      }
    }

    lemma ActiveWhenCounted()
      requires Valid()
      ensures Value().active == map[] <==> activeIteratorCount == 0
    {
      if activeIteratorCount > 0 {
        assert iterators != {};
        var it :| it in iterators;
        assert it in Value().active;
      } else {
        assert iterators == {};
      }
    }
  }

  class Iterator {
    const list: CallbackList
    var passed: nat
    var atEnd: bool

    function Cursor(): CallbackListSpec.Cursor
      reads this
    {
      CallbackListSpec.Cursor.Cursor(passed, atEnd)
    }

    /** The copy constructor. */
    constructor Copy(other: Iterator)
      requires other.list.Valid() && other in other.list.iterators
      modifies other.list
      ensures list == other.list && list.Valid() && this in list.iterators
      ensures Cursor() == other.Cursor() == old(other.Cursor())
      ensures list.Value() == CallbackListSpec.Copy(old(other.list.Value()), other, this)
    {
      list := other.list;
      passed := other.passed;
      atEnd := other.atEnd;
      new;
      list.activeIteratorCount := list.activeIteratorCount + 1;
      list.iterators := list.iterators + {this};
      assert list.Value().active == old(other.list.Value()).active[this := Cursor()];
    }

    constructor (list: CallbackList)
      requires list.Valid()
      modifies list
      ensures this.list == list && list.Valid() && this in list.iterators
      ensures list.Value() == Begin(old(list.Value()), this)
    {
      this.list := list;
      passed := 0;
      atEnd := list.callbacks == [];
      new;
      list.activeIteratorCount := list.activeIteratorCount + 1;
      list.iterators := list.iterators + {this};
      assert list.Value().active == old(list.Value()).active[this := Cursor()];
    }

    /** The position of the next callback that is not reset; the length if there is none. */
    method GetNext() returns (position: nat)
      requires list.Valid() && this in list.iterators && CursorOk(list.callbacks, Cursor())
      modifies this
      ensures list.Valid() && list.Value() == CallbackListSpec.GetNext(old(list.Value()), this)
      ensures position == Fetched(list.callbacks, old(Cursor()))
    {
      var nodes := list.callbacks;
      var i, end := SkipReset(nodes);
      position := |nodes|;
      if !end {
        position := i;
        i := i + 1;
        end := i == |nodes|;
      }
      passed, atEnd := i, end;
      assert list.Value().active == old(list.Value()).active[this := Cursor()];
    }

    /** The loop over nodes that were reset. */
    method SkipReset(nodes: seq<Node>) returns (i: nat, end: bool)
      requires CursorOk(nodes, Cursor())
      ensures atEnd ==> i == passed && end
      ensures !atEnd ==> i == NextLive(nodes, passed) && end == (i == |nodes|)
    {
      i, end := passed, atEnd;
      while !end && !nodes[i].live
        invariant i <= |nodes|
        invariant atEnd ==> i == passed && end
        invariant !atEnd ==> end == (i == |nodes|) && NextLive(nodes, i) == NextLive(nodes, passed)
        decreases |nodes| - i
      {
        i := i + 1;
        end := i == |nodes|;
      }
    }

    /** The destructor: the last iterator compacts the list. */
    method Dispose()
      requires list.Valid() && this in list.iterators
      modifies list
      ensures list.Valid() && list.Value() == End(old(list.Value()), this)
      ensures this !in list.iterators
    {
      ghost var before := list.iterators;
      list.activeIteratorCount := list.activeIteratorCount - 1;
      list.iterators := list.iterators - {this};
      assert before == list.iterators + {this};
      ghost var rest := map it | it in list.iterators :: it.Cursor();
      assert rest == old(list.Value()).active - {this};
      if list.activeIteratorCount == 0 {
        assert list.iterators == {};
        list.Compact();
      } else {
        ghost var other :| other in list.iterators;
        assert other in rest;
      }
    }
  }
}
