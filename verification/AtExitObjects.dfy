/** Lazy instances destroyed at exit: the cells and managers as objects.  Every method takes
    the steps of the protocols in LazyInstance and AtExit, so what is proved of their runs
    holds of the objects. */
module AtExitObjects {
  import A = AtExit
  import R = AtExitRuns
  import L = LazyInstance

  /** A LazyInstance with DestructorAtExit traits.  `lazy` is the state of the protocol that
      creates it, and `name` the number of its registration, or -1. */
  class Cell {
    var word: L.Word
    var destroyed: nat
    ghost var lazy: L.State
    ghost var name: int

    ghost predicate Ok()
      reads this
    {
      L.Idle(lazy) && lazy.atExit && lazy.word == word
    }

    predicate Created()
      reads this
    {
      word != 0
    }

    constructor ()
      ensures Ok() && word == 0 && destroyed == 0 && name == -1
    {
      word, destroyed := 0, 0;
      lazy, name := L.Init(true), -1;
      new;
      InitIdle();
    }

    /** The store of a creating call, with the state it leaves the protocol in. */
    method Complete(made: L.Word)
      requires Ok() && word == 0 && L.IsCreatedWord(made)
      modifies this
      ensures Ok() && word == made && Created() && name == -1 && destroyed == old(destroyed)
    {
      L.CreatedMask(made);
      hide L.IsCreatedWord, L.Inv;
      ghost var created := L.CreatesAlone(lazy, made);
      word, lazy, name := made, created, -1;
    }

    /** The registration of the destructor has number `n`. */
    ghost method SetName(n: nat)
      requires Ok()
      modifies this`name
      ensures Ok() && Created() == old(Created()) && name == n
    {
      name := n;
    }

    /** A call that finds the instance. */
    method Find()
      requires Ok() && Created()
      modifies this`lazy
      ensures Ok() && L.IsCreatedWord(word)
    {
      L.IdleWord(lazy);
      hide L.IsCreatedWord, L.Inv;
      ghost var found := L.FindsAlone(lazy);
      lazy := found;
    }

    /** The destructor registered for the instance. */
    method OnExit()
      requires Ok() && lazy.registered == 1
      modifies this
      ensures Ok() && word == 0 && lazy.registered == 0 && destroyed == old(destroyed) + 1 && name == -1
    {
      hide L.Inv, L.IsCreatedWord;
      destroyed := destroyed + 1;
      L.StepKeepsInv(lazy, L.OnExit);
      lazy, name := L.Apply(lazy, L.OnExit), -1;
      word := 0;
    }
  }

  lemma InitIdle()
    ensures L.Idle(L.Init(true))
  {
    L.CreatedMask(0);
  }

  function Reverse<T>(s: seq<T>): (r: seq<T>)
    ensures |r| == |s| && forall i :: 0 <= i < |s| ==> r[i] == s[|s| - 1 - i]
  {
    seq(|s|, i requires 0 <= i < |s| => s[|s| - 1 - i])
  }

  /** `cs` are the cells of the registrations `ts`. */
  ghost predicate Named(cs: seq<Cell>, ts: seq<nat>, cells: seq<Cell>) {
    |cs| == |ts| && forall j :: 0 <= j < |cs| ==> ts[j] < |cells| && cs[j] == cells[ts[j]]
  }

  ghost predicate StacksOk(stacks: seq<seq<Cell>>, managers: seq<A.Manager>, cells: seq<Cell>) {
    |stacks| == |managers| && forall i :: 0 <= i < |stacks| ==> Named(stacks[i], managers[i].stack, cells)
  }

  /** What is to be seen of a cell. */
  datatype View = View(ok: bool, created: bool, name: int)

  ghost function ViewOf(c: Cell): View
    reads c
  {
    View(c.Ok(), c.Created(), c.name)
  }

  ghost predicate Within(cells: seq<Cell>, repr: set<Cell>) {
    forall t :: 0 <= t < |cells| ==> cells[t] in repr
  }

  ghost function Views(cells: seq<Cell>, repr: set<Cell>): seq<View>
    requires Within(cells, repr)
    reads repr
  {
    seq(|cells|, t requires 0 <= t < |cells| reads repr => ViewOf(cells[t]))
  }

  lemma ViewsAt(cells: seq<Cell>, repr: set<Cell>)
    requires Within(cells, repr)
    ensures |Views(cells, repr)| == |cells|
    ensures forall t :: 0 <= t < |cells| ==> Views(cells, repr)[t] == ViewOf(cells[t])
  {
  }

  /** A registration that has not been run keeps its cell created, so no cell is registered
      twice at a time. */
  ghost predicate PendingCells(views: seq<View>, ran: seq<A.Event>) {
    forall t :: 0 <= t < |views| ==>
      views[t].ok && (A.TimesRun(ran, t) == 0 ==> views[t].name == t && views[t].created)
  }

  /** A created cell is registered, unless there was no manager to register it with. */
  ghost predicate CreatedCells(cells: seq<Cell>, views: seq<View>, ran: seq<A.Event>) {
    |views| == |cells| && forall t :: 0 <= t < |cells| && views[t].created && views[t].name != -1 ==>
      IsPending(cells, ran, views[t].name, cells[t])
  }

  ghost predicate IsPending(cells: seq<Cell>, ran: seq<A.Event>, t: int, c: Cell) {
    0 <= t < |cells| && cells[t] == c && A.TimesRun(ran, t) == 0
  }

  ghost predicate OrderOk(order: seq<Cell>, ran: seq<A.Event>, cells: seq<Cell>) {
    |order| == |ran| && forall i :: 0 <= i < |order| ==> ran[i].task < |cells| && order[i] == cells[ran[i].task]
  }

  /** The process: the callbacks waiting in its managers, from the one at the bottom to the
      one on top, and, in order, the cells destroyed so far.  `cells[t]` is the cell of
      registration `t`, `repr` are all cells, and `model` is the state that the steps of AtExit taken so far lead to. */
  class Process {
    var managers: seq<seq<Cell>>
    var disabled: bool
    var order: seq<Cell>
    ghost var cells: seq<Cell>
    ghost const repr: set<Cell>
    ghost var model: A.State

    ghost predicate Tied()
      reads this, repr
    {
      && R.Reachable(model) && Within(cells, repr)
      && |cells| == |model.home| && disabled == model.disabled
      && StacksOk(managers, model.managers, cells)
      && PendingCells(Views(cells, repr), model.ran) && CreatedCells(cells, Views(cells, repr), model.ran)
      && OrderOk(order, model.ran, cells)
    }

    ghost predicate Valid()
      reads this, repr
    {
      Tied() && model.passes == []
    }

    constructor (ghost repr: set<Cell>)
      ensures this.repr == repr && Valid() && managers == [] && !disabled && order == [] && cells == [] && model == A.INIT
    {
      managers, disabled, order := [], false, [];
      this.repr := repr;
      cells, model := [], A.INIT;
      R.InitReachable();
    }

    method NewManager()
      requires Valid()
      modifies this
      ensures Valid() && managers == old(managers) + [[]]
      ensures cells == old(cells) && order == old(order) && disabled == old(disabled)
      ensures model == A.Apply(old(model), A.NewManager)
    {
      hide R.Reachable, PendingCells, CreatedCells, OrderOk, StacksOk, Views, A.Apply;
      NewStack(managers, model, cells);
      R.Reaches(model, A.NewManager);
      managers := managers + [[]];
      model := A.Apply(model, A.NewManager);
    }

    method DisableAllAtExitManagers()
      requires Valid() && managers != []
      modifies this
      ensures Valid() && disabled && managers == old(managers) && cells == old(cells) && order == old(order)
      ensures model == A.Apply(old(model), A.Disable)
    {
      SameCount(managers, model.managers, cells);
      hide R.Reachable, PendingCells, CreatedCells, OrderOk, StacksOk, Views;
      R.Reaches(model, A.Disable);
      disabled := true;
      model := A.Apply(model, A.Disable);
    }

    /** RegisterTask when there is a manager. */
    method RegisterOnTop(c: Cell)
      requires Valid() && c.Ok() && c.Created() && c.name == -1 && managers != [] && c in repr
      modifies this`managers, this`cells, this`model, c`name
      ensures Valid() && c.Ok() && model == A.Apply(old(model), A.Register)
      ensures cells == old(cells) + [c] && c.name == |old(cells)| && managers == Pushed(old(managers), c)
    {
      hide Within, Cell.Ok, Cell.Created, R.Reachable, PendingCells, CreatedCells, OrderOk, StacksOk, Views;
      hide A.Apply, A.Enabled, A.TimesRun, Pushed;
      ReadyToRegister(model, managers, order, cells, c);
      Name(c);
      managers := Pushed(managers, c);
      cells := cells + [c];
      model := A.Apply(model, A.Register);
    }

    /** Without a manager the registration is dropped. */
    method RegisterCallback(c: Cell)
      requires Valid() && c in repr && c.Ok() && c.Created() && c.name == -1
      modifies this`managers, this`cells, this`model, c`name
      ensures Valid() && c.Ok() && model == A.Apply(old(model), A.Register)
      ensures old(managers) == [] ==> managers == [] && cells == old(cells) && c.name == -1
      ensures old(managers) != [] ==> cells == old(cells) + [c] && c.name == |old(cells)|
      ensures old(managers) != [] ==> managers == Pushed(old(managers), c)
    {
      if managers == [] {
        SameCount(managers, model.managers, cells);
        R.Reaches(model, A.Register);
        model := A.Apply(model, A.Register);
      } else {
        hide Within, Cell.Ok, Cell.Created, R.Reachable, PendingCells, CreatedCells, OrderOk, StacksOk, Views, A.Apply;
        RegisterOnTop(c);
      }
    }

    /** Gives a cell the number of the next registration. */
    ghost method Name(c: Cell)
      requires Within(cells, repr) && c in repr
      requires PendingCells(Views(cells, repr), model.ran) && CreatedCells(cells, Views(cells, repr), model.ran)
      requires A.TimesRun(model.ran, |cells|) == 0 && c.Ok() && c.Created() && c.name == -1
      modifies c`name
      ensures Within(cells + [c], repr) && c.Ok() && c.Created() && c.name == |cells|
      ensures PendingCells(Views(cells + [c], repr), model.ran) && CreatedCells(cells + [c], Views(cells + [c], repr), model.ran)
    {
      hide Cell.Ok, Cell.Created, PendingCells, CreatedCells, Views;
      ghost var views := Views(cells, repr);
      ViewsAt(cells, repr);
      c.SetName(|cells|);
      ghost var after := Views(cells + [c], repr);
      ViewsAt(cells + [c], repr);
      assert forall t :: 0 <= t < |cells| ==> (cells + [c])[t] == cells[t];
      assert after[|cells|] == ViewOf(c);
      CellRegistered(cells, views, after, model.ran, c);
    }

    /** CompleteLazyInstance for an instance that `made` is the pointer of. */
    method Create(c: Cell, made: L.Word)
      requires Valid() && c in repr && c.Ok() && c.word == 0 && L.IsCreatedWord(made)
      modifies this`managers, this`cells, this`model, c
      ensures Valid() && c.Ok() && c.word == made && c.destroyed == old(c.destroyed)
      ensures model == A.Apply(old(model), A.Register)
      ensures old(managers) != [] ==> cells == old(cells) + [c] && managers == Pushed(old(managers), c)
    {
      hide Cell.Ok, L.IsCreatedWord, R.Reachable, A.Apply, StacksOk, OrderOk, PendingCells, CreatedCells, Views;
      ghost var views := Views(cells, repr);
      ViewsAt(cells, repr);
      c.Complete(made);
      ViewsAt(cells, repr);
      CellChanged(cells, views, Views(cells, repr), model.ran, c);
      RegisterCallback(c);
    }

    /** The pointer of the instance, created if need be with what the creator returns and
        then registered for destruction. */
    method GetOrCreate(c: Cell, made: L.Word) returns (w: L.Word)
      requires Valid() && c in repr && c.Ok() && L.IsCreatedWord(made)
      modifies this`managers, this`cells, this`model, c
      ensures Valid() && c.Ok() && w == c.word && L.IsCreatedWord(w) && c.destroyed == old(c.destroyed)
      ensures old(c.word) != 0 ==> w == old(c.word) && cells == old(cells) && managers == old(managers) && model == old(model)
      ensures old(c.word) == 0 ==> w == made && model == A.Apply(old(model), A.Register)
      ensures old(c.word) == 0 && old(managers) != [] ==> cells == old(cells) + [c] && managers == Pushed(old(managers), c)
    {
      hide Cell.Ok, L.IsCreatedWord, R.Reachable, A.Apply, StacksOk, OrderOk, PendingCells, CreatedCells, Views;
      if c.word == 0 {
        Create(c, made);
      } else {
        ghost var views := Views(cells, repr);
        ViewsAt(cells, repr);
        c.Find();
        ViewsAt(cells, repr);
        assert Views(cells, repr) == views;
      }
      w := c.word;
    }

    /** Runs one callback of the pass in progress. */
    method RunOne(c: Cell)
      requires Tied() && c in repr && NextCell(model, cells, c)
      modifies this`order, this`model, c
      ensures Tied() && order == old(order) + [c] && model == A.Apply(old(model), A.RunNext)
      ensures c.Ok() && c.word == 0 && c.destroyed == old(c.destroyed) + 1
    {
      hide L.IsCreatedWord, L.Idle, R.Reachable, A.Apply, A.Enabled, A.TimesRun;
      hide StacksOk, OrderOk, PendingCells, CreatedCells, Views, Within;
      ghost var views := Views(cells, repr);
      ReadyToRun(model, cells, repr, c);
      c.OnExit();
      AfterExit(model, managers, order, cells, repr, views, c);
      order := order + [c];
      model := A.Apply(model, A.RunNext);
    }

    /** One turn of the loop of a pass. */
    method RunTurn(all: seq<Cell>, n: nat, ghost before: map<Cell, (nat, L.Word)>)
      requires Tied() && Distinct(all) && n < |all| && all[n] in repr && NextCell(model, cells, all[n])
      requires Counted(repr, before, all[n + 1..])
      modifies this`order, this`model, all[n]
      ensures Tied() && order == old(order) + [all[n]] && model == A.Apply(old(model), A.RunNext)
      ensures Counted(repr, before, all[n..])
    {
      hide Tied, NextCell, A.Apply, A.Enabled;
      LaterIn(all, n);
      RunOne(all[n]);
    }

    /** The loop over the callbacks a pass took: the cells are destroyed, the last registered
        first; each word returns to 0, and each cell is destroyed exactly once. */
    method RunAll(all: seq<Cell>, ghost before: map<Cell, (nat, L.Word)>)
      requires Tied() && |model.passes| == 1 && Named(all, model.passes[0].tasks, cells)
      requires Counted(repr, before, [])
      modifies this`order, this`model, repr
      ensures Tied() && order == old(order) + Reverse(all)
      ensures |model.passes| == 1 && model == WithTasks(old(model), 0).(ran := model.ran)
      ensures Counted(repr, before, all)
    {
      var n := |all|;
      AllDistinct(all, model, cells, repr);
      AllTasks(model);
      assert forall i :: 0 <= i < |all| ==> all[i] in repr;
      assert all[n..] == [] && order + Reverse<Cell>([]) == order && all[0..] == all;
      hide Counted, Reverse, Distinct, Named, A.Apply, A.Enabled, R.Reachable;
      hide StacksOk, PendingCells, CreatedCells, OrderOk, Views, Within, WithTasks;
      while n > 0
        invariant 0 <= n <= |all| && Tied()
        invariant |model.passes| == 1 && model == WithTasks(old(model), n).(ran := model.ran)
        invariant order == old(order) + Reverse(all[n..])
        invariant Counted(repr, before, all[n..])
      {
        n := n - 1;
        ReverseNext(all, n, old(order));
        RanTasks(old(model), model, n + 1, cells, all);
        RunTurn(all, n, before);
      }
    }

    /** Takes what is waiting in the manager on top and runs it, in a pass that is then over
        but for its end. */
    method TakeAndRun(ghost step: A.Step, ghost before: map<Cell, (nat, L.Word)>)
      requires Valid() && managers != [] && Counted(repr, before, []) && Takes(model, step)
      modifies this`managers, this`order, this`model, repr
      ensures Tied() && managers == Emptied(old(managers))
      ensures order == old(order) + Reverse(old(Top(managers))) && Counted(repr, before, old(Top(managers)))
      ensures A.Enabled(old(model), step)
      ensures var u := A.Apply(old(model), step); |u.passes| == 1 && model == WithTasks(u, 0).(ran := model.ran)
    {
      hide Counted, R.Reachable, A.Apply, A.Enabled, StacksOk, PendingCells, CreatedCells, OrderOk, Views, Within, Reverse;
      TakePass(managers, model, cells, step);
      var all := Top(managers);
      managers := Emptied(managers);
      model := A.Apply(model, step);
      RunAll(all, before);
    }

    /** A whole pass over the manager on top. */
    method RunPass(ghost before: map<Cell, (nat, L.Word)>)
      requires Valid() && managers != [] && Counted(repr, before, [])
      modifies this`managers, this`order, this`model, repr
      ensures Valid() && managers == Emptied(old(managers))
      ensures order == old(order) + Reverse(old(Top(managers))) && Counted(repr, before, old(Top(managers)))
    {
      hide Counted, R.Reachable, A.Apply, A.Enabled, StacksOk, PendingCells, CreatedCells, OrderOk, Views, Within, Reverse, WithTasks;
      ghost var s := model;
      SameCount(managers, model.managers, cells);
      TakesTop(model);
      TakeAndRun(A.Begin, before);
      EndPass(s, model);
      model := A.Apply(model, A.End);
    }

    /** Destroys the instances registered with the manager on top, the last registered
        first: each word returns to 0 and each is destroyed exactly once, and no other cell
        is touched. */
    method ProcessCallbacksNow()
      requires Valid()
      modifies this`managers, this`order, this`model, repr
      ensures Valid()
      ensures old(managers) == [] ==> managers == [] && order == old(order) && forall c :: c in repr ==> unchanged(c)
      ensures old(managers) != [] ==>
                managers == Emptied(old(managers)) && order == old(order) + Reverse(old(Top(managers)))
      ensures old(managers) != [] ==> forall c :: c in repr ==>
                if c in old(Top(managers)) then c.word == 0 && c.destroyed == old(c.destroyed) + 1
                else c.word == old(c.word) && c.destroyed == old(c.destroyed)
    {
      hide Valid, Reverse, Top, Emptied;
      if managers != [] {
        ghost var before := map c | c in repr :: (c.destroyed, c.word);
        RunPass(before);
      }
    }

    /** ~AtExitManager for the manager on top. */
    method DestroyTop()
      requires Valid()
      modifies this`managers, this`order, this`model, repr
      ensures Valid()
      ensures old(managers) == [] ==> managers == [] && order == old(order) && forall c :: c in repr ==> unchanged(c)
      ensures old(managers) != [] ==> managers == old(managers)[..|old(managers)| - 1]
      ensures old(managers) != [] && disabled ==> order == old(order) && forall c :: c in repr ==> unchanged(c)
      ensures old(managers) != [] && !disabled ==> order == old(order) + Reverse(old(Top(managers)))
      ensures old(managers) != [] && !disabled ==> forall c :: c in repr ==>
                if c in old(Top(managers)) then c.word == 0 && c.destroyed == old(c.destroyed) + 1
                else c.word == old(c.word) && c.destroyed == old(c.destroyed)
    {
      if managers != [] {
        if disabled {
          DropTop();
        } else {
          hide Valid, Reverse, Top;
          ghost var before := map c | c in repr :: (c.destroyed, c.word);
          RunFinalPass(before);
        }
      }
    }

    /** The destructor when managers are disabled. */
    method DropTop()
      requires Valid() && managers != [] && disabled
      modifies this`managers, this`model
      ensures Valid() && managers == old(managers)[..|old(managers)| - 1] && model == A.Apply(old(model), A.Destroy)
    {
      DropStack(managers, model, cells);
      hide R.Reachable, A.Apply, A.Enabled, StacksOk, PendingCells, CreatedCells, OrderOk, Views, Within;
      managers := managers[..|managers| - 1];
      model := A.Apply(model, A.Destroy);
    }

    /** The destructor otherwise: the final pass, and then the manager below is on top. */
    method RunFinalPass(ghost before: map<Cell, (nat, L.Word)>)
      requires Valid() && managers != [] && !disabled && Counted(repr, before, [])
      modifies this`managers, this`order, this`model, repr
      ensures Valid() && managers == old(managers)[..|old(managers)| - 1]
      ensures order == old(order) + Reverse(old(Top(managers))) && Counted(repr, before, old(Top(managers)))
    {
      hide Counted, R.Reachable, A.Apply, A.Enabled, StacksOk, PendingCells, CreatedCells, OrderOk, Views, Within, Reverse, WithTasks;
      ghost var s := model;
      SameCount(managers, model.managers, cells);
      TakesTop(model);
      TakeAndRun(A.Destroy, before);
      EndFinalPass(s, model, managers, cells);
      assert managers[..|managers| - 1] == old(managers)[..|managers| - 1];
      managers := managers[..|managers| - 1];
      model := A.Apply(model, A.End);
    }
  }

  /** The cells of `all` have been destroyed once more than `before` says, and are empty; the
      others are as it says. */
  ghost predicate Counted(repr: set<Cell>, before: map<Cell, (nat, L.Word)>, all: seq<Cell>)
    reads repr
  {
    forall c :: c in repr ==>
      && c in before
      && if c in all then c.word == 0 && c.destroyed == before[c].0 + 1 else (c.destroyed, c.word) == before[c]
  }

  lemma LaterIn(all: seq<Cell>, n: nat)
    requires n < |all| && Distinct(all)
    ensures all[n] !in all[n + 1..] && forall c :: c in all[n..] <==> c == all[n] || c in all[n + 1..]
  {
    assert all[n..] == [all[n]] + all[n + 1..];
  }

  lemma ReverseNext(all: seq<Cell>, n: nat, before: seq<Cell>)
    requires n < |all|
    ensures before + Reverse(all[n..]) == before + Reverse(all[n + 1..]) + [all[n]]
  {
    assert all[n..] == [all[n]] + all[n + 1..];
    assert Reverse(all[n..]) == Reverse(all[n + 1..]) + [all[n]];
  }

  function Top(managers: seq<seq<Cell>>): seq<Cell>
    requires managers != []
  {
    managers[|managers| - 1]
  }

  function Emptied(managers: seq<seq<Cell>>): seq<seq<Cell>>
    requires managers != []
  {
    managers[|managers| - 1 := []]
  }

  /** A step that begins a pass over the manager on top. */
  ghost predicate Takes(s: A.State, step: A.Step) {
    s.managers != [] && (step == A.Begin || (step == A.Destroy && !s.disabled))
  }

  lemma TakesTop(s: A.State)
    requires s.managers != []
    ensures Takes(s, A.Begin) && (!s.disabled ==> Takes(s, A.Destroy))
  {
  }

  lemma TakePass(managers: seq<seq<Cell>>, s: A.State, cells: seq<Cell>, step: A.Step)
    requires R.Reachable(s) && s.passes == [] && Takes(s, step)
    requires managers != [] && StacksOk(managers, s.managers, cells)
    ensures A.Enabled(s, step)
    ensures var u := A.Apply(s, step);
      && R.Reachable(u) && |u.passes| == 1 && Named(Top(managers), u.passes[0].tasks, cells)
      && u.home == s.home && u.disabled == s.disabled && u.ran == s.ran
      && StacksOk(Emptied(managers), u.managers, cells)
  {
    R.Reaches(s, step);
    var u := A.Apply(s, step);
    assert u == A.TakeTop(s, step == A.Destroy);
    forall i | 0 <= i < |managers| ensures Named(Emptied(managers)[i], u.managers[i].stack, cells) {
      assert Named(managers[i], s.managers[i].stack, cells);
    }
    assert Named(managers[|managers| - 1], s.managers[|managers| - 1].stack, cells);
  }

  /** The end of a pass made by ProcessCallbacksNow. */
  lemma EndPass(s: A.State, e: A.State)
    requires R.Reachable(e) && s.passes == [] && Takes(s, A.Begin) && A.Enabled(s, A.Begin)
    requires var u := A.Apply(s, A.Begin); |u.passes| == 1 && e == WithTasks(u, 0).(ran := e.ran)
    ensures A.Enabled(e, A.End)
    ensures var r := A.Apply(e, A.End); R.Reachable(r) && r == e.(passes := [])
  {
    assert e.passes == [A.Last(e.passes)] && !e.passes[0].final && e.passes[0].tasks == [];
    R.Reaches(e, A.End);
    assert A.Front(e.passes) == [];
  }

  /** The state at the end of the pass of a destructor. */
  lemma FinalPassOver(s: A.State, e: A.State)
    requires s.passes == [] && Takes(s, A.Destroy) && A.Enabled(s, A.Destroy)
    requires var u := A.Apply(s, A.Destroy); |u.passes| == 1 && e == WithTasks(u, 0).(ran := e.ran)
    ensures e.managers != [] && A.Last(e.managers).stack == []
    ensures e.passes == [A.Pass(e.passes[0].id, A.Last(e.managers).id, [], true)]
  {
    var top := A.Last(s.managers);
    assert A.Apply(s, A.Destroy) == A.TakeTop(s, true);
    assert A.Last(e.managers) == top.(stack := []);
  }

  lemma FinalEnd(e: A.State)
    requires A.Stacked(e.managers) && e.managers != [] && A.Last(e.managers).stack == []
    requires |e.passes| == 1 && e.passes == [A.Pass(e.passes[0].id, A.Last(e.managers).id, [], true)]
    ensures A.Enabled(e, A.End) && A.Apply(e, A.End) == e.(passes := [], managers := A.Front(e.managers))
  {
    var top, ended := A.Last(e.managers), e.(passes := []);
    assert A.Front(e.passes) == [] && A.Last(e.passes) == e.passes[0];
    R.TopGoes(ended);
    hide A.Gone;
    assert A.Apply(e, A.End) == A.Gone(ended, top.id);
    R.WaitingNone([top]);
    assert e.lost + [] == e.lost;
  }

  /** The end of the pass of a destructor: its manager goes, with nothing waiting in it. */
  lemma EndFinalPass(s: A.State, e: A.State, managers: seq<seq<Cell>>, cells: seq<Cell>)
    requires R.Reachable(e) && s.passes == [] && Takes(s, A.Destroy) && A.Enabled(s, A.Destroy)
    requires var u := A.Apply(s, A.Destroy); |u.passes| == 1 && e == WithTasks(u, 0).(ran := e.ran)
    requires managers != [] && StacksOk(managers, e.managers, cells)
    ensures A.Enabled(e, A.End)
    ensures var r := A.Apply(e, A.End);
      && R.Reachable(r) && r == e.(passes := [], managers := r.managers)
      && StacksOk(managers[..|managers| - 1], r.managers, cells)
  {
    FinalPassOver(s, e);
    R.ReachableInv(e);
    FinalEnd(e);
    R.Reaches(e, A.End);
    hide R.Reachable, A.Apply, A.Enabled, A.Inv, WithTasks, Named;
  }

  lemma DropStack(managers: seq<seq<Cell>>, s: A.State, cells: seq<Cell>)
    requires R.Reachable(s) && s.passes == [] && s.disabled && managers != [] && StacksOk(managers, s.managers, cells)
    ensures A.Enabled(s, A.Destroy)
    ensures var r := A.Apply(s, A.Destroy);
      && R.Reachable(r) && r == s.(managers := r.managers, lost := r.lost)
      && StacksOk(managers[..|managers| - 1], r.managers, cells)
  {
    R.Reaches(s, A.Destroy);
    R.ReachableInv(s);
    R.OnlyTopGoes(s);
  }

  lemma AllTasks(s: A.State)
    requires |s.passes| == 1
    ensures WithTasks(s, |s.passes[0].tasks|) == s
  {
    var ts := s.passes[0].tasks;
    assert ts[..|ts|] == ts;
    assert s.passes == [s.passes[0]];
  }

  ghost predicate Distinct(all: seq<Cell>) {
    forall i, j :: 0 <= i < j < |all| ==> all[i] != all[j]
  }

  /** The state with only the first `n` callbacks of the pass still to run. */
  ghost function WithTasks(s: A.State, n: nat): A.State
    requires |s.passes| == 1 && n <= |s.passes[0].tasks|
  {
    s.(passes := [s.passes[0].(tasks := s.passes[0].tasks[..n])])
  }

  function Pushed(managers: seq<seq<Cell>>, c: Cell): (r: seq<seq<Cell>>)
    requires managers != []
    ensures r == managers[..|managers| - 1] + [managers[|managers| - 1] + [c]]
  {
    managers[|managers| - 1 := managers[|managers| - 1] + [c]]
  }

  lemma NewStack(stacks: seq<seq<Cell>>, s: A.State, cells: seq<Cell>)
    requires StacksOk(stacks, s.managers, cells)
    ensures var u := A.Apply(s, A.NewManager);
      StacksOk(stacks + [[]], u.managers, cells) && u == s.(managers := u.managers, managerIds := s.managerIds + 1)
  {
  }

  lemma SameCount(stacks: seq<seq<Cell>>, managers: seq<A.Manager>, cells: seq<Cell>)
    requires StacksOk(stacks, managers, cells)
    ensures |stacks| == |managers|
  {
  }

  lemma Registered(s: A.State)
    ensures var u := A.Apply(s, A.Register);
      && u == s.(managers := u.managers, home := u.home)
      && (s.managers == [] ==> u == s)
      && (s.managers != [] ==> |u.home| == |s.home| + 1)
  {
  }

  lemma ReadyToRegister(s: A.State, managers: seq<seq<Cell>>, order: seq<Cell>, cells: seq<Cell>, c: Cell)
    requires R.Reachable(s) && StacksOk(managers, s.managers, cells) && managers != []
    requires |cells| == |s.home| && OrderOk(order, s.ran, cells)
    ensures A.TimesRun(s.ran, |cells|) == 0 && A.Enabled(s, A.Register)
    ensures var u := A.Apply(s, A.Register);
      && R.Reachable(u) && u == s.(managers := u.managers, home := u.home) && |u.home| == |cells| + 1
      && StacksOk(Pushed(managers, c), u.managers, cells + [c]) && OrderOk(order, u.ran, cells + [c])
  {
    RegisteredNext(s);
    SameCount(managers, s.managers, cells);
    Registered(s);
    R.Reaches(s, A.Register);
    StackPushed(managers, s, cells, c);
    OrderExtended(order, s.ran, cells, c);
  }

  /** Registering pushes the cell on the manager on top. */
  lemma StackPushed(stacks: seq<seq<Cell>>, s: A.State, cells: seq<Cell>, c: Cell)
    requires StacksOk(stacks, s.managers, cells) && |cells| == |s.home| && stacks != []
    ensures StacksOk(Pushed(stacks, c), A.Apply(s, A.Register).managers, cells + [c])
  {
    var ms := A.Apply(s, A.Register).managers;
    forall i | 0 <= i < |stacks| ensures Named(Pushed(stacks, c)[i], ms[i].stack, cells + [c]) {
      assert Named(stacks[i], s.managers[i].stack, cells);
    }
  }

  /** A cell that had no registration gets the next one. */
  lemma CellRegistered(cells: seq<Cell>, before: seq<View>, after: seq<View>, ran: seq<A.Event>, c: Cell)
    requires PendingCells(before, ran) && CreatedCells(cells, before, ran) && A.TimesRun(ran, |cells|) == 0
    requires |after| == |cells| + 1
    requires forall t :: 0 <= t < |cells| ==>
      if cells[t] == c then before[t].name == -1 && after[t] == View(true, true, |cells|) else after[t] == before[t]
    requires after[|cells|] == View(true, true, |cells|)
    ensures PendingCells(after, ran) && CreatedCells(cells + [c], after, ran)
  {
    hide A.TimesRun;
    var all := cells + [c];
    forall t | 0 <= t < |all| && after[t].created && after[t].name != -1
      ensures IsPending(all, ran, after[t].name, all[t])
    {
      if all[t] != c {
        assert IsPending(cells, ran, before[t].name, cells[t]);
      }
    }
  }

  /** Changing a cell keeps its registration, or it had none and has none. */
  lemma CellChanged(cells: seq<Cell>, before: seq<View>, after: seq<View>, ran: seq<A.Event>, c: Cell)
    requires PendingCells(before, ran) && CreatedCells(cells, before, ran) && |after| == |before|
    requires forall t :: 0 <= t < |cells| ==>
      after[t] == before[t] || (cells[t] == c && !before[t].created && after[t].ok && after[t].name == -1)
    ensures PendingCells(after, ran) && CreatedCells(cells, after, ran)
  {
    hide A.TimesRun;
    forall t | 0 <= t < |cells| && after[t].created && after[t].name != -1
      ensures IsPending(cells, ran, after[t].name, cells[t])
    {
      assert IsPending(cells, ran, before[t].name, cells[t]);
    }
  }

  lemma OrderExtended(order: seq<Cell>, ran: seq<A.Event>, cells: seq<Cell>, c: Cell)
    requires OrderOk(order, ran, cells)
    ensures OrderOk(order, ran, cells + [c])
  {
  }

  /** `c` is the cell of the next callback of the only pass in progress. */
  ghost predicate NextCell(s: A.State, cells: seq<Cell>, c: Cell) {
    && |s.passes| == 1 && s.passes[0].tasks != []
    && A.Last(s.passes[0].tasks) < |cells| && c == cells[A.Last(s.passes[0].tasks)]
  }

  /** Its destructor is registered and has not run. */
  lemma ReadyToRun(s: A.State, cells: seq<Cell>, repr: set<Cell>, c: Cell)
    requires R.Reachable(s) && Within(cells, repr) && NextCell(s, cells, c) && PendingCells(Views(cells, repr), s.ran)
    ensures c.Ok() && c.lazy.registered == 1 && A.Enabled(s, A.RunNext)
    ensures SameViews(cells, Views(cells, repr))
    ensures forall t :: 0 <= t < |cells| ==> Views(cells, repr)[t] == ViewOf(cells[t])
  {
    var t := A.Last(s.passes[0].tasks);
    PassNotRun(s, t);
    PendingCell(cells, repr, s.ran, t);
    L.IdleWord(c.lazy);
    ViewsAt(cells, repr);
  }

  lemma AfterExit(s: A.State, managers: seq<seq<Cell>>, order: seq<Cell>, cells: seq<Cell>, repr: set<Cell>, views: seq<View>, c: Cell)
    requires R.Reachable(s) && Within(cells, repr) && NextCell(s, cells, c) && A.Enabled(s, A.RunNext)
    requires StacksOk(managers, s.managers, cells) && OrderOk(order, s.ran, cells)
    requires PendingCells(views, s.ran) && CreatedCells(cells, views, s.ran) && SameViews(cells, views)
    requires forall t :: 0 <= t < |cells| && cells[t] != c ==> ViewOf(cells[t]) == views[t]
    requires c.Ok() && c.word == 0 && c.name == -1
    ensures var u := A.Apply(s, A.RunNext);
      && R.Reachable(u) && |u.home| == |s.home| && u.disabled == s.disabled
      && StacksOk(managers, u.managers, cells) && OrderOk(order + [c], u.ran, cells)
      && PendingCells(Views(cells, repr), u.ran) && CreatedCells(cells, Views(cells, repr), u.ran)
  {
    var t := A.Last(s.passes[0].tasks);
    PassNotRun(s, t);
    R.Reaches(s, A.RunNext);
    RanNext(s);
    ViewsAt(cells, repr);
    assert ViewOf(c) == View(true, false, -1);
    hide R.Reachable, StacksOk, PendingCells, CreatedCells, OrderOk, A.Apply, Views, ViewOf, A.TimesRun;
    CellRun(cells, views, Views(cells, repr), s, t, c);
    OrderRun(order, s, cells, t, c);
  }

  /** A callback taken by the pass in progress has not been run. */
  lemma PassNotRun(s: A.State, t: nat)
    requires R.Reachable(s) && s.passes != [] && t in A.Last(s.passes).tasks
    ensures A.TimesRun(s.ran, t) == 0 && t < |s.home|
  {
    R.ReachableInv(s);
    assert A.Places(s, t) <= 1;
    A.OccursIn(A.Last(s.passes).tasks, t);
  }

  lemma RanNext(s: A.State)
    requires |s.passes| == 1 && s.passes[0].tasks != []
    ensures A.Enabled(s, A.RunNext)
    ensures var p := s.passes[0];
      A.Apply(s, A.RunNext) == WithTasks(s, |p.tasks| - 1).(ran := s.ran + [A.Ran(p.id, p.manager, A.Last(p.tasks))])
  {
    assert A.Front(s.passes) == [];
  }

  lemma PendingCell(cells: seq<Cell>, repr: set<Cell>, ran: seq<A.Event>, t: nat)
    requires Within(cells, repr)
    requires PendingCells(Views(cells, repr), ran) && t < |cells| && A.TimesRun(ran, t) == 0
    ensures cells[t].Ok() && cells[t].name == t && cells[t].Created()
  {
    ViewsAt(cells, repr);
    hide Views, A.TimesRun, Cell.Ok;
    assert Views(cells, repr)[t] == ViewOf(cells[t]);
  }

  ghost predicate SameViews(cells: seq<Cell>, views: seq<View>) {
    |views| == |cells| && forall i, j :: 0 <= i < |cells| && 0 <= j < |cells| && cells[i] == cells[j] ==> views[i] == views[j]
  }

  /** Running a registration ends it, and no other. */
  lemma CellRun(cells: seq<Cell>, before: seq<View>, after: seq<View>, s: A.State, t: nat, c: Cell)
    requires PendingCells(before, s.ran) && CreatedCells(cells, before, s.ran) && |after| == |before|
    requires t < |cells| && cells[t] == c && A.TimesRun(s.ran, t) == 0
    requires forall i :: 0 <= i < |cells| ==> after[i] == if cells[i] == c then View(true, false, -1) else before[i]
    requires SameViews(cells, before)
    requires |s.passes| == 1 && s.passes[0].tasks != [] && A.Last(s.passes[0].tasks) == t
    ensures var ran := A.Apply(s, A.RunNext).ran; PendingCells(after, ran) && CreatedCells(cells, after, ran)
  {
    var u := A.Apply(s, A.RunNext);
    var e := A.Last(u.ran);
    assert u.ran == s.ran + [e] && e.task == t;
    forall i: nat ensures A.TimesRun(u.ran, i) == A.TimesRun(s.ran, i) + if i == t then 1 else 0 {
      A.PutLast([], A.Manager(0, []), [], A.Pass(0, 0, [], false), s.ran, e, i);
    }
    hide A.TimesRun, A.Apply;
    forall i | 0 <= i < |after|
      ensures after[i].ok && (A.TimesRun(u.ran, i) == 0 ==> after[i].name == i && after[i].created)
    {
      assert A.TimesRun(u.ran, i) == A.TimesRun(s.ran, i) + if i == t then 1 else 0;
      assert before[t].name == t;
      if cells[i] == c && A.TimesRun(s.ran, i) == 0 {
        assert before[i].name == i;
        assert before[i] == before[t];
      }
    }
    forall i | 0 <= i < |cells| && after[i].created && after[i].name != -1
      ensures IsPending(cells, u.ran, after[i].name, cells[i])
    {
      assert IsPending(cells, s.ran, before[i].name, cells[i]);
    }
  }

  lemma OrderRun(order: seq<Cell>, s: A.State, cells: seq<Cell>, t: nat, c: Cell)
    requires OrderOk(order, s.ran, cells) && t < |cells| && cells[t] == c
    requires |s.passes| == 1 && s.passes[0].tasks != [] && A.Last(s.passes[0].tasks) == t
    ensures OrderOk(order + [c], A.Apply(s, A.RunNext).ran, cells)
  {
  }

  /** The cells a pass took are different objects: each has the number of its own
      registration. */
  lemma AllDistinct(all: seq<Cell>, s: A.State, cells: seq<Cell>, repr: set<Cell>)
    requires R.Reachable(s) && |s.passes| == 1 && Named(all, s.passes[0].tasks, cells)
    requires Within(cells, repr) && PendingCells(Views(cells, repr), s.ran)
    ensures Distinct(all)
  {
    var ts := s.passes[0].tasks;
    R.ReachableInv(s);
    assert A.PassOk(s, s.passes[0]);
    forall i, j | 0 <= i < j < |all| ensures all[i] != all[j] {
      PassNotRun(s, ts[i]);
      PassNotRun(s, ts[j]);
      PendingCell(cells, repr, s.ran, ts[i]);
      PendingCell(cells, repr, s.ran, ts[j]);
    }
  }

  lemma RanTasks(s: A.State, u: A.State, n: nat, cells: seq<Cell>, all: seq<Cell>)
    requires |s.passes| == 1 && 0 < n <= |s.passes[0].tasks| && |u.passes| == 1
    requires u == WithTasks(s, n).(ran := u.ran) && Named(all, s.passes[0].tasks, cells)
    ensures NextCell(u, cells, all[n - 1]) && A.Enabled(u, A.RunNext)
    ensures var v := A.Apply(u, A.RunNext); |v.passes| == 1 && v == WithTasks(s, n - 1).(ran := v.ran)
  {
    assert u.passes[0].tasks == s.passes[0].tasks[..n];
    RanNext(u);
    assert s.passes[0].tasks[..n][..n - 1] == s.passes[0].tasks[..n - 1];
  }

  /** The next registration has not been run. */
  lemma RegisteredNext(s: A.State)
    requires R.Reachable(s)
    ensures A.TimesRun(s.ran, |s.home|) == 0
  {
    R.ReachableInv(s);
    assert A.Places(s, |s.home|) == 0;
  }
}
