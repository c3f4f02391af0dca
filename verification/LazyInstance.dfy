/** GetOrCreateLazyPointer raced by any number of callers.

    Each access to the shared word is one step; steps of different callers interleave
    freely.  A caller is a call in progress, so a thread that calls twice is two callers.
    The creator function may return any pointer with a bit other than bit 0 set. */
module LazyInstance {

  type Word = bv64

  const CREATING: Word := 1

  /** Any bit of the created mask is set. */
  predicate IsCreatedWord(w: Word) {
    w & !CREATING != 0
  }

  /** A word other than 0 (nobody came yet) and 1 (somebody is creating) is a pointer. */
  lemma CreatedMask(w: Word)
    ensures IsCreatedWord(w) <==> w != 0 && w != 1
    ensures CREATING == 1
  {
  }

  /** Where a caller stands, named by what it does next. */
  datatype Caller =
    | FirstLoad
    | CompareAndSwap
    | CheckLoad
    | SpinLoad
    | FinalLoad
    | RunCreator
    | Store(made: Word)
    | Register(made: Word)
    | Returned(result: Word)

  /** `creations` counts the runs of the creator since the word was last 0 with nobody in
      the protocol, and `registered` the destructors registered for this instance with the
      AtExitManager and not yet run. */
  datatype State = State(word: Word, callers: seq<Caller>, creations: nat, registered: nat, atExit: bool)

  function Init(atExit: bool): State {
    State(0, [], 0, 0, atExit)
  }

  /** What a caller does next once its step, which sees `word`, is taken; `made` is what
      the creator returns if this step runs it. */
  function NextCaller(word: Word, c: Caller, made: Word): Caller
    requires !c.Returned?
  {
    match c
    case FirstLoad => if IsCreatedWord(word) then Returned(word) else CompareAndSwap
    case CompareAndSwap => if word == 0 then RunCreator else CheckLoad
    case CheckLoad => if word == CREATING then SpinLoad else FinalLoad
    case SpinLoad => if word == CREATING then SpinLoad else FinalLoad
    case FinalLoad => Returned(word)
    case RunCreator => Store(made)
    case Store(m) => Register(m)
    case Register(m) => Returned(m)
  }

  /** What the step leaves in the word: only the compare-and-swap and the store write. */
  function NextWord(word: Word, c: Caller): Word {
    if c.CompareAndSwap? && word == 0 then CREATING
    else if c.Store? then c.made
    else word
  }

  function One(b: bool): nat {
    if b then 1 else 0
  }

  function Next(s: State, i: nat, made: Word): State
    requires i < |s.callers| && !s.callers[i].Returned?
  {
    var c := s.callers[i];
    State(NextWord(s.word, c),
          s.callers[i := NextCaller(s.word, c, made)],
          s.creations + One(c.RunCreator?),
          s.registered + One(c.Register? && c.made != 0 && s.atExit),
          s.atExit)
  }

  /** A step that only waits for another caller. */
  predicate Spins(s: State, i: nat)
    requires i < |s.callers|
  {
    s.callers[i] == SpinLoad && s.word == CREATING
  }

  datatype Step =
    | Call
    | Move(caller: nat, made: Word)
    | OnExit

  /** OnExit runs as a registered callback, when no call is in progress; it destroys the
      instance and clears the word, and the calls that returned before are over. */
  predicate Enabled(s: State, step: Step) {
    match step
    case Call => true
    case Move(i, made) => i < |s.callers| && !s.callers[i].Returned? && IsCreatedWord(made)
    case OnExit => s.registered > 0 && forall i :: 0 <= i < |s.callers| ==> s.callers[i].Returned?
  }

  function Apply(s: State, step: Step): State
    requires Enabled(s, step)
  {
    match step
    case Call => s.(callers := s.callers + [FirstLoad])
    case Move(i, made) => Next(s, i, made)
    case OnExit => State(0, [], 0, s.registered - 1, s.atExit)
  }

  // ----------------------------------------------------------------- counting

  function Count(callers: seq<Caller>, weight: Caller -> nat): nat {
    if callers == [] then 0
    else Count(callers[..|callers| - 1], weight) + weight(callers[|callers| - 1])
  }

  lemma {:induction false} CountUpdate(callers: seq<Caller>, i: nat, c: Caller, weight: Caller -> nat)
    requires i < |callers|
    ensures Count(callers[i := c], weight) + weight(callers[i]) == Count(callers, weight) + weight(c)
    ensures weight(callers[i]) <= Count(callers, weight)
  {
    var n := |callers| - 1;
    if i == n {
      assert callers[i := c][..n] == callers[..n];
    } else {
      assert callers[i := c][..n] == callers[..n][i := c];
      CountUpdate(callers[..n], i, c, weight);
    }
  }

  lemma CountAppend(callers: seq<Caller>, c: Caller, weight: Caller -> nat)
    ensures Count(callers + [c], weight) == Count(callers, weight) + weight(c)
  {
    assert (callers + [c])[..|callers|] == callers;
  }

  lemma {:induction false} CountNone(callers: seq<Caller>, weight: Caller -> nat)
    ensures Count(callers, weight) == 0 <==> forall i :: 0 <= i < |callers| ==> weight(callers[i]) == 0
  {
    if callers != [] {
      CountNone(callers[..|callers| - 1], weight);
    }
  }

  lemma {:induction false} CountTwo(callers: seq<Caller>, i: nat, j: nat, weight: Caller -> nat)
    requires i < j < |callers|
    ensures weight(callers[i]) + weight(callers[j]) <= Count(callers, weight)
  {
    var n := |callers| - 1;
    if j == n {
      CountUpdate(callers[..n], i, FirstLoad, weight);
    } else {
      CountTwo(callers[..n], i, j, weight);
    }
  }

  // -------------------------------------------------------------- invariant

  /** Between the winning compare-and-swap and the store. */
  function Owns(c: Caller): nat {
    if c.RunCreator? || c.Store? then 1 else 0
  }

  function Stores(c: Caller): nat {
    if c.Store? then 1 else 0
  }

  function Registers(c: Caller): nat {
    if c.Register? then 1 else 0
  }

  /** What one caller may be doing, given the shared word. */
  predicate CallerOk(word: Word, c: Caller) {
    match c
    case FirstLoad => true
    case CompareAndSwap => true
    case CheckLoad => word != 0
    case SpinLoad => word != 0
    case FinalLoad => IsCreatedWord(word)
    case RunCreator => word == CREATING
    case Store(m) => word == CREATING && IsCreatedWord(m)
    case Register(m) => word == m && IsCreatedWord(m)
    case Returned(m) => word == m && IsCreatedWord(m)
  }

  /** What every reachable state satisfies. */
  ghost predicate Inv(s: State) {
    && (forall i :: 0 <= i < |s.callers| ==> CallerOk(s.word, s.callers[i]))
    && Count(s.callers, Owns) == One(s.word == CREATING)
    && s.creations == One(IsCreatedWord(s.word)) + Count(s.callers, Stores)
    && Count(s.callers, Registers) + s.registered <= One(IsCreatedWord(s.word))
    && (s.atExit ==> Count(s.callers, Registers) + s.registered == One(IsCreatedWord(s.word)))
    && (!s.atExit ==> s.registered == 0)
  }

  lemma CountMove(s: State, i: nat, c: Caller)
    requires i < |s.callers|
    ensures Count(s.callers[i := c], Owns) + Owns(s.callers[i]) == Count(s.callers, Owns) + Owns(c)
    ensures Count(s.callers[i := c], Stores) + Stores(s.callers[i]) == Count(s.callers, Stores) + Stores(c)
    ensures Count(s.callers[i := c], Registers) + Registers(s.callers[i]) == Count(s.callers, Registers) + Registers(c)
    ensures Owns(s.callers[i]) <= Count(s.callers, Owns)
    ensures Registers(s.callers[i]) <= Count(s.callers, Registers)
  {
    CountUpdate(s.callers, i, c, Owns);
    CountUpdate(s.callers, i, c, Stores);
    CountUpdate(s.callers, i, c, Registers);
  }

  /** When the word is claimed, or then holds a made instance, the callers that do not own
      it still stand where they may. */
  lemma OthersOk(c: Caller, made: Word)
    requires IsCreatedWord(made)
    ensures CallerOk(0, c) ==> CallerOk(CREATING, c)
    ensures CallerOk(CREATING, c) && Owns(c) == 0 ==> CallerOk(made, c)
  {
    CreatedMask(0);
    CreatedMask(CREATING);
    CreatedMask(made);
    hide IsCreatedWord;
  }

  /** Where the caller that moves may stand afterwards. */
  lemma MoverOk(word: Word, c: Caller, made: Word)
    requires CallerOk(word, c) && !c.Returned? && IsCreatedWord(made)
    ensures CallerOk(NextWord(word, c), NextCaller(word, c, made))
  {
    CreatedMask(word);
    hide IsCreatedWord;
  }

  lemma OthersStayOk(s: State, i: nat, made: Word, j: nat)
    requires Inv(s) && i < |s.callers| && !s.callers[i].Returned? && IsCreatedWord(made)
    requires j < |s.callers| && j != i
    ensures CallerOk(Next(s, i, made).word, s.callers[j])
  {
    hide IsCreatedWord, Count;
    assert CallerOk(s.word, s.callers[j]) && CallerOk(s.word, s.callers[i]);
    if s.callers[i].Store? {
      OthersOk(s.callers[j], s.callers[i].made);
      if i < j { CountTwo(s.callers, i, j, Owns); } else { CountTwo(s.callers, j, i, Owns); }
    } else {
      OthersOk(s.callers[j], made);
    }
  }

  lemma MoveKeepsCounts(s: State, i: nat, made: Word)
    requires Inv(s) && i < |s.callers| && !s.callers[i].Returned? && IsCreatedWord(made)
    ensures var t := Next(s, i, made);
            && Count(t.callers, Owns) == One(t.word == CREATING)
            && t.creations == One(IsCreatedWord(t.word)) + Count(t.callers, Stores)
            && Count(t.callers, Registers) + t.registered <= One(IsCreatedWord(t.word))
            && (t.atExit ==> Count(t.callers, Registers) + t.registered == One(IsCreatedWord(t.word)))
            && (!t.atExit ==> t.registered == 0)
  {
    CreatedMask(s.word);
    CreatedMask(CREATING);
    hide IsCreatedWord, Count;
    var t := Next(s, i, made);
    assert CallerOk(s.word, s.callers[i]);
    if s.callers[i].Store? || s.callers[i].Register? { CreatedMask(s.callers[i].made); }
    CountMove(s, i, NextCaller(s.word, s.callers[i], made));
  }

  lemma MoveKeepsInv(s: State, i: nat, made: Word)
    requires Inv(s) && i < |s.callers| && !s.callers[i].Returned? && IsCreatedWord(made)
    ensures Inv(Next(s, i, made))
  {
    hide IsCreatedWord, Count, CallerOk, NextCaller, NextWord;
    var t := Next(s, i, made);
    assert CallerOk(s.word, s.callers[i]);
    MoverOk(s.word, s.callers[i], made);
    MoveKeepsCounts(s, i, made);
    forall j | 0 <= j < |t.callers|
      ensures CallerOk(t.word, t.callers[j])
    {
      if j != i { OthersStayOk(s, i, made, j); }
    }
  }

  lemma StepKeepsInv(s: State, step: Step)
    requires Inv(s) && Enabled(s, step)
    ensures Inv(Apply(s, step))
  {
    CreatedMask(0);
    hide IsCreatedWord;
    match step
    case Call =>
      CountAppend(s.callers, FirstLoad, Owns);
      CountAppend(s.callers, FirstLoad, Stores);
      CountAppend(s.callers, FirstLoad, Registers);
    case Move(i, made) => MoveKeepsInv(s, i, made);
    case OnExit =>
      CreatedMask(s.word);
  }

  // -------------------------------------------------------------------- runs

  /** A run from the start: `states[k + 1]` follows `states[k]` by `steps[k]`. */
  ghost predicate Run(atExit: bool, steps: seq<Step>, states: seq<State>) {
    && |states| == |steps| + 1 && states[0] == Init(atExit)
    && forall k :: 0 <= k < |steps| ==> Enabled(states[k], steps[k]) && states[k + 1] == Apply(states[k], steps[k])
  }

  lemma {:induction false} RunKeepsInv(atExit: bool, steps: seq<Step>, states: seq<State>, k: nat)
    requires Run(atExit, steps, states) && k <= |steps|
    ensures Inv(states[k]) && states[k].atExit == atExit
  {
    CreatedMask(0);
    hide IsCreatedWord;
    if k > 0 {
      hide Inv;
      RunKeepsInv(atExit, steps, states, k - 1);
      StepKeepsInv(states[k - 1], steps[k - 1]);
    }
  }

  ghost predicate OnlyOwner(s: State, i: int) {
    && 0 <= i < |s.callers| && Owns(s.callers[i]) == 1
    && forall j :: 0 <= j < |s.callers| && Owns(s.callers[j]) == 1 ==> j == i
  }

  /** In every reachable state: the word says "creating" if and only if exactly one caller
      is between its winning compare-and-swap and its store; the creator has run at most
      once since the word was last cleared; whoever has returned got the pointer the word
      holds, and nobody is creating any more; and exactly one destructor is registered, or
      about to be, for a created instance that asks for one. */
  lemma ReachableStates(atExit: bool, steps: seq<Step>, states: seq<State>, k: nat)
    requires Run(atExit, steps, states) && k <= |steps|
    ensures var s := states[k];
            && (s.word == CREATING <==> exists i :: OnlyOwner(s, i))
            && (s.word != CREATING ==> forall i :: 0 <= i < |s.callers| ==> Owns(s.callers[i]) == 0)
            && s.creations <= 1
            && (forall i :: 0 <= i < |s.callers| && s.callers[i].Returned? ==>
                  s.callers[i].result == s.word && IsCreatedWord(s.word) && s.creations == 1)
            && (atExit ==> s.registered + Count(s.callers, Registers) == One(IsCreatedWord(s.word)))
  {
    RunKeepsInv(atExit, steps, states, k);
    var s := states[k];
    CreatedMask(s.word);
    hide IsCreatedWord;
    assert forall i :: 0 <= i < |s.callers| ==> CallerOk(s.word, s.callers[i]);
    StoresAreOwners(s.callers);
    CountNone(s.callers, Owns);
    if s.word == CREATING {
      var i :| 0 <= i < |s.callers| && Owns(s.callers[i]) != 0;
      forall j | 0 <= j < |s.callers| && Owns(s.callers[j]) == 1
        ensures j == i
      {
        if j < i { CountTwo(s.callers, j, i, Owns); } else if i < j { CountTwo(s.callers, i, j, Owns); }
      }
      assert OnlyOwner(s, i);
    }
  }

  lemma {:induction false} StoresAreOwners(callers: seq<Caller>)
    ensures Count(callers, Stores) <= Count(callers, Owns)
  {
    if callers != [] {
      StoresAreOwners(callers[..|callers| - 1]);
    }
  }

  // ---------------------------------------------------------------- progress

  /** An upper bound on the steps, other than spinning, that a caller still takes. */
  function Remaining(c: Caller): nat {
    match c
    case FirstLoad => 5
    case CompareAndSwap => 4
    case CheckLoad => 3
    case SpinLoad => 2
    case FinalLoad => 1
    case RunCreator => 3
    case Store(_) => 2
    case Register(_) => 1
    case Returned(_) => 0
  }

  function Measure(s: State): nat {
    Count(s.callers, Remaining)
  }

  /** The protocol never gets stuck: while some caller has not returned, some caller can
      take a step that is not spinning. */
  lemma NeverStuck(s: State, i: nat) returns (j: nat)
    requires Inv(s) && i < |s.callers| && !s.callers[i].Returned?
    ensures j < |s.callers| && !s.callers[j].Returned? && !Spins(s, j)
  {
    if Spins(s, i) {
      CountNone(s.callers, Owns);
      j :| 0 <= j < |s.callers| && Owns(s.callers[j]) != 0;
    } else {
      j := i;
    }
  }

  /** Every step that is not spinning strictly decreases the measure, and spinning changes
      nothing at all. */
  lemma StepDecreases(s: State, i: nat, made: Word)
    requires i < |s.callers| && !s.callers[i].Returned?
    ensures if Spins(s, i) then Next(s, i, made) == s else Measure(Next(s, i, made)) < Measure(s)
  {
    hide IsCreatedWord, Count;
    CountUpdate(s.callers, i, NextCaller(s.word, s.callers[i], made), Remaining);
  }

  /** A caller waits for another one only after it lost the compare-and-swap and then saw the
      instance being created. */
  lemma WaitsOnlyWhileCreating(s: State, i: nat, made: Word)
    requires i < |s.callers| && !s.callers[i].Returned?
    ensures Next(s, i, made).callers[i] == SpinLoad <==>
      s.word == 1 && (s.callers[i] == CheckLoad || s.callers[i] == SpinLoad)
    ensures Next(s, i, made).callers[i] == CheckLoad <==> s.word != 0 && s.callers[i] == CompareAndSwap
  {
  }

  /** The steps of a stretch of a run that are not spinning. */
  function Work(steps: seq<Step>, states: seq<State>): nat
    requires |states| == |steps| + 1
    decreases |steps|
  {
    if steps == [] then 0
    else
      (if steps[0].Move? && steps[0].caller < |states[0].callers| && !Spins(states[0], steps[0].caller) then 1 else 0)
      + Work(steps[1..], states[1..])
  }

  /** From any state, until another call arrives, at most Measure steps other than spinning
      are taken, in every interleaving. */
  lemma {:induction false} BoundedWork(steps: seq<Step>, states: seq<State>)
    requires |states| == |steps| + 1
    requires forall k :: 0 <= k < |steps| ==>
               steps[k].Move? && Enabled(states[k], steps[k]) && states[k + 1] == Apply(states[k], steps[k])
    ensures Work(steps, states) + Measure(states[|steps|]) <= Measure(states[0])
    decreases |steps|
  {
    hide IsCreatedWord, Count;
    if steps != [] {
      StepDecreases(states[0], steps[0].caller, steps[0].made);
      assert states[1] == Apply(states[0], steps[0]);
      BoundedWork(steps[1..], states[1..]);
    }
  }

  /** If all calls have returned, the instance exists, and everyone got the same pointer. */
  lemma AllReturned(atExit: bool, steps: seq<Step>, states: seq<State>, k: nat, i: nat, j: nat)
    requires Run(atExit, steps, states) && k <= |steps|
    requires i < |states[k].callers| && j < |states[k].callers|
    requires states[k].callers[i].Returned? && states[k].callers[j].Returned?
    ensures states[k].callers[i].result == states[k].callers[j].result == states[k].word
    ensures IsCreatedWord(states[k].word) && states[k].creations == 1
  {
    hide IsCreatedWord;
    ReachableStates(atExit, steps, states, k);
  }

  // ---------------------------------------------------------- one call at a time

  ghost predicate Idle(s: State) {
    Inv(s) && forall i :: 0 <= i < |s.callers| ==> s.callers[i].Returned?
  }

  /** The steps of a call that finds the word empty and meets no other caller. */
  function CreatingCall(s: State, made: Word): seq<Step> {
    var move := Move(|s.callers|, made);
    [Call, move, move, move, move, move]
  }

  ghost predicate Leads(s: State, steps: seq<Step>, r: State)
    decreases |steps|
  {
    if steps == [] then r == s else Enabled(s, steps[0]) && Leads(Apply(s, steps[0]), steps[1..], r)
  }

  function WithCaller(s: State, c: Caller): State {
    s.(callers := s.callers + [c])
  }

  lemma MoveLast(s: State, c: Caller, made: Word)
    requires !c.Returned? && IsCreatedWord(made)
    ensures Enabled(WithCaller(s, c), Move(|s.callers|, made))
    ensures Apply(WithCaller(s, c), Move(|s.callers|, made)) ==
      WithCaller(State(NextWord(s.word, c), s.callers, s.creations + One(c.RunCreator?),
                       s.registered + One(c.Register? && c.made != 0 && s.atExit), s.atExit),
                 NextCaller(s.word, c, made))
  {
    hide IsCreatedWord;
  }

  lemma LeadsOn(s: State, step: Step, steps: seq<Step>, r: State)
    requires Enabled(s, step) && Leads(Apply(s, step), steps, r)
    ensures Leads(s, [step] + steps, r)
  {
    assert ([step] + steps)[1..] == steps;
  }

  lemma {:induction false} LeadsKeepsInv(s: State, steps: seq<Step>, r: State)
    requires Inv(s) && Leads(s, steps, r)
    ensures Inv(r)
    decreases |steps|
  {
    hide Enabled, Apply, Inv;
    if steps != [] {
      StepKeepsInv(s, steps[0]);
      LeadsKeepsInv(Apply(s, steps[0]), steps[1..], r);
    }
  }

  /** Where the creating call stands after `n` of its own steps, and the state around it. */
  function Phase(made: Word, n: nat): Caller {
    match n
    case 0 => FirstLoad
    case 1 => CompareAndSwap
    case 2 => RunCreator
    case 3 => Store(made)
    case 4 => Register(made)
    case _ => Returned(made)
  }

  function Around(s: State, made: Word, n: nat): State {
    s.(word := if n < 2 then s.word else if n < 4 then CREATING else made,
       creations := s.creations + One(n > 2), registered := s.registered + One(n > 4))
  }

  function Halfway(s: State, made: Word, n: nat): State {
    WithCaller(Around(s, made, n), Phase(made, n))
  }

  lemma HalfwayMoves(s: State, made: Word, n: nat)
    requires n < 5 && s.word == 0 && IsCreatedWord(made) && s.atExit
    ensures Enabled(Halfway(s, made, n), Move(|s.callers|, made))
    ensures Apply(Halfway(s, made, n), Move(|s.callers|, made)) == Halfway(s, made, n + 1)
  {
    CreatedMask(0);
    CreatedMask(made);
    hide IsCreatedWord, WithCaller, Apply, Enabled;
    MoveLast(Around(s, made, n), Phase(made, n), made);
  }

  lemma {:induction false} HalfwayLeads(s: State, made: Word, n: nat)
    requires n <= 5 && s.word == 0 && IsCreatedWord(made) && s.atExit
    ensures Leads(Halfway(s, made, n), seq(5 - n, _ => Move(|s.callers|, made)), Halfway(s, made, 5))
    decreases 5 - n
  {
    hide IsCreatedWord, Halfway, Enabled, Apply;
    if n < 5 {
      var m := Move(|s.callers|, made);
      HalfwayLeads(s, made, n + 1);
      HalfwayMoves(s, made, n);
      var rest := seq(5 - n - 1, _ => m);
      LeadsOn(Halfway(s, made, n), m, rest, Halfway(s, made, 5));
      assert [m] + rest == seq(5 - n, _ => m);
    }
  }

  lemma IdleWord(s: State)
    requires Idle(s)
    ensures s.word == 0 || IsCreatedWord(s.word)
    ensures s.atExit ==> s.registered == One(s.word != 0)
  {
    CreatedMask(s.word);
    hide IsCreatedWord;
    CountNone(s.callers, Owns);
    CountNone(s.callers, Registers);
  }

  lemma EmptyNotRegistered(s: State)
    requires Inv(s) && s.word == 0
    ensures s.registered == 0
  {
  }

  /** Such a call stores what the creator made, registers its destructor once and returns
      the pointer. */
  lemma CreatesAlone(s: State, made: Word) returns (r: State)
    requires Idle(s) && s.word == 0 && IsCreatedWord(made) && s.atExit
    ensures Leads(s, CreatingCall(s, made), r) && Idle(r) && r.atExit
    ensures s.registered == 0 && r.registered == 1 && r.word == made
  {
    hide IsCreatedWord, Leads, Inv, Enabled;
    EmptyNotRegistered(s);
    r := Halfway(s, made, 5);
    var m := Move(|s.callers|, made);
    HalfwayLeads(s, made, 0);
    CallAppends(s);
    var moves := seq(5, _ => m);
    LeadsOn(s, Call, moves, r);
    assert CreatingCall(s, made) == [Call] + moves;
    LeadsKeepsInv(s, CreatingCall(s, made), r);
  }

  lemma CallAppends(s: State)
    ensures Enabled(s, Call) && Apply(s, Call) == WithCaller(s, FirstLoad)
  {
  }

  /** A call that finds the instance returns it and changes nothing else. */
  lemma FindsAlone(s: State) returns (r: State)
    requires Idle(s) && IsCreatedWord(s.word)
    ensures Leads(s, [Call, Move(|s.callers|, s.word)], r) && Idle(r)
    ensures r == WithCaller(s, Returned(s.word))
  {
    hide IsCreatedWord;
    r := WithCaller(s, Returned(s.word));
    MoveLast(s, FirstLoad, s.word);
    var m := Move(|s.callers|, s.word);
    LeadsOn(WithCaller(s, FirstLoad), m, [], r);
    CallAppends(s);
    LeadsOn(s, Call, [m], r);
    assert [Call, m] == [Call] + [m];
    LeadsKeepsInv(s, [Call, m], r);
  }
}
