/** Racing initialization of a cached value (relay-common/src/cell.rs, `UpsertingLazyCell`).

    The underlying atomic cell is empty, locked while one caller stores a value, or filled. Any number of
    calls to `get_or_insert_with` are under way at the same time and take their steps in any order. */
module LazyCells {
  /** The identity of one call. */
  datatype Call = Call(number: nat)

  datatype Cell<T> = Empty | Locked(owner: Call) | Filled(value: T)

  /** Where a call stands. `Borrowing` is the second look at the cell after storing the value. */
  datatype Progress<T> =
    | Started
    | Computing
    | Storing(own: T)
    | Holding(own: T)
    | Borrowing
    | Borrowed(result: T)
    | Owned(result: T)
    | Unreachable

  /** `calls` maps the calls made so far to their progress. */
  datatype State<T> = State(cell: Cell<T>, calls: map<Call, Progress<T>>)

  function Initial<T>(): State<T> { State(Empty, map[]) }

  function At<T>(s: State<T>, c: Call, p: Progress<T>): State<T> { s.(calls := s.calls[c := p]) }

  /** The state after call `c` takes its next step, where its closure would return `own`. */
  function Step<T>(s: State<T>, c: Call, own: T): State<T> {
    if c !in s.calls then At(s, c, Started) else
      match s.calls[c]
      case Started =>
        if s.cell.Filled? then At(s, c, Borrowed(s.cell.value)) else At(s, c, Computing)
      case Computing => At(s, c, Storing(own))
      case Storing(value) =>
        if s.cell.Empty? then At(s.(cell := Locked(c)), c, Holding(value)) else At(s, c, Owned(value))
      case Holding(value) => At(s.(cell := Filled(value)), c, Borrowing)
      case Borrowing =>
        if s.cell.Filled? then At(s, c, Borrowed(s.cell.value)) else At(s, c, Unreachable)
      case _ => s
  }

  /** The state after a sequence of steps by the given calls. */
  function Run<T>(schedule: seq<Call>, closure: Call -> T): State<T> {
    if schedule == [] then Initial() else
      var c := schedule[|schedule| - 1];
      Step(Run(schedule[..|schedule| - 1], closure), c, closure(c))
  }

  predicate Finished<T>(p: Progress<T>) { p.Borrowed? || p.Owned? || p.Unreachable? }

  /** What holds of a call in every reachable state: only the call that locked the cell stores into it, the
      cell is filled when a call looks at it again, and a result is the stored value or the call's own. */
  ghost predicate CallInv<T>(s: State<T>, c: Call, closure: Call -> T) {
    c in s.calls ==>
      match s.calls[c]
      case Storing(own) => own == closure(c)
      case Holding(own) => own == closure(c) && s.cell == Locked(c)
      case Borrowing => s.cell.Filled?
      case Borrowed(result) => s.cell == Filled(result)
      case Owned(result) => result == closure(c) && !s.cell.Empty?
      case Unreachable => false
      case _ => true
  }

  /** A locked cell is being filled by a call, and a filled cell holds the value of a call. */
  ghost predicate CellInv<T>(s: State<T>, closure: Call -> T) {
    match s.cell
    case Empty => true
    case Locked(owner) => owner in s.calls && s.calls[owner] == Holding(closure(owner))
    case Filled(value) => exists c :: c in s.calls && value == closure(c)
  }

  ghost predicate Inv<T>(s: State<T>, closure: Call -> T) {
    CellInv(s, closure) && forall c :: CallInv(s, c, closure)
  }

  lemma StepKeepsInv<T>(s: State<T>, c: Call, closure: Call -> T)
    requires Inv(s, closure)
    ensures Inv(Step(s, c, closure(c)), closure)
  {
    var s' := Step(s, c, closure(c));
    assert CallInv(s, c, closure);
    forall d
      ensures CallInv(s', d, closure)
    {
      assert CallInv(s, d, closure);
    }
    if s'.cell.Filled? {
      if s.cell.Filled? {
        var d :| d in s.calls && s.cell.value == closure(d);
        assert d in s'.calls;
      } else {
        assert c in s'.calls && s'.cell.value == closure(c);
      }
    }
  }

  lemma {:induction false} RunInv<T>(schedule: seq<Call>, closure: Call -> T)
    ensures Inv(Run(schedule, closure), closure)
  {
    if schedule != [] {
      RunInv(schedule[..|schedule| - 1], closure);
      StepKeepsInv(Run(schedule[..|schedule| - 1], closure), schedule[|schedule| - 1], closure);
    }
  }

  /** Once filled, the cell never changes, whatever steps follow. */
  lemma {:induction false} FilledForever<T>(before: seq<Call>, after: seq<Call>, closure: Call -> T)
    requires Run(before, closure).cell.Filled?
    ensures Run(before + after, closure).cell == Run(before, closure).cell
  {
    if after == [] {
      assert before + after == before;
    } else {
      var n := |after| - 1;
      FilledForever(before, after[..n], closure);
      RunInv(before + after[..n], closure);
      var s := Run(before + after[..n], closure);
      assert CallInv(s, after[n], closure);
      assert (before + after)[..|before + after| - 1] == before + after[..n];
    }
  }

  /** Under every interleaving, the unreachable arm is not reached, and a call returns the one value that the
      cell holds for good or, if another call got ahead of it, the value it computed itself. */
  lemma ResultsAreSound<T>(schedule: seq<Call>, closure: Call -> T, c: Call)
    requires c in Run(schedule, closure).calls
    ensures var s := Run(schedule, closure);
            match s.calls[c]
            case Borrowed(result) => s.cell == Filled(result) && exists d :: d in s.calls && result == closure(d)
            case Owned(result) => result == closure(c) && !s.cell.Empty?
            case Unreachable => false
            case _ => true
  {
    RunInv(schedule, closure);
    assert CallInv(Run(schedule, closure), c, closure);
  }

  /** The call has not looked at the cell yet. */
  predicate NotLooked<T>(s: State<T>, c: Call) {
    c !in s.calls || s.calls[c] == Started
  }

  /** The cache is used: a call that first looks at the cell when it is filled never computes anything, and returns
      the stored value. */
  lemma {:induction false} LateCallsBorrow<T>(before: seq<Call>, after: seq<Call>, closure: Call -> T, c: Call)
    requires Run(before, closure).cell.Filled? && NotLooked(Run(before, closure), c)
    ensures var s := Run(before + after, closure);
            NotLooked(s, c) || s.calls[c] == Borrowed(Run(before, closure).cell.value)
  {
    if after == [] {
      assert before + after == before;
    } else {
      var n := |after| - 1;
      LateCallsBorrow(before, after[..n], closure, c);
      FilledForever(before, after[..n], closure);
      assert (before + after)[..|before + after| - 1] == before + after[..n];
    }
  }

  /** So a call that returns its own value looked at the cell before it was filled. */
  lemma OwnedLookedEarly<T>(schedule: seq<Call>, closure: Call -> T, c: Call, i: nat)
    requires i <= |schedule| && Run(schedule[..i], closure).cell.Filled?
    requires c in Run(schedule, closure).calls && Run(schedule, closure).calls[c].Owned?
    ensures !NotLooked(Run(schedule[..i], closure), c)
  {
    assert schedule[..i] + schedule[i..] == schedule;
    if NotLooked(Run(schedule[..i], closure), c) {
      LateCallsBorrow(schedule[..i], schedule[i..], closure, c);
    }
  }

  /** A call that has computed its value stores or returns it, and returns it even if it is not the one stored. */
  ghost predicate ReturnsOwn<T>(s: State<T>, c: Call, own: T) {
    && c in s.calls
    && match s.calls[c]
       case Computing => true
       case Storing(value) => value == own
       case Holding(value) => value == own && s.cell == Locked(c)
       case Borrowing => s.cell == Filled(own)
       case Borrowed(result) => result == own && s.cell == Filled(own)
       case Owned(result) => result == own
       case _ => false
  }

  lemma StepReturnsOwn<T>(s: State<T>, c: Call, closure: Call -> T, d: Call)
    requires Inv(s, closure) && ReturnsOwn(s, c, closure(c))
    ensures ReturnsOwn(Step(s, d, closure(d)), c, closure(c))
  {
    assert CallInv(s, d, closure) && CallInv(s, c, closure);
  }

  lemma RunStep<T>(before: seq<Call>, after: seq<Call>, closure: Call -> T)
    requires after != []
    ensures var n := |after| - 1;
            Run(before + after, closure) == Step(Run(before + after[..n], closure), after[n], closure(after[n]))
  {
    assert (before + after)[..|before + after| - 1] == before + after[..|after| - 1];
  }

  lemma {:induction false} ComputedIsReturned<T>(before: seq<Call>, after: seq<Call>, closure: Call -> T, c: Call)
    requires c in Run(before, closure).calls && Run(before, closure).calls[c].Computing?
    ensures ReturnsOwn(Run(before + after, closure), c, closure(c))
  {
    if after == [] {
      assert before + after == before;
    } else {
      var n := |after| - 1;
      ComputedIsReturned(before, after[..n], closure, c);
      RunInv(before + after[..n], closure);
      StepReturnsOwn(Run(before + after[..n], closure), c, closure, after[n]);
      RunStep(before, after, closure);
    }
  }

  /** The call that fills the cell returns a reference to the stored value. */
  lemma {:induction false} FillerBorrows<T>(before: seq<Call>, after: seq<Call>, closure: Call -> T, c: Call)
    requires c in Run(before, closure).calls && Run(before, closure).calls[c].Holding?
    ensures var s := Run(before + after, closure);
            c in s.calls && (s.calls[c].Holding? || s.calls[c].Borrowing? || s.calls[c] == Borrowed(closure(c)))
  {
    RunInv(before, closure);
    assert CallInv(Run(before, closure), c, closure);
    if after == [] {
      assert before + after == before;
    } else {
      var n := |after| - 1;
      FillerBorrows(before, after[..n], closure, c);
      HolderReturnsOwn(before, after[..n], closure, c);
      RunStep(before, after, closure);
      HolderReturnsOwn(before, after, closure, c);
    }
  }

  lemma {:induction false} HolderReturnsOwn<T>(before: seq<Call>, after: seq<Call>, closure: Call -> T, c: Call)
    requires c in Run(before, closure).calls && Run(before, closure).calls[c].Holding?
    ensures ReturnsOwn(Run(before + after, closure), c, closure(c))
  {
    RunInv(before, closure);
    assert CallInv(Run(before, closure), c, closure);
    if after == [] {
      assert before + after == before;
    } else {
      var n := |after| - 1;
      HolderReturnsOwn(before, after[..n], closure, c);
      RunInv(before + after[..n], closure);
      StepReturnsOwn(Run(before + after[..n], closure), c, closure, after[n]);
      RunStep(before, after, closure);
    }
  }

  /** If all closures compute the same value, every call returns it, as if there were no cache. */
  lemma AgreeingClosures<T>(schedule: seq<Call>, closure: Call -> T, value: T, c: Call)
    requires (forall d :: closure(d) == value) && c in Run(schedule, closure).calls
    requires Finished(Run(schedule, closure).calls[c])
    ensures var p := Run(schedule, closure).calls[c]; (p.Borrowed? || p.Owned?) && p.result == value
  {
    ResultsAreSound(schedule, closure, c);
  }

  // ----- Progress ------------------------------------------------------------------------------------

  /** The number of steps that a call has left at most. */
  function Left<T>(s: State<T>, c: Call): nat {
    if c !in s.calls then 6 else
      match s.calls[c]
      case Started => 5
      case Computing => 4
      case Storing(_) => 3
      case Holding(_) => 2
      case Borrowing => 1
      case _ => 0
  }

  /** No call ever waits: each of its own steps brings it closer to its result, and no step of another call
      takes it back. So every call returns after at most six steps of its own. */
  lemma NoWaiting<T>(s: State<T>, c: Call, own: T, d: Call)
    ensures Left(s, c) > 0 ==> Left(Step(s, c, own), c) < Left(s, c)
    ensures d != c ==> Left(Step(s, c, own), d) == Left(s, d)
  {
  }

  ghost function StepsOf(schedule: seq<Call>, c: Call): nat { multiset(schedule)[c] }

  lemma {:induction false} ReturnsAfterSixSteps<T>(schedule: seq<Call>, closure: Call -> T, c: Call)
    ensures Left(Run(schedule, closure), c) <= if StepsOf(schedule, c) <= 6 then 6 - StepsOf(schedule, c) else 0
    ensures StepsOf(schedule, c) >= 6 ==>
              c in Run(schedule, closure).calls && Finished(Run(schedule, closure).calls[c])
  {
    if schedule != [] {
      var n := |schedule| - 1;
      ReturnsAfterSixSteps(schedule[..n], closure, c);
      NoWaiting(Run(schedule[..n], closure), schedule[n], closure(schedule[n]), c);
      assert schedule == schedule[..n] + [schedule[n]];
    }
  }

  /** When all calls have returned, the value is cached. */
  lemma CachedInTheEnd<T>(schedule: seq<Call>, closure: Call -> T)
    requires var s := Run(schedule, closure);
             s.calls != map[] && forall c :: c in s.calls ==> Finished(s.calls[c])
    ensures Run(schedule, closure).cell.Filled?
  {
    var s := Run(schedule, closure);
    RunInv(schedule, closure);
    var c :| c in s.calls;
    assert CallInv(s, c, closure);
  }
}
