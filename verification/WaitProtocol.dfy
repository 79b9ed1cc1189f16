/**
 How the ticking thread waits for the last system: the completion counter is atomic and outside the
 mutex, so testing it, going to sleep, counting and notifying are separate steps.
 */
module WaitProtocol {

  datatype Waiter =
    | Arriving       // about to lock
    | Holding        // holds the mutex, about to test the counter
    | TestedFalse    // still holds the mutex, about to release it and sleep
    | Asleep
    | Returned

  datatype Completer =
    | Working
    | Last           // counted the last system, about to lock
    | Locked         // holds the mutex, about to notify
    | Notified       // holds the mutex, about to release it
    | Gone

  datatype Owner = Free | TickThread | Worker(i: nat)

  datatype State = State(waiter: Waiter, completers: seq<Completer>, completed: nat, mutex: Owner)

  datatype Action =
    | FetchAdd(i: nat) | Lock(i: nat) | Notify(i: nat) | Unlock(i: nat)
    | WaiterLock | WaiterTest | WaiterSleep | Spurious

  ghost predicate Is(s: State, i: nat, c: Completer) {
    i < |s.completers| && s.completers[i] == c
  }

  ghost predicate Enabled(s: State, a: Action) {
    match a
    case FetchAdd(i) => Is(s, i, Working)
    case Lock(i) => Is(s, i, Last) && s.mutex == Free
    case Notify(i) => Is(s, i, Locked)
    case Unlock(i) => Is(s, i, Notified)
    case WaiterLock => s.waiter == Arriving && s.mutex == Free
    case WaiterTest => s.waiter == Holding
    case WaiterSleep => s.waiter == TestedFalse
    case Spurious => s.waiter == Asleep
  }

  ghost function Apply(s: State, a: Action): State
    requires Enabled(s, a)
  {
    match a
    case FetchAdd(i) =>
      s.(completed := s.completed + 1,
         completers := s.completers[i := if s.completed + 1 == |s.completers| then Last else Gone])
    case Lock(i) => s.(completers := s.completers[i := Locked], mutex := Worker(i))
    case Notify(i) =>
      s.(completers := s.completers[i := Notified], waiter := if s.waiter == Asleep then Arriving else s.waiter)
    case Unlock(i) => s.(completers := s.completers[i := Gone], mutex := Free)
    case WaiterLock => s.(waiter := Holding, mutex := TickThread)
    case WaiterTest =>
      if s.completed == |s.completers| then s.(waiter := Returned, mutex := Free) else s.(waiter := TestedFalse)
    case WaiterSleep => s.(waiter := Asleep, mutex := Free)
    case Spurious => s.(waiter := Arriving)
  }

  ghost function Init(n: nat): State {
    State(Arriving, seq(n, _ => Working), 0, Free)
  }

  ghost function WorkingSet(s: State): set<nat> {
    set i: nat | i < |s.completers| && s.completers[i] == Working
  }

  ghost predicate Pending(s: State, i: nat) {
    Is(s, i, Last) || Is(s, i, Locked) || Is(s, i, Notified)
  }

  ghost predicate Inv(s: State) {
    && s.completed + |WorkingSet(s)| == |s.completers|
    && (s.mutex == TickThread <==> s.waiter == Holding || s.waiter == TestedFalse)
    && (forall i: nat :: s.mutex == Worker(i) <==> Is(s, i, Locked) || Is(s, i, Notified))
    && (forall i: nat, j: nat | Pending(s, i) && Pending(s, j) :: i == j)
    && (forall i: nat | Pending(s, i) :: s.completed == |s.completers|)
    && (s.waiter == Returned ==> s.completed == |s.completers|)
    && WakeupComing(s)
  }

  /** A waiter that saw the old count still has its notification coming. */
  ghost predicate WakeupComing(s: State) {
    s.completed == |s.completers| && (s.waiter == Asleep || s.waiter == TestedFalse) ==>
      exists i: nat :: Is(s, i, Last) || Is(s, i, Locked)
  }

  lemma InitInv(n: nat)
    requires n > 0
    ensures Inv(Init(n))
  {
    AllWorking(n);
  }

  lemma {:induction false} AllWorking(n: nat)
    ensures |WorkingSet(Init(n))| == n
  {
    if n > 0 {
      AllWorking(n - 1);
      assert WorkingSet(Init(n)) == WorkingSet(Init(n - 1)) + {n - 1};
    }
  }

  lemma CountStep(s: State, a: Action)
    requires Inv(s) && Enabled(s, a)
    ensures var s' := Apply(s, a); s'.completed + |WorkingSet(s')| == |s'.completers|
    ensures a.FetchAdd? ==> s.completed < |s.completers|
  {
    var s' := Apply(s, a);
    hide Pending, WakeupComing;
    if a.FetchAdd? {
      assert a.i in WorkingSet(s);
      assert WorkingSet(s') == WorkingSet(s) - {a.i};
    } else {
      SameWorking(s, a);
    }
  }

  lemma SameWorking(s: State, a: Action)
    requires Enabled(s, a) && !a.FetchAdd?
    ensures WorkingSet(Apply(s, a)) == WorkingSet(s)
  {
    var s' := Apply(s, a);
    assert forall i: nat | i < |s.completers| :: s'.completers[i] == Working <==> s.completers[i] == Working;
  }

  lemma PendingStep(s: State, a: Action, i: nat)
    requires Inv(s) && Enabled(s, a) && Pending(Apply(s, a), i)
    ensures if a.FetchAdd? then i == a.i && Apply(s, a).completed == |s.completers| else Pending(s, i)
  {
    CountStep(s, a);
    if a.FetchAdd? {
      assert !Pending(s, i);
    }
  }

  lemma WakeupStep(s: State, a: Action)
    requires Inv(s) && Enabled(s, a)
    ensures WakeupComing(Apply(s, a))
  {
    var s' := Apply(s, a);
    if s'.completed == |s'.completers| && (s'.waiter == Asleep || s'.waiter == TestedFalse) {
      if a.FetchAdd? {
        assert Is(s', a.i, Last);
      } else {
        assert s.waiter == Asleep || s.waiter == TestedFalse;
        var i: nat :| Is(s, i, Last) || Is(s, i, Locked);
        assert Is(s', i, Last) || Is(s', i, Locked);
      }
    }
  }

  lemma StepInv(s: State, a: Action)
    requires Inv(s) && Enabled(s, a)
    ensures Inv(Apply(s, a))
  {
    CountStep(s, a);
    WakeupStep(s, a);
    MutexStep(s, a);
    hide WakeupComing, WorkingSet, Is;
    forall i: nat | Pending(Apply(s, a), i)
      ensures if a.FetchAdd? then i == a.i && Apply(s, a).completed == |s.completers| else Pending(s, i)
    {
      PendingStep(s, a, i);
    }
  }

  lemma MutexStep(s: State, a: Action)
    requires Inv(s) && Enabled(s, a)
    ensures var s' := Apply(s, a);
            && (s'.mutex == TickThread <==> s'.waiter == Holding || s'.waiter == TestedFalse)
            && (forall i: nat :: s'.mutex == Worker(i) <==> Is(s', i, Locked) || Is(s', i, Notified))
  {
    hide WakeupComing, WorkingSet;
    var s' := Apply(s, a);
    forall i: nat ensures s'.mutex == Worker(i) <==> Is(s', i, Locked) || Is(s', i, Notified) {
      assert s.mutex == Worker(i) <==> Is(s, i, Locked) || Is(s, i, Notified);
    }
  }

  ghost predicate Legal(s: State, run: seq<Action>)
    decreases run
  {
    run == [] || (Enabled(s, run[0]) && Legal(Apply(s, run[0]), run[1..]))
  }

  ghost function After(s: State, run: seq<Action>): State
    requires Legal(s, run)
    decreases run
  {
    if run == [] then s else After(Apply(s, run[0]), run[1..])
  }

  lemma {:induction false} RunInv(s: State, run: seq<Action>)
    requires Inv(s) && Legal(s, run)
    ensures Inv(After(s, run)) && |After(s, run).completers| == |s.completers|
    decreases run
  {
    if run != [] {
      StepInv(s, run[0]);
      RunInv(Apply(s, run[0]), run[1..]);
    }
  }

  lemma NotStuck(s: State)
    requires Inv(s) && s.waiter != Returned
    ensures exists a :: Enabled(s, a) && !a.Spurious?
  {
    if i: nat :| Is(s, i, Locked) {
      assert Enabled(s, Notify(i));
    } else if i: nat :| Is(s, i, Notified) {
      assert Enabled(s, Unlock(i));
    } else if s.waiter == Holding {
      assert Enabled(s, WaiterTest);
    } else if s.waiter == TestedFalse {
      assert Enabled(s, WaiterSleep);
    } else {
      forall i: nat ensures s.mutex != Worker(i) {
        assert !Is(s, i, Locked) && !Is(s, i, Notified);
      }
      if s.waiter == Arriving {
        assert Enabled(s, WaiterLock);
      } else if s.completed == |s.completers| {
        var i: nat :| Is(s, i, Last);
        assert Enabled(s, Lock(i));
      } else {
        assert WorkingSet(s) != {};
        var i :| i in WorkingSet(s);
        assert Enabled(s, FetchAdd(i));
      }
    }
  }

  /**
   In every interleaving of n > 0 completions with the waiter, the waiter returns only after all n were
   counted, and until it returns some step other than a spurious wake-up remains possible: it never
   sleeps through the notification.
   */
  lemma WakeupNotMissed(n: nat, run: seq<Action>)
    requires n > 0 && Legal(Init(n), run)
    ensures var s := After(Init(n), run);
            && (s.waiter == Returned ==> s.completed == n && forall i: nat :: !Is(s, i, Working))
            && (s.waiter != Returned ==> exists a :: Enabled(s, a) && !a.Spurious?)
  {
    InitInv(n);
    RunInv(Init(n), run);
    var s := After(Init(n), run);
    if s.waiter != Returned {
      NotStuck(s);
    } else {
      assert WorkingSet(s) == {};
      forall i: nat ensures !Is(s, i, Working) {
        assert i !in WorkingSet(s);
      }
    }
  }
}
