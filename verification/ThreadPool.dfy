/**
 The worker pool at the granularity of its mutex: submissions, wake-ups and workers interleave freely.
 Tasks are numbered in the order of submission.
 */
module ThreadPool {

  /** Ready: about to lock and test the wait predicate. */
  datatype Worker = Ready | Asleep | Running(task: nat) | Exited

  datatype Pool = Pool(
    tasks: seq<nat>,
    workers: seq<Worker>,
    stop: bool,
    notifies: nat,        // notify_one calls still to be made by submitters that have pushed
    broadcast: bool,      // the destructor has set stop and not yet called notify_all
    submitted: nat,       // tasks submitted so far; the next one gets this number
    taken: nat,           // tasks handed out so far
    finished: set<nat>)

  datatype Action =
    | SubmitOutside
    | SubmitFrom(worker: nat)
    | NotifyOne(worker: nat)
    | NotifyNobody
    | Test(worker: nat)
    | Finish(worker: nat)
    | Spurious(worker: nat)
    | Stop
    | NotifyAll

  ghost predicate Is(p: Pool, w: nat, state: Worker) {
    w < |p.workers| && p.workers[w] == state
  }

  ghost predicate Busy(p: Pool, w: nat) {
    w < |p.workers| && p.workers[w].Running?
  }

  /** After stop only the pool's own tasks may submit. */
  ghost predicate Enabled(p: Pool, a: Action) {
    match a
    case SubmitOutside => !p.stop
    case SubmitFrom(w) => Busy(p, w)
    case NotifyOne(w) => p.notifies > 0 && Is(p, w, Asleep)
    case NotifyNobody => p.notifies > 0 && forall w: nat :: !Is(p, w, Asleep)
    case Test(w) => Is(p, w, Ready)
    case Finish(w) => Busy(p, w)
    case Spurious(w) => Is(p, w, Asleep)
    case Stop => !p.stop
    case NotifyAll => p.broadcast
  }

  ghost function Submit(p: Pool): Pool {
    p.(tasks := p.tasks + [p.submitted], submitted := p.submitted + 1, notifies := p.notifies + 1)
  }

  ghost function Become(p: Pool, w: nat, state: Worker): Pool
    requires w < |p.workers|
  {
    p.(workers := p.workers[w := state])
  }

  ghost function Apply(p: Pool, a: Action): Pool
    requires Enabled(p, a)
  {
    match a
    case SubmitOutside => Submit(p)
    case SubmitFrom(_) => Submit(p)
    case NotifyOne(w) => Become(p, w, Ready).(notifies := p.notifies - 1)
    case NotifyNobody => p.(notifies := p.notifies - 1)
    case Test(w) =>
      if !p.stop && p.tasks == [] then Become(p, w, Asleep)
      else if p.tasks == [] then Become(p, w, Exited)
      else Become(p, w, Running(p.tasks[0])).(tasks := p.tasks[1..], taken := p.taken + 1)
    case Finish(w) => Become(p, w, Ready).(finished := p.finished + {p.workers[w].task})
    case Spurious(w) => Become(p, w, Ready)
    case Stop => p.(stop := true, broadcast := true)
    case NotifyAll =>
      p.(broadcast := false,
         workers := seq(|p.workers|, w requires 0 <= w < |p.workers| =>
           if p.workers[w] == Asleep then Ready else p.workers[w]))
  }

  ghost function Init(size: nat): Pool {
    Pool([], seq(size, _ => Ready), false, 0, false, 0, 0, {})
  }

  ghost predicate Runs(p: Pool, w: nat, task: nat) {
    Is(p, w, Running(task))
  }

  /** First in, first out; every task handed out is finished or in the hands of exactly one worker. */
  ghost predicate Accounted(p: Pool) {
    && |p.tasks| == p.submitted - p.taken
    && (forall k | 0 <= k < |p.tasks| :: p.tasks[k] == p.taken + k)
    && (forall x: nat :: x < p.taken <==> x in p.finished || exists w: nat :: Runs(p, w, x))
    && (forall x: nat, w: nat | Runs(p, w, x) :: x !in p.finished)
    && (forall x: nat, w: nat, v: nat | Runs(p, w, x) && Runs(p, v, x) :: w == v)
  }

  /** Work is never left to sleeping workers that nobody is going to wake. */
  ghost predicate NoLostWakeup(p: Pool) {
    p.tasks != [] ==>
      || (exists w: nat :: Is(p, w, Ready) || Busy(p, w))
      || (p.notifies > 0 && exists w: nat :: Is(p, w, Asleep))
  }

  ghost predicate Inv(p: Pool) {
    && p.workers != []
    && Accounted(p)
    && NoLostWakeup(p)
    && (forall w: nat | Is(p, w, Exited) :: p.stop)
    && (p.broadcast ==> p.stop)
    && (p.stop && !p.broadcast ==> forall w: nat :: !Is(p, w, Asleep))
  }

  lemma InitInv(size: nat)
    requires size > 0
    ensures Inv(Init(size))
  {
    assert forall w: nat, x: nat :: !Runs(Init(size), w, x);
  }

  lemma AccountedStep(p: Pool, a: Action)
    requires Inv(p) && Enabled(p, a)
    ensures Accounted(Apply(p, a))
  {
    hide NoLostWakeup;
    match a {
      case Test(w) => TestAccounted(p, w);
      case Finish(w) => FinishAccounted(p, w);
      case _ =>
        var p' := Apply(p, a);
        assert forall v: nat, x: nat :: Runs(p', v, x) == Runs(p, v, x);
    }
  }

  lemma TestAccounted(p: Pool, w: nat)
    requires Accounted(p) && Enabled(p, Test(w))
    ensures Accounted(Apply(p, Test(w)))
  {
    var p' := Apply(p, Test(w));
    assert forall v: nat, x: nat | v != w :: Runs(p', v, x) == Runs(p, v, x);
    assert forall x: nat :: !Runs(p, w, x);
    if p'.taken != p.taken {
      assert Runs(p', w, p.taken);
    }
    Handover(p, p', w);
  }

  lemma FinishAccounted(p: Pool, w: nat)
    requires Accounted(p) && Enabled(p, Finish(w))
    ensures Accounted(Apply(p, Finish(w)))
  {
    var p' := Apply(p, Finish(w));
    assert forall v: nat, x: nat | v != w :: Runs(p', v, x) == Runs(p, v, x);
    assert Runs(p, w, p.workers[w].task);
    Handover(p, p', w);
  }

  /** The task a single worker takes or finishes changes hands; every other task stays where it was. */
  lemma Handover(p: Pool, p': Pool, w: nat)
    requires forall v: nat, x: nat | v != w :: Runs(p', v, x) == Runs(p, v, x)
    ensures forall x: nat :: !Runs(p, w, x) && !Runs(p', w, x) ==>
              ((exists v: nat :: Runs(p', v, x)) <==> exists v: nat :: Runs(p, v, x))
  {
    forall x: nat | !Runs(p, w, x) && !Runs(p', w, x)
      ensures (exists v: nat :: Runs(p', v, x)) <==> exists v: nat :: Runs(p, v, x)
    {
      if v: nat :| Runs(p, v, x) {
        assert Runs(p', v, x);
      }
    }
  }

  lemma WakeupStep(p: Pool, a: Action)
    requires Inv(p) && Enabled(p, a)
    ensures NoLostWakeup(Apply(p, a))
  {
    var p' := Apply(p, a);
    if p'.tasks != [] {
      match a {
        case SubmitOutside =>
          assert !Is(p, 0, Exited);
          assert Is(p', 0, Ready) || Is(p', 0, Asleep) || Busy(p', 0);
        case SubmitFrom(w) => assert Busy(p', w);
        case NotifyOne(w) => assert Is(p', w, Ready);
        case Test(w) => assert Busy(p', w);
        case Finish(w) => assert Is(p', w, Ready);
        case Spurious(w) => assert Is(p', w, Ready);
        case _ => PassiveWakeup(p, a);
      }
    }
  }

  /** Steps that take no task and wake nobody in particular keep some worker up or waiting to be notified. */
  lemma PassiveWakeup(p: Pool, a: Action)
    requires Inv(p) && Enabled(p, a) && p.tasks != [] && (a.NotifyNobody? || a.Stop? || a.NotifyAll?)
    ensures NoLostWakeup(Apply(p, a))
  {
    hide Accounted;
    var p' := Apply(p, a);
    var w: nat :| Is(p, w, Ready) || Busy(p, w) || (p.notifies > 0 && Is(p, w, Asleep));
    assert Is(p, w, Ready) || Busy(p, w) || Is(p, w, Asleep);
    if p.workers[w] == Asleep && a.NotifyAll? {
      assert Is(p', w, Ready);
    } else if p.workers[w] != Asleep {
      assert Is(p', w, Ready) || Busy(p', w);
    } else {
      assert Is(p, w, Asleep) && Is(p', w, Asleep);
    }
  }

  lemma StepInv(p: Pool, a: Action)
    requires Inv(p) && Enabled(p, a)
    ensures Inv(Apply(p, a))
  {
    AccountedStep(p, a);
    WakeupStep(p, a);
    StopStep(p, a);
  }

  lemma StopStep(p: Pool, a: Action)
    requires Inv(p) && Enabled(p, a)
    ensures var p' := Apply(p, a);
            && p'.workers != []
            && (forall w: nat | Is(p', w, Exited) :: p'.stop)
            && (p'.broadcast ==> p'.stop)
            && (p'.stop && !p'.broadcast ==> forall w: nat :: !Is(p', w, Asleep))
  {
    hide Accounted, NoLostWakeup;
    var p' := Apply(p, a);
    forall w: nat | Is(p', w, Exited) ensures p'.stop {
      assert Is(p, w, Exited) || a == Test(w);
    }
    if p'.stop && !p'.broadcast {
      forall w: nat ensures !Is(p', w, Asleep) {
        assert a.NotifyAll? || !Is(p, w, Asleep);
      }
    }
  }

  ghost predicate Legal(p: Pool, run: seq<Action>)
    decreases run
  {
    run == [] || (Enabled(p, run[0]) && Legal(Apply(p, run[0]), run[1..]))
  }

  ghost function After(p: Pool, run: seq<Action>): Pool
    requires Legal(p, run)
    decreases run
  {
    if run == [] then p else After(Apply(p, run[0]), run[1..])
  }

  lemma {:induction false} RunInv(p: Pool, run: seq<Action>)
    requires Inv(p) && Legal(p, run)
    ensures Inv(After(p, run))
    decreases run
  {
    if run != [] {
      StepInv(p, run[0]);
      RunInv(Apply(p, run[0]), run[1..]);
    }
  }

  /**
   Over every run of a pool of any size: tasks are handed out in submission order, each to one worker;
   queued work never waits on sleepers without a wake-up under way; and once every worker has left,
   exactly the submitted tasks have been run.
   */
  lemma PoolSafety(size: nat, run: seq<Action>)
    requires size > 0 && Legal(Init(size), run)
    ensures var p := After(Init(size), run);
            && Accounted(p)
            && NoLostWakeup(p)
            && ((forall w: nat | w < |p.workers| :: Is(p, w, Exited)) ==>
                  p.stop && p.tasks == [] && forall x: nat :: x in p.finished <==> x < p.submitted)
  {
    InitInv(size);
    RunInv(Init(size), run);
    var p := After(Init(size), run);
    if forall w: nat | w < |p.workers| :: Is(p, w, Exited) {
      assert Is(p, 0, Exited);
      forall w: nat ensures !Busy(p, w) && !Is(p, w, Ready) && !Is(p, w, Asleep) {
        if w < |p.workers| {
          assert Is(p, w, Exited);
        }
      }
      assert p.tasks == [];
      assert forall w: nat, x: nat :: Runs(p, w, x) ==> Busy(p, w);
    }
  }

  lemma ExitOnlyOnEmpty(p: Pool, a: Action, w: nat)
    requires Enabled(p, a) && !Is(p, w, Exited) && Is(Apply(p, a), w, Exited)
    ensures a == Test(w) && p.stop && p.tasks == []
  {
  }

  /** At step k of the run, worker w tests its predicate, finds stop set and nothing queued, and leaves. */
  ghost predicate LeavesAt(p: Pool, run: seq<Action>, w: nat, k: nat) {
    && k < |run| && Legal(p, run[..k]) && run[k] == Test(w)
    && var q := After(p, run[..k]);
       q.stop && q.tasks == [] && Is(q, w, Ready)
  }

  lemma LeavesLater(p: Pool, run: seq<Action>, w: nat, k: nat)
    requires run != [] && Enabled(p, run[0]) && LeavesAt(Apply(p, run[0]), run[1..], w, k)
    ensures LeavesAt(p, run, w, k + 1)
  {
    assert run[..k + 1][0] == run[0] && run[..k + 1][1..] == run[1..][..k];
    hide Apply, Enabled;
  }

  /** In every run, a worker that has left did so after stop, finding the queue empty. */
  lemma {:induction false} LeftOnEmpty(p: Pool, run: seq<Action>, w: nat)
    requires Legal(p, run) && !Is(p, w, Exited) && Is(After(p, run), w, Exited)
    ensures exists k: nat :: LeavesAt(p, run, w, k)
    decreases run
  {
    var p1 := Apply(p, run[0]);
    if Is(p1, w, Exited) {
      ExitOnlyOnEmpty(p, run[0], w);
      assert run[..0] == [];
      assert LeavesAt(p, run, w, 0);
    } else {
      LeftOnEmpty(p1, run[1..], w);
      var k: nat :| LeavesAt(p1, run[1..], w, k);
      LeavesLater(p, run, w, k);
    }
  }

  /** As long as work or an announced shutdown is unfinished, a step other than a spurious wake-up is possible. */
  lemma PoolProgress(p: Pool)
    requires Inv(p)
    requires || (exists x: nat :: x < p.submitted && x !in p.finished)
             || (p.stop && exists w: nat | w < |p.workers| :: !Is(p, w, Exited))
    ensures exists a :: Enabled(p, a) && (a.Test? || a.Finish? || a.NotifyOne? || a.NotifyAll?)
  {
    if w: nat :| Is(p, w, Ready) {
      assert Enabled(p, Test(w));
    } else if w: nat :| Busy(p, w) {
      assert Enabled(p, Finish(w));
    } else {
      assert forall w: nat, x: nat :: Runs(p, w, x) ==> Busy(p, w);
      if p.tasks != [] {
        var w: nat :| Is(p, w, Asleep);
        assert Enabled(p, NotifyOne(w));
      } else {
        var w: nat :| w < |p.workers| && !Is(p, w, Exited);
        assert !Is(p, w, Ready) && !Busy(p, w);
        assert Is(p, w, Asleep);
        assert Enabled(p, NotifyAll);
      }
    }
  }
}
