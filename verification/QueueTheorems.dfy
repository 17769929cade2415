/** What the queue's invariant means for its callers, over every run of the protocol. */
module QueueTheorems {
  import opened MapSum
  import opened QueueState
  import opened QueueProtocol

  /** A sleeping dispatcher with work to do, or a close to notice, is about to be signalled. */
  lemma NeverStranded(run: seq<Sys>, steps: seq<Step>, maxUp: int, maxDown: int, i: nat)
    requires IsRun(run, steps, maxUp, maxDown) && i < |run|
    requires run[i].disp == Asleep
    requires run[i].q.closed || HasRunnable(run[i].q)
    ensures run[i].enqueueSignals > 0 || run[i].releaseSignals > 0 || run[i].closer.Marked?
  {
    Reachable(run, steps, maxUp, maxDown, i);
  }

  /** The caps a queue was made with: the number asked for, or four. */
  function AskedCap(maxUp: int, maxDown: int, d: Direction): int {
    var asked := match d case Upload => maxUp case Download => maxDown;
    if asked <= 0 then 4 else asked
  }

  lemma {:induction false} CapsAreAsked(run: seq<Sys>, steps: seq<Step>, maxUp: int, maxDown: int, i: nat)
    requires IsRun(run, steps, maxUp, maxDown) && i < |run|
    ensures forall d :: Cap(run[i].q, d) == AskedCap(maxUp, maxDown, d)
  {
    if i > 0 {
      CapsAreAsked(run, steps, maxUp, maxDown, i - 1);
      CapsStay(run[i - 1], steps[i - 1]);
    }
  }

  lemma CapsStay(s: Sys, step: Step)
    requires Enabled(s, step)
    ensures forall d :: Cap(After(s, step).q, d) == Cap(s.q, d)
  {
  }

  /** Never more tasks of a peer at once in one direction than the queue was asked for, whether its entry is
      still there or not. */
  lemma CapIsKept(run: seq<Sys>, steps: seq<Step>, maxUp: int, maxDown: int, i: nat, p: string, d: Direction)
    requires IsRun(run, steps, maxUp, maxDown) && i < |run|
    ensures Held(InFlight(run[i]), p, d) <= AskedCap(maxUp, maxDown, d)
  {
    Reachable(run, steps, maxUp, maxDown, i);
    CapsAreAsked(run, steps, maxUp, maxDown, i);
    var q, rs := run[i].q, InFlight(run[i]);
    if p in q.devices {
      assert ActiveFor(q.devices[p], d) == Held(rs, p, d) <= Cap(q, d);
    } else {
      assert forall k :: 0 <= k < |rs| ==> rs[k].task.peer in q.devices;
      HeldNone(rs, p, d);
    }
  }

  lemma SlotsAreExact(run: seq<Sys>, steps: seq<Step>, maxUp: int, maxDown: int, i: nat, p: string)
    requires IsRun(run, steps, maxUp, maxDown) && i < |run|
    requires p in run[i].q.devices
    ensures run[i].q.devices[p].activeUp == Held(InFlight(run[i]), p, Upload) <= AskedCap(maxUp, maxDown, Upload)
    ensures run[i].q.devices[p].activeDown == Held(InFlight(run[i]), p, Download) <= AskedCap(maxUp, maxDown, Download)
    ensures !run[i].q.closed ==> run[i].q.devices[p].pending != [] || Held(InFlight(run[i]), p, Upload) > 0
                                 || Held(InFlight(run[i]), p, Download) > 0
  {
    Reachable(run, steps, maxUp, maxDown, i);
    CapsAreAsked(run, steps, maxUp, maxDown, i);
    var e := run[i].q.devices[p];
    assert ActiveFor(e, Upload) == e.activeUp && ActiveFor(e, Download) == e.activeDown;
  }

  /** releaseSlot decrements the counter of the very object its task was counted in, and that counter
      is positive; no two live entries are the same object. */
  lemma ReleaseFindsItsEntry(run: seq<Sys>, steps: seq<Step>, maxUp: int, maxDown: int, i: nat, k: nat)
    requires IsRun(run, steps, maxUp, maxDown) && i < |run|
    requires k < |run[i].executing|
    ensures var r := run[i].executing[k];
            && r.task.peer in run[i].q.devices
            && run[i].q.devices[r.task.peer].serial == r.home
            && ActiveFor(run[i].q.devices[r.task.peer], r.task.dir) > 0
            && forall p :: p in run[i].q.devices && run[i].q.devices[p].serial == r.home ==> p == r.task.peer
  {
    Reachable(run, steps, maxUp, maxDown, i);
    var s := run[i];
    var j := ReleaseShape(s, k);
    var r := s.executing[k];
    assert InFlight(s)[j] == r;
    HeldSplit(InFlight(s), j, r.task.peer, r.task.dir);
    assert ActiveFor(s.q.devices[r.task.peer], r.task.dir) == Held(InFlight(s), r.task.peer, r.task.dir);
  }

  /** A counter at zero means that nothing is pending and every slot is free. */
  lemma ZeroMeansFree(s: Sys)
    requires Inv(s) && s.wg == 0
    ensures s.executing == [] && !s.disp.Starting? && s.releaseSignals == 0 && s.finishing == 0
    ensures forall p :: p in s.q.devices ==> Drained(s.q.devices[p])
    ensures !s.q.closed ==> s.q.devices == map[]
  {
    assert InFlight(s) == [];
    SumZero(PendingSizes(s.q));
    forall p | p in s.q.devices
      ensures Drained(s.q.devices[p])
    {
      assert PendingSizes(s.q)[p] == 0;
      var e := s.q.devices[p];
      assert ActiveFor(e, Upload) == Held(InFlight(s), p, Upload) == 0;
      assert ActiveFor(e, Download) == Held(InFlight(s), p, Download) == 0;
    }
  }

  lemma WaitGroupNeverNegative(run: seq<Sys>, steps: seq<Step>, maxUp: int, maxDown: int, i: nat)
    requires IsRun(run, steps, maxUp, maxDown) && i < |run|
    ensures run[i].wg == PendingTotal(run[i].q) + |InFlight(run[i])| + run[i].releaseSignals
                         + run[i].finishing + Abandoned(run[i].closer)
    ensures run[i].wg >= 0
    ensures run[i].wg == 0 ==>
      && (forall p :: p in run[i].q.devices ==> Drained(run[i].q.devices[p]))
      && (!run[i].q.closed ==> run[i].q.devices == map[])
  {
    Reachable(run, steps, maxUp, maxDown, i);
    if run[i].wg == 0 {
      ZeroMeansFree(run[i]);
    }
  }

  /** Per device and direction, tasks leave in the order they came. */
  lemma FirstInFirstOut(run: seq<Sys>, steps: seq<Step>, maxUp: int, maxDown: int, i: nat, p: string, d: Direction)
    requires IsRun(run, steps, maxUp, maxDown) && i < |run|
    ensures !run[i].q.closed ==>
      Of(run[i].dispatched, p, d) + Of(Pending(run[i].q, p), p, d) == Of(run[i].enqueued, p, d)
    ensures Of(run[i].dispatched, p, d) <= Of(run[i].enqueued, p, d)
  {
    Reachable(run, steps, maxUp, maxDown, i);
    assert InOrder(run[i].q, run[i].dispatched, run[i].enqueued, p, d);
  }

  lemma {:induction false} FirstExists(q: Locked, e: Entry, i: nat) returns (f: nat)
    requires i < |e.pending| && HasSlot(q, e, e.pending[i])
    ensures FirstRunnable(q, e, f)
  {
    if exists j :: 0 <= j < i && HasSlot(q, e, e.pending[j]) {
      var j :| 0 <= j < i && HasSlot(q, e, e.pending[j]);
      f := FirstExists(q, e, j);
    } else {
      f := i;
    }
  }

  /** No slot is left idle while a task could use it: either some pop is possible, or every pending
      task's direction is at its cap. */
  lemma WorkConserved(run: seq<Sys>, steps: seq<Step>, maxUp: int, maxDown: int, i: nat)
    requires IsRun(run, steps, maxUp, maxDown) && i < |run|
    ensures HasRunnable(run[i].q) <==>
      exists p, f :: p in run[i].q.devices && FirstRunnable(run[i].q, run[i].q.devices[p], f)
    ensures !HasRunnable(run[i].q) <==>
      forall p, k :: p in run[i].q.devices && 0 <= k < |run[i].q.devices[p].pending| ==>
        var e := run[i].q.devices[p];
        ActiveFor(e, e.pending[k].dir) == AskedCap(maxUp, maxDown, e.pending[k].dir)
  {
    Reachable(run, steps, maxUp, maxDown, i);
    CapsAreAsked(run, steps, maxUp, maxDown, i);
    var q := run[i].q;
    if HasRunnable(q) {
      var p :| p in q.devices && RunnableIn(q, q.devices[p]);
      var k :| 0 <= k < |q.devices[p].pending| && HasSlot(q, q.devices[p], q.devices[p].pending[k]);
      var f := FirstExists(q, q.devices[p], k);
    }
    if exists p, f :: p in q.devices && FirstRunnable(q, q.devices[p], f) {
      var p, f :| p in q.devices && FirstRunnable(q, q.devices[p], f);
      assert RunnableIn(q, q.devices[p]);
    }
    forall p, k | !HasRunnable(q) && p in q.devices && 0 <= k < |q.devices[p].pending|
      ensures var e := q.devices[p]; ActiveFor(e, e.pending[k].dir) == Cap(q, e.pending[k].dir)
    {
      var e := q.devices[p];
      assert !RunnableIn(q, e);
      assert !HasSlot(q, e, e.pending[k]);
      assert ActiveFor(e, e.pending[k].dir) == Held(InFlight(run[i]), p, e.pending[k].dir) <= Cap(q, e.pending[k].dir);
    }
  }

  // ---- draining ----

  /** Steps the queue takes by itself, given that tasks return. */
  predicate Internal(step: Step) {
    !step.Enqueue? && !step.Close?
  }

  ghost function Effort(s: Sys): nat {
    7 * PendingTotal(s.q)
    + (match s.disp case Scanning => 1 case Asleep => 0 case Starting(_) => 6 case Exited => 0)
    + 4 * |s.executing| + 2 * s.enqueueSignals + 3 * s.releaseSignals + s.finishing
    + (match s.closer case NotClosed => 0 case Marked(_) => 3 case Broadcasted(_) => 1 case Finished => 0)
  }

  /** Every internal step uses up effort, so the queue cannot go round in circles. */
  lemma EffortFalls(s: Sys, step: Step)
    requires Enabled(s, step) && Internal(step)
    ensures Effort(After(s, step)) < Effort(s)
  {
    match step
    case Pop(p, i) => PopTakesOne(s.q, p, i);
    case Release(k) => ReleaseKeepsPending(s.q, s.executing[k].task);
    case _ =>
  }

  ghost predicate Stuck(s: Sys) {
    forall step :: Internal(step) ==> !Enabled(s, step)
  }

  lemma StuckThreads(s: Sys)
    requires Stuck(s)
    ensures s.enqueueSignals == 0 && s.releaseSignals == 0 && s.finishing == 0 && s.executing == []
    ensures !s.disp.Starting? && (s.closer.NotClosed? || s.closer.Finished?)
  {
    assert !Enabled(s, EnqueueSignal) && !Enabled(s, ReleaseSignal) && !Enabled(s, Done);
    assert !Enabled(s, Start) && !Enabled(s, Release(0));
    assert !Enabled(s, CloseBroadcast) && !Enabled(s, CloseSubtract);
  }

  lemma StuckDispatcher(s: Sys)
    requires Stuck(s)
    ensures s.disp != Scanning
  {
    assert !Enabled(s, Sleep) && !Enabled(s, Exit);
    if HasRunnable(s.q) {
      var p :| p in s.q.devices && RunnableIn(s.q, s.q.devices[p]);
      var k :| 0 <= k < |s.q.devices[p].pending| && HasSlot(s.q, s.q.devices[p], s.q.devices[p].pending[k]);
      var f := FirstExists(s.q, s.q.devices[p], k);
      assert !Enabled(s, Pop(p, f));
    }
  }

  /** When no internal step is left, everything accepted before Close has been dispatched and Wait
      returns: nothing pending, no slot held, no device entry kept, the counter at zero. */
  lemma StuckMeansDrained(s: Sys)
    requires Inv(s) && Stuck(s)
    ensures s.wg == 0
    ensures s.disp == if s.q.closed then Exited else Asleep
    ensures !s.q.closed ==>
      s.q.devices == map[] && forall p, d :: Of(s.dispatched, p, d) == Of(s.enqueued, p, d)
  {
    StuckThreads(s);
    StuckDispatcher(s);
    NothingPending(s);
    ZeroMeansFree(s);
    forall p, d | !s.q.closed ensures Of(s.dispatched, p, d) == Of(s.enqueued, p, d) {
      assert InOrder(s.q, s.dispatched, s.enqueued, p, d);
    }
  }

  lemma SlotsFree(s: Sys, p: string, k: nat)
    requires Inv(s) && InFlight(s) == []
    requires p in s.q.devices && k < |s.q.devices[p].pending|
    ensures HasSlot(s.q, s.q.devices[p], s.q.devices[p].pending[k])
  {
    var d := s.q.devices[p].pending[k].dir;
    assert ActiveFor(s.q.devices[p], d) == Held(InFlight(s), p, d);
  }

  lemma NothingPending(s: Sys)
    requires Inv(s) && InFlight(s) == [] && (s.q.closed || !HasRunnable(s.q))
    ensures PendingTotal(s.q) == 0
  {
    forall p | p in s.q.devices && |s.q.devices[p].pending| > 0
      ensures RunnableIn(s.q, s.q.devices[p])
    {
      SlotsFree(s, p, 0);
    }
    SumZero(PendingSizes(s.q));
  }

  /** A run of internal steps from any reachable state is no longer than its effort. */
  lemma {:induction false} DrainIsBounded(run: seq<Sys>, steps: seq<Step>)
    requires |run| == |steps| + 1
    requires forall i :: 0 <= i < |steps| ==>
      Internal(steps[i]) && Enabled(run[i], steps[i]) && run[i + 1] == After(run[i], steps[i])
    ensures |steps| + Effort(run[|steps|]) <= Effort(run[0])
  {
    var n := |steps|;
    if n > 0 {
      DrainIsBounded(run[..n], steps[..n - 1]);
      EffortFalls(run[n - 1], steps[n - 1]);
    }
  }
}
