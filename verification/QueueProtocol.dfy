/** The queue with all its threads: callers of Enqueue and Close, the dispatcher, and one goroutine
    per started task. Every critical section and every Signal, Broadcast and WaitGroup call is a step
    of its own, so that any interleaving is a run. Threads at the same program point with nothing to
    remember are counted, not named. */
module QueueProtocol {
  import opened MapSum
  import opened Bytes
  import opened QueueState

  /** A popped task, with the entry object whose counter it went into. */
  datatype Run = Run(task: Task, home: nat)

  datatype Dispatcher =
    | Scanning            // about to take the lock, or just woken
    | Asleep              // parked in cond.Wait
    | Starting(run: Run)  // popped a task, has not spawned it yet
    | Exited

  datatype Closer =
    | NotClosed
    | Marked(abandoned: nat)       // unlocked, before Broadcast
    | Broadcasted(abandoned: nat)  // before the WaitGroup is told
    | Finished

  datatype Sys = Sys(
    q: Locked,
    disp: Dispatcher,
    executing: seq<Run>,    // goroutines that hold their slot
    enqueueSignals: nat,    // Enqueue calls between Unlock and Signal
    releaseSignals: nat,    // goroutines between Unlock and Signal in releaseSlot
    finishing: nat,         // goroutines between Signal and wg.Done
    closer: Closer,
    wg: int,
    enqueued: seq<Task>,    // history: accepted tasks, in lock order
    dispatched: seq<Task>)  // history: popped tasks, in lock order

  datatype Step =
    | Enqueue(t: Task)
    | EnqueueSignal
    | Pop(p: string, i: nat)
    | Sleep
    | Exit
    | Start
    | Release(k: nat)
    | ReleaseSignal
    | Done
    | Close
    | CloseBroadcast
    | CloseSubtract

  function Wake(d: Dispatcher): Dispatcher {
    if d == Asleep then Scanning else d
  }

  ghost predicate Init(s: Sys, maxUp: int, maxDown: int) {
    s == Sys(NewLocked(maxUp, maxDown), Scanning, [], 0, 0, 0, NotClosed, 0, [], [])
  }

  ghost predicate Enabled(s: Sys, step: Step) {
    match step
    case Enqueue(t) => !s.q.closed
    case EnqueueSignal => s.enqueueSignals > 0
    case Pop(p, i) =>
      s.disp == Scanning && !s.q.closed && p in s.q.devices && FirstRunnable(s.q, s.q.devices[p], i)
    case Sleep => s.disp == Scanning && !s.q.closed && !HasRunnable(s.q)
    case Exit => s.disp == Scanning && s.q.closed
    case Start => s.disp.Starting?
    case Release(k) => k < |s.executing|
    case ReleaseSignal => s.releaseSignals > 0
    case Done => s.finishing > 0
    case Close => !s.q.closed
    case CloseBroadcast => s.closer.Marked?
    case CloseSubtract => s.closer.Broadcasted?
  }

  ghost function After(s: Sys, step: Step): Sys
    requires Enabled(s, step)
  {
    match step
    case Enqueue(t) =>
      s.(q := EnqueueSection(s.q, t), enqueueSignals := s.enqueueSignals + 1, wg := s.wg + 1,
         enqueued := s.enqueued + [t])
    case EnqueueSignal => s.(enqueueSignals := s.enqueueSignals - 1, disp := Wake(s.disp))
    case Pop(p, i) =>
      var e := s.q.devices[p];
      s.(q := PopSection(s.q, p, i), disp := Starting(Run(e.pending[i], e.serial)),
         dispatched := s.dispatched + [e.pending[i]])
    case Sleep => s.(disp := Asleep)
    case Exit => s.(disp := Exited)
    case Start => s.(executing := s.executing + [s.disp.run], disp := Scanning)
    case Release(k) =>
      s.(q := ReleaseSection(s.q, s.executing[k].task),
         executing := s.executing[..k] + s.executing[k + 1..], releaseSignals := s.releaseSignals + 1)
    case ReleaseSignal =>
      s.(releaseSignals := s.releaseSignals - 1, finishing := s.finishing + 1, disp := Wake(s.disp))
    case Done => s.(finishing := s.finishing - 1, wg := s.wg - 1)
    case Close => s.(q := CloseSection(s.q), closer := Marked(PendingTotal(s.q)))
    case CloseBroadcast => s.(closer := Broadcasted(s.closer.abandoned), disp := Wake(s.disp))
    case CloseSubtract => s.(closer := Finished, wg := s.wg - s.closer.abandoned)
  }

  ghost predicate IsRun(run: seq<Sys>, steps: seq<Step>, maxUp: int, maxDown: int) {
    && |run| == |steps| + 1
    && Init(run[0], maxUp, maxDown)
    && forall i :: 0 <= i < |steps| ==> Enabled(run[i], steps[i]) && run[i + 1] == After(run[i], steps[i])
  }

  // ---- counting and filtering ----

  /** Popped tasks that have not given their slot back. */
  ghost function InFlight(s: Sys): seq<Run> {
    (if s.disp.Starting? then [s.disp.run] else []) + s.executing
  }

  ghost function Held(rs: seq<Run>, p: string, d: Direction): nat {
    if rs == [] then 0
    else (if rs[0].task.peer == p && rs[0].task.dir == d then 1 else 0) + Held(rs[1..], p, d)
  }

  lemma {:induction false} HeldConcat(a: seq<Run>, b: seq<Run>, p: string, d: Direction)
    ensures Held(a + b, p, d) == Held(a, p, d) + Held(b, p, d)
  {
    if a == [] {
      assert a + b == b;
    } else {
      HeldConcat(a[1..], b, p, d);
      assert (a + b)[1..] == a[1..] + b;
    }
  }

  lemma HeldSplit(rs: seq<Run>, k: nat, p: string, d: Direction)
    requires k < |rs|
    ensures Held(rs, p, d) == Held([rs[k]], p, d) + Held(rs[..k] + rs[k + 1..], p, d)
  {
    HeldConcat(rs[..k], rs[k..], p, d);
    HeldConcat([rs[k]], rs[k + 1..], p, d);
    HeldConcat(rs[..k], rs[k + 1..], p, d);
    assert rs[..k] + rs[k..] == rs;
    assert [rs[k]] + rs[k + 1..] == rs[k..];
  }

  lemma {:induction false} HeldNone(rs: seq<Run>, p: string, d: Direction)
    requires forall i :: 0 <= i < |rs| ==> rs[i].task.peer != p
    ensures Held(rs, p, d) == 0
  {
    if rs != [] {
      HeldNone(rs[1..], p, d);
    }
  }

  /** The tasks of one device and direction, in order. */
  ghost function Of(ts: seq<Task>, p: string, d: Direction): seq<Task> {
    if ts == [] then []
    else if ts[0].peer == p && ts[0].dir == d then [ts[0]] + Of(ts[1..], p, d)
    else Of(ts[1..], p, d)
  }

  lemma {:induction false} OfConcat(a: seq<Task>, b: seq<Task>, p: string, d: Direction)
    ensures Of(a + b, p, d) == Of(a, p, d) + Of(b, p, d)
  {
    if a == [] {
      assert a + b == b;
    } else {
      OfConcat(a[1..], b, p, d);
      assert (a + b)[0] == a[0] && (a + b)[1..] == a[1..] + b;
      if a[0].peer == p && a[0].dir == d {
        Associate([a[0]], Of(a[1..], p, d), Of(b, p, d));
      }
    }
  }

  lemma {:induction false} OfNone(ts: seq<Task>, p: string, d: Direction)
    requires forall i :: 0 <= i < |ts| ==> ts[i].peer != p || ts[i].dir != d
    ensures Of(ts, p, d) == []
  {
    if ts != [] {
      OfNone(ts[1..], p, d);
    }
  }

  // ---- the invariant ----

  /** Counters equal the tasks that hold a slot, and never pass the cap. */
  ghost predicate SlotsCounted(q: Locked, rs: seq<Run>) {
    forall p, d :: p in q.devices ==> ActiveFor(q.devices[p], d) == Held(rs, p, d) <= Cap(q, d)
  }

  /** The entry a release will find is the object the task was counted in. */
  ghost predicate HomesKept(q: Locked, rs: seq<Run>) {
    forall k :: 0 <= k < |rs| ==>
      rs[k].task.peer in q.devices && q.devices[rs[k].task.peer].serial == rs[k].home
  }

  ghost predicate EntriesInUse(q: Locked) {
    && (forall p :: p in q.devices ==>
         (if q.closed then q.devices[p].pending == [] else !Drained(q.devices[p])))
    && (forall p, i :: p in q.devices && 0 <= i < |q.devices[p].pending| ==>
         q.devices[p].pending[i].peer == p)
  }

  ghost predicate SerialsDistinct(q: Locked) {
    && (forall p :: p in q.devices ==> q.devices[p].serial < q.minted)
    && (forall p, p' :: p in q.devices && p' in q.devices && p != p' ==>
         q.devices[p].serial != q.devices[p'].serial)
  }

  ghost predicate Sound(q: Locked, rs: seq<Run>) {
    && q.maxUp > 0 && q.maxDown > 0
    && SlotsCounted(q, rs)
    && HomesKept(q, rs)
    && EntriesInUse(q)
    && SerialsDistinct(q)
  }

  ghost predicate InOrder(q: Locked, dispatched: seq<Task>, enqueued: seq<Task>, p: string, d: Direction) {
    if q.closed then Of(dispatched, p, d) <= Of(enqueued, p, d)
    else Of(dispatched, p, d) + Of(Pending(q, p), p, d) == Of(enqueued, p, d)
  }

  ghost function Abandoned(c: Closer): nat {
    if c.Marked? || c.Broadcasted? then c.abandoned else 0
  }

  ghost predicate WaitGroupExact(s: Sys) {
    s.wg == PendingTotal(s.q) + |InFlight(s)| + s.releaseSignals + s.finishing + Abandoned(s.closer)
  }

  /** Someone stands between its Unlock and its Signal or Broadcast. */
  ghost predicate SignalComing(s: Sys) {
    s.enqueueSignals > 0 || s.releaseSignals > 0 || s.closer.Marked?
  }

  ghost predicate NoLostWakeup(s: Sys) {
    s.disp == Asleep && (s.q.closed || HasRunnable(s.q)) ==> SignalComing(s)
  }

  ghost predicate Modes(s: Sys) {
    && (s.q.closed <==> !s.closer.NotClosed?)
    && (s.disp == Exited ==> s.q.closed)
  }

  ghost predicate Inv(s: Sys) {
    && Modes(s)
    && Sound(s.q, InFlight(s))
    && WaitGroupExact(s)
    && NoLostWakeup(s)
    && forall p, d :: InOrder(s.q, s.dispatched, s.enqueued, p, d)
  }

  // ---- each critical section keeps the counters ----

  lemma EnqueueSound(q: Locked, rs: seq<Run>, t: Task)
    requires Sound(q, rs) && !q.closed
    ensures Sound(EnqueueSection(q, t), rs)
  {
    var q' := EnqueueSection(q, t);
    forall p, d | p in q'.devices
      ensures ActiveFor(q'.devices[p], d) == Held(rs, p, d) <= Cap(q', d)
    {
      if p !in q.devices {
        HeldNone(rs, p, d);
      } else {
        assert ActiveFor(q.devices[p], d) == Held(rs, p, d) <= Cap(q, d);
      }
    }
  }

  lemma PopSound(q: Locked, rs: seq<Run>, p: string, i: nat)
    requires Sound(q, rs) && !q.closed && p in q.devices && FirstRunnable(q, q.devices[p], i)
    ensures Sound(PopSection(q, p, i), [Run(q.devices[p].pending[i], q.devices[p].serial)] + rs)
  {
    var q' := PopSection(q, p, i);
    var r := Run(q.devices[p].pending[i], q.devices[p].serial);
    var rs' := [r] + rs;
    assert r.task.peer == p;
    assert rs'[1..] == rs;
    forall p', d | p' in q'.devices
      ensures ActiveFor(q'.devices[p'], d) == Held(rs', p', d) <= Cap(q', d)
    {
      assert ActiveFor(q.devices[p'], d) == Held(rs, p', d) <= Cap(q, d);
    }
    assert ActiveFor(q'.devices[p], r.task.dir) == Held(rs', p, r.task.dir) > 0;
    assert !Drained(q'.devices[p]);
  }

  lemma HeldWithout(rs: seq<Run>, j: nat, p: string, d: Direction)
    requires j < |rs|
    ensures Held(rs[..j] + rs[j + 1..], p, d)
         == Held(rs, p, d) - if rs[j].task.peer == p && rs[j].task.dir == d then 1 else 0
  {
    HeldSplit(rs, j, p, d);
    assert [rs[j]][1..] == [];
  }

  lemma ReleaseCounted(q: Locked, rs: seq<Run>, j: nat, rs': seq<Run>)
    requires Sound(q, rs) && j < |rs| && rs' == rs[..j] + rs[j + 1..]
    ensures SlotsCounted(ReleaseSection(q, rs[j].task), rs')
  {
    var q' := ReleaseSection(q, rs[j].task);
    assert rs[j].task.peer in q.devices;
    forall p, d | p in q'.devices
      ensures ActiveFor(q'.devices[p], d) == Held(rs', p, d) <= Cap(q', d)
    {
      HeldWithout(rs, j, p, d);
      assert ActiveFor(q.devices[p], d) == Held(rs, p, d) <= Cap(q, d);
    }
  }

  /** An entry is only dropped when no other in-flight task was counted in it. */
  lemma ReleaseHomes(q: Locked, rs: seq<Run>, j: nat)
    requires Sound(q, rs) && j < |rs|
    ensures HomesKept(ReleaseSection(q, rs[j].task), rs[..j] + rs[j + 1..])
  {
    var q' := ReleaseSection(q, rs[j].task);
    var rs' := rs[..j] + rs[j + 1..];
    forall m | 0 <= m < |rs'|
      ensures rs'[m].task.peer in q'.devices && q'.devices[rs'[m].task.peer].serial == rs'[m].home
    {
      var x := rs'[m];
      assert x == rs[if m < j then m else m + 1];
      HeldWithout(rs, j, x.task.peer, x.task.dir);
      HeldWithout(rs', m, x.task.peer, x.task.dir);
      assert ActiveFor(q.devices[x.task.peer], x.task.dir) == Held(rs, x.task.peer, x.task.dir);
    }
  }

  lemma ReleaseSound(q: Locked, rs: seq<Run>, j: nat)
    requires Sound(q, rs) && j < |rs|
    ensures Sound(ReleaseSection(q, rs[j].task), rs[..j] + rs[j + 1..])
  {
    ReleaseCounted(q, rs, j, rs[..j] + rs[j + 1..]);
    ReleaseHomes(q, rs, j);
  }

  // ---- and the order ----

  lemma EnqueueInOrder(q: Locked, dispatched: seq<Task>, enqueued: seq<Task>, t: Task, p: string, d: Direction)
    requires InOrder(q, dispatched, enqueued, p, d) && !q.closed
    ensures InOrder(EnqueueSection(q, t), dispatched, enqueued + [t], p, d)
  {
    var before, after := Pending(q, p), Pending(EnqueueSection(q, t), p);
    OfConcat(enqueued, [t], p, d);
    if p == t.peer {
      assert after == before + [t];
      OfConcat(before, [t], p, d);
      Associate(Of(dispatched, p, d), Of(before, p, d), Of([t], p, d));
    } else {
      OfNone([t], p, d);
    }
  }

  /** Taking out the first runnable task takes out the first task of its direction. */
  lemma PopTakesFirst(q: Locked, e: Entry, i: nat, p: string, d: Direction)
    requires FirstRunnable(q, e, i)
    ensures Of(e.pending, p, d)
         == Of([e.pending[i]], p, d) + Of(e.pending[..i] + e.pending[i + 1..], p, d)
  {
    var t := e.pending[i];
    var a, b := e.pending[..i], e.pending[i + 1..];
    assert e.pending == a + ([t] + b);
    OfConcat(a, [t] + b, p, d);
    OfConcat([t], b, p, d);
    OfConcat(a, b, p, d);
    if t.dir == d {
      OfNone(a, p, d);
    } else {
      OfNone([t], p, d);
    }
  }

  lemma PopInOrder(q: Locked, dispatched: seq<Task>, enqueued: seq<Task>, p: string, i: nat, p': string, d: Direction)
    requires InOrder(q, dispatched, enqueued, p', d) && EntriesInUse(q) && !q.closed
    requires p in q.devices && FirstRunnable(q, q.devices[p], i)
    ensures InOrder(PopSection(q, p, i), dispatched + [q.devices[p].pending[i]], enqueued, p', d)
  {
    var e := q.devices[p];
    var t := e.pending[i];
    var q' := PopSection(q, p, i);
    OfConcat(dispatched, [t], p', d);
    if p' == p {
      PopTakesFirst(q, e, i, p, d);
      assert Pending(q', p) == e.pending[..i] + e.pending[i + 1..];
      Associate(Of(dispatched, p, d), Of([t], p, d), Of(Pending(q', p), p, d));
    } else {
      OfNone([t], p', d);
      assert Pending(q', p') == Pending(q, p');
    }
  }

  // ---- each step keeps the invariant ----

  lemma EnqueueKeeps(s: Sys, t: Task)
    requires Inv(s) && Enabled(s, Enqueue(t))
    ensures Inv(After(s, Enqueue(t)))
  {
    var s' := After(s, Enqueue(t));
    EnqueueAddsOne(s.q, t);
    EnqueueSound(s.q, InFlight(s), t);
    forall p, d ensures InOrder(s'.q, s'.dispatched, s'.enqueued, p, d) {
      EnqueueInOrder(s.q, s.dispatched, s.enqueued, t, p, d);
    }
  }

  lemma PopKeepsOrder(s: Sys, p: string, i: nat)
    requires Inv(s) && Enabled(s, Pop(p, i))
    ensures forall p', d ::
      InOrder(PopSection(s.q, p, i), s.dispatched + [s.q.devices[p].pending[i]], s.enqueued, p', d)
  {
    forall p', d
      ensures InOrder(PopSection(s.q, p, i), s.dispatched + [s.q.devices[p].pending[i]], s.enqueued, p', d)
    {
      PopInOrder(s.q, s.dispatched, s.enqueued, p, i, p', d);
    }
  }

  lemma PopKeeps(s: Sys, p: string, i: nat)
    requires Inv(s) && Enabled(s, Pop(p, i))
    ensures Inv(After(s, Pop(p, i)))
  {
    var r := Run(s.q.devices[p].pending[i], s.q.devices[p].serial);
    var s' := s.(q := PopSection(s.q, p, i), disp := Starting(r), dispatched := s.dispatched + [r.task]);
    assert s' == After(s, Pop(p, i));
    PopKeepsOrder(s, p, i);
    PopTakesOne(s.q, p, i);
    assert InFlight(s) == s.executing && InFlight(s') == [r] + s.executing;
    PopSound(s.q, s.executing, p, i);
  }

  /** Spawning moves a run from the front of the in-flight sequence to its end. */
  lemma StartSound(q: Locked, r: Run, rs: seq<Run>)
    requires Sound(q, [r] + rs)
    ensures Sound(q, rs + [r])
  {
    forall p, d | p in q.devices
      ensures ActiveFor(q.devices[p], d) == Held(rs + [r], p, d) <= Cap(q, d)
    {
      HeldConcat([r], rs, p, d);
      HeldConcat(rs, [r], p, d);
    }
    assert ([r] + rs)[0] == r;
    assert forall k :: 0 <= k < |rs| ==> rs[k] == ([r] + rs)[k + 1];
  }

  lemma StartKeeps(s: Sys)
    requires Inv(s) && Enabled(s, Start)
    ensures Inv(After(s, Start))
  {
    StartSound(s.q, s.disp.run, s.executing);
    assert InFlight(After(s, Start)) == s.executing + [s.disp.run];
  }

  /** Removing the k-th executing task from the in-flight sequence. */
  lemma ReleaseShape(s: Sys, k: nat) returns (j: nat)
    requires Enabled(s, Release(k))
    ensures j < |InFlight(s)| && InFlight(s)[j] == s.executing[k]
    ensures InFlight(After(s, Release(k))) == InFlight(s)[..j] + InFlight(s)[j + 1..]
  {
    j := k + if s.disp.Starting? then 1 else 0;
  }

  lemma ReleaseKeeps(s: Sys, k: nat)
    requires Inv(s) && Enabled(s, Release(k))
    ensures Inv(After(s, Release(k)))
  {
    var s' := After(s, Release(k));
    var j := ReleaseShape(s, k);
    ReleaseSound(s.q, InFlight(s), j);
    ReleaseKeepsPending(s.q, s.executing[k].task);
    assert s.executing[k].task.peer in s.q.devices;
    forall p, d ensures InOrder(s'.q, s'.dispatched, s'.enqueued, p, d) {
      assert InOrder(s.q, s.dispatched, s.enqueued, p, d);
    }
  }

  lemma CloseKeeps(s: Sys)
    requires Inv(s) && Enabled(s, Close)
    ensures Inv(After(s, Close))
  {
    var s' := After(s, Close);
    CloseLeavesNone(s.q);
    assert forall p, d :: p in s'.q.devices ==> ActiveFor(s'.q.devices[p], d) == ActiveFor(s.q.devices[p], d);
    forall p, d ensures InOrder(s'.q, s'.dispatched, s'.enqueued, p, d) {
      assert InOrder(s.q, s.dispatched, s.enqueued, p, d);
    }
  }

  lemma QuietStepKeeps(s: Sys, step: Step)
    requires Inv(s) && Enabled(s, step)
    requires !step.Enqueue? && !step.Pop? && !step.Start? && !step.Release? && !step.Close?
    ensures Inv(After(s, step))
  {
    assert After(s, step).q == s.q && InFlight(After(s, step)) == InFlight(s);
  }

  lemma StepKeeps(s: Sys, step: Step)
    requires Inv(s) && Enabled(s, step)
    ensures Inv(After(s, step))
  {
    match step
    case Enqueue(t) => EnqueueKeeps(s, t);
    case Pop(p, i) => PopKeeps(s, p, i);
    case Start => StartKeeps(s);
    case Release(k) => ReleaseKeeps(s, k);
    case Close => CloseKeeps(s);
    case _ => QuietStepKeeps(s, step);
  }

  lemma {:induction false} Reachable(run: seq<Sys>, steps: seq<Step>, maxUp: int, maxDown: int, i: nat)
    requires IsRun(run, steps, maxUp, maxDown) && i < |run|
    ensures Inv(run[i])
  {
    if i == 0 {
      SumZero(PendingSizes(run[0].q));
    } else {
      Reachable(run, steps, maxUp, maxDown, i - 1);
      assert Enabled(run[i - 1], steps[i - 1]);
      StepKeeps(run[i - 1], steps[i - 1]);
    }
  }
}
