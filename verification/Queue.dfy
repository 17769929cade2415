/** The queue object itself: the critical sections as methods on its fields, each proved to do exactly
    what the protocol's step says. */
module Queue {
  import opened MapSum
  import opened QueueState
  import P = QueueProtocol

  datatype EnqueueResult = Accepted | NilTask | QueueClosed

  datatype Popped = NoTask | Popped(task: Task)

  /** What the dispatcher does after one pass under the lock. */
  datatype Decision = Wait | Return | RunTask(task: Task)

  lemma EnqueueMatches(q: Locked, q': Locked, t: Task)
    requires q'.devices.Keys == q.devices.Keys + {t.peer}
    requires forall p :: p in q.devices && p != t.peer ==> q'.devices[p] == q.devices[p]
    requires q'.devices[t.peer] ==
      if t.peer in q.devices then q.devices[t.peer].(pending := q.devices[t.peer].pending + [t])
      else Entry(q.minted, [] + [t], 0, 0)
    requires q' == q.(devices := q'.devices, minted := if t.peer in q.devices then q.minted else q.minted + 1)
    ensures q' == EnqueueSection(q, t)
  {
    assert [] + [t] == [t];
    assert q'.devices == EnqueueSection(q, t).devices;
  }

  ghost function WithEmpty(q: Locked, p: string): Locked
    requires p in q.devices
  {
    q.(devices := q.devices[p := q.devices[p].(pending := [])])
  }

  /** With the pending lists emptied except those of `rest`. */
  ghost function Emptied(q: Locked, rest: set<string>): Locked {
    q.(devices := map p | p in q.devices :: if p in rest then q.devices[p] else q.devices[p].(pending := []))
  }

  lemma EmptiedNext(q: Locked, rest: set<string>, p: string)
    requires p in rest && p in q.devices
    ensures |Emptied(q, rest).devices[p].pending| == PendingSizes(q)[p]
    ensures Emptied(q, rest - {p}) == WithEmpty(Emptied(q, rest), p)
  {
    assert Emptied(q, rest - {p}).devices == WithEmpty(Emptied(q, rest), p).devices;
  }

  lemma EmptiedEnds(q: Locked)
    ensures Emptied(q, q.devices.Keys) == q
    ensures Emptied(q, {}).(closed := true) == CloseSection(q)
  {
    assert Emptied(q, q.devices.Keys).devices == q.devices;
  }

  class DeviceQueue {
    ghost const serial: nat
    var pending: seq<Task>
    var activeUp: int
    var activeDown: int

    constructor (ghost serial: nat)
      ensures this.serial == serial && Abs() == Entry(serial, [], 0, 0)
    {
      this.serial := serial;
      pending := [];
      activeUp := 0;
      activeDown := 0;
    }

    ghost function Abs(): Entry
      reads this
    {
      Entry(serial, pending, activeUp, activeDown)
    }

    method Append(t: Task)
      modifies this`pending
      ensures Abs() == old(Abs()).(pending := old(pending) + [t])
    {
      pending := pending + [t];
    }

    method Abandon() returns (n: nat)
      modifies this`pending
      ensures n == |old(pending)| && Abs() == old(Abs()).(pending := [])
    {
      n := |pending|;
      pending := [];
    }

    method Adjust(d: Direction, n: int)
      modifies this`activeUp, this`activeDown
      ensures Abs() == AddActive(old(Abs()), d, n)
    {
      if d == Upload {
        activeUp := activeUp + n;
      } else {
        activeDown := activeDown + n;
      }
    }
  }

  class Queue {
    const maxUp: int
    const maxDown: int
    var devices: map<string, DeviceQueue>
    var closed: bool
    var wg: int
    ghost var minted: nat

    constructor (up: int, down: int)
      ensures Valid() && fresh(devices.Values)
      ensures Abs() == NewLocked(up, down) && wg == 0
      ensures maxUp == (if up <= 0 then 4 else up) && maxDown == (if down <= 0 then 4 else down)
    {
      maxUp := if up <= 0 then DEFAULT_CAP else up;
      maxDown := if down <= 0 then DEFAULT_CAP else down;
      devices := map[];
      closed := false;
      wg := 0;
      minted := 0;
    }

    ghost predicate Valid()
      reads this
    {
      forall p, p' :: p in devices && p' in devices && devices[p] == devices[p'] ==> p == p'
    }

    ghost function Abs(): Locked
      reads this, devices.Values
    {
      Locked(maxUp, maxDown, map p | p in devices :: devices[p].Abs(), closed, minted)
    }

    method Enqueue(t: Task, hasWork: bool) returns (r: EnqueueResult)
      requires Valid()
      modifies this, devices.Values
      ensures Valid() && fresh(devices.Values - old(devices.Values))
      ensures r == if !hasWork then NilTask else if old(closed) then QueueClosed else Accepted
      ensures Abs() == if r == Accepted then EnqueueSection(old(Abs()), t) else old(Abs())
      ensures wg == old(wg) + if r == Accepted then 1 else 0
    {
      if !hasWork {
        return NilTask;
      }
      if closed {
        return QueueClosed;
      }
      var dq := EntryFor(t.peer);
      dq.Append(t);
      wg := wg + 1;
      EnqueueMatches(old(Abs()), Abs(), t);
      return Accepted;
    }

    method EntryFor(peer: string) returns (dq: DeviceQueue)
      requires Valid()
      modifies this`devices, this`minted
      ensures Valid() && peer in devices && dq == devices[peer]
      ensures peer in old(devices) ==> devices == old(devices) && minted == old(minted)
      ensures peer !in old(devices) ==>
        && fresh(dq) && dq.Abs() == Entry(old(minted), [], 0, 0)
        && devices == old(devices)[peer := dq] && minted == old(minted) + 1
    {
      if peer !in devices {
        var added := new DeviceQueue(minted);
        devices := devices[peer := added];
        minted := minted + 1;
      }
      dq := devices[peer];
    }

    /** The position of the first runnable task of dq, or its length. */
    method FirstIn(dq: DeviceQueue) returns (i: nat)
      requires Valid() && dq in devices.Values
      ensures i <= |dq.pending|
      ensures i < |dq.pending| ==> FirstRunnable(Abs(), dq.Abs(), i)
      ensures i == |dq.pending| ==> !RunnableIn(Abs(), dq.Abs())
    {
      i := 0;
      while i < |dq.pending|
        invariant i <= |dq.pending|
        invariant forall j :: 0 <= j < i ==> !HasSlot(Abs(), dq.Abs(), dq.pending[j])
      {
        var cap := if dq.pending[i].dir == Download then maxDown else maxUp;
        var active := if dq.pending[i].dir == Upload then dq.activeUp else dq.activeDown;
        if active < cap {
          return;
        }
        i := i + 1;
      }
    }

    method AnyRunnable() returns (b: bool)
      requires Valid()
      ensures b <==> HasRunnable(Abs())
    {
      var rest := devices.Keys;
      while rest != {}
        invariant rest <= devices.Keys
        invariant forall p :: p in devices && p !in rest ==> !RunnableIn(Abs(), Abs().devices[p])
      {
        var p :| p in rest;
        var i := FirstIn(devices[p]);
        if i < |devices[p].pending| {
          assert RunnableIn(Abs(), Abs().devices[p]);
          return true;
        }
        rest := rest - {p};
      }
      return false;
    }

    method Pop(peer: string, at: nat) returns (t: Task)
      requires Valid() && peer in devices && at < |devices[peer].pending|
      modifies devices[peer]
      ensures Valid() && t == old(devices[peer].pending[at]) && Abs() == PopSection(old(Abs()), peer, at)
    {
      var dq := devices[peer];
      t := dq.pending[at];
      dq.pending := dq.pending[..at] + dq.pending[at + 1..];
      dq.Adjust(t.dir, 1);
      assert Abs().devices == PopSection(old(Abs()), peer, at).devices;
    }

    method PopRunnable() returns (r: Popped, ghost p: string, ghost i: nat)
      requires Valid()
      modifies devices.Values
      ensures Valid()
      ensures r.NoTask? <==> !HasRunnable(old(Abs()))
      ensures r.NoTask? ==> Abs() == old(Abs())
      ensures r.Popped? ==>
        && p in old(Abs()).devices
        && FirstRunnable(old(Abs()), old(Abs()).devices[p], i)
        && r.task == old(Abs()).devices[p].pending[i]
        && Abs() == PopSection(old(Abs()), p, i)
    {
      var rest := devices.Keys;
      while rest != {}
        invariant rest <= devices.Keys
        invariant Abs() == old(Abs())
        invariant forall k :: k in devices && k !in rest ==> !RunnableIn(Abs(), Abs().devices[k])
      {
        var peer :| peer in rest;
        var dq := devices[peer];
        var at := FirstIn(dq);
        if at < |dq.pending| {
          assert RunnableIn(Abs(), Abs().devices[peer]);
          var t := Pop(peer, at);
          return Popped(t), peer, at;
        }
        rest := rest - {peer};
      }
      return NoTask, "", 0;
    }

    /** One pass of the dispatch loop under the lock. It never pops nothing. */
    method DispatchPass() returns (d: Decision, ghost step: P.Step)
      requires Valid()
      modifies devices.Values
      ensures Valid()
      ensures match d
        case Wait => step == P.Sleep
        case Return => step == P.Exit
        case RunTask(t) => step.Pop?
      ensures forall s: P.Sys :: s.q == old(Abs()) && s.disp == P.Scanning ==>
        && P.Enabled(s, step)
        && P.After(s, step).q == Abs()
        && (d.RunTask? ==> P.After(s, step).disp.run.task == d.task)
    {
      if closed {
        return Return, P.Exit;
      }
      var any := AnyRunnable();
      if !any {
        return Wait, P.Sleep;
      }
      var r, p, i := PopRunnable();
      return RunTask(r.task), P.Pop(p, i);
    }

    method ReleaseSlot(t: Task)
      requires Valid()
      modifies this`devices, devices.Values
      ensures Valid() && devices.Values <= old(devices.Values)
      ensures Abs() == ReleaseSection(old(Abs()), t)
    {
      if t.peer in devices {
        var dq := devices[t.peer];
        dq.Adjust(t.dir, -1);
        assert forall p :: p in devices && p != t.peer ==> devices[p].Abs() == old(devices[p].Abs());
        if |dq.pending| == 0 && dq.activeUp == 0 && dq.activeDown == 0 {
          devices := devices - {t.peer};
        }
      }
    }

    method AbandonOne(p: string) returns (n: nat)
      requires Valid() && p in devices
      modifies devices[p]
      ensures Valid() && n == |old(devices[p].pending)|
      ensures Abs() == WithEmpty(old(Abs()), p)
    {
      n := devices[p].Abandon();
      assert Abs().devices == WithEmpty(old(Abs()), p).devices;
    }

    /** Empties every pending list and counts what was in them. */
    method AbandonAll() returns (count: nat)
      requires Valid()
      modifies devices.Values
      ensures Valid()
      ensures count == PendingTotal(old(Abs()))
      ensures Abs() == Emptied(old(Abs()), {})
    {
      count := 0;
      var rest := devices.Keys;
      ghost var sizes := PendingSizes(old(Abs()));
      SumOverEnds(sizes);
      EmptiedEnds(old(Abs()));
      assert rest == sizes.Keys;
      while rest != {}
        invariant rest <= devices.Keys
        invariant Abs() == Emptied(old(Abs()), rest)
        invariant count + SumOver(sizes, rest) == Sum(sizes)
      {
        var p :| p in rest;
        SumOverTake(sizes, rest, p);
        EmptiedNext(old(Abs()), rest, p);
        var n := AbandonOne(p);
        assert n == sizes[p];
        count := count + n;
        rest := rest - {p};
      }
    }

    /** The locked part of Close: what it returns is what the WaitGroup must later lose. */
    method CloseLocked() returns (first: bool, pendingCount: nat)
      requires Valid()
      modifies this`closed, devices.Values
      ensures Valid()
      ensures first <==> !old(closed)
      ensures Abs() == if first then CloseSection(old(Abs())) else old(Abs())
      ensures pendingCount == if first then PendingTotal(old(Abs())) else 0
    {
      if closed {
        return false, 0;
      }
      pendingCount := AbandonAll();
      closed := true;
      EmptiedEnds(old(Abs()));
      return true, pendingCount;
    }
  }
}
