/** The state guarded by the queue's mutex, and what each critical section does to it. */
module QueueState {
  import opened MapSum

  datatype Direction = Upload | Download

  datatype Task = Task(id: string, peer: string, dir: Direction)

  /** One peer's entry. `serial` stands for the address of the entry object: every entry ever
      allocated has its own. */
  datatype Entry = Entry(serial: nat, pending: seq<Task>, activeUp: int, activeDown: int)

  datatype Locked = Locked(
    maxUp: int, maxDown: int, devices: map<string, Entry>, closed: bool, minted: nat)

  const DEFAULT_CAP := 4

  function ActiveFor(e: Entry, d: Direction): int {
    if d == Upload then e.activeUp else e.activeDown
  }

  function AddActive(e: Entry, d: Direction, n: int): Entry {
    if d == Upload then e.(activeUp := e.activeUp + n) else e.(activeDown := e.activeDown + n)
  }

  function Cap(q: Locked, d: Direction): int {
    if d == Download then q.maxDown else q.maxUp
  }

  predicate HasSlot(q: Locked, e: Entry, t: Task) {
    ActiveFor(e, t.dir) < Cap(q, t.dir)
  }

  /** Position i holds the first pending task of e whose direction has a free slot. */
  ghost predicate FirstRunnable(q: Locked, e: Entry, i: nat) {
    && i < |e.pending|
    && HasSlot(q, e, e.pending[i])
    && forall j :: 0 <= j < i ==> !HasSlot(q, e, e.pending[j])
  }

  ghost predicate RunnableIn(q: Locked, e: Entry) {
    exists i :: 0 <= i < |e.pending| && HasSlot(q, e, e.pending[i])
  }

  ghost predicate HasRunnable(q: Locked) {
    exists p :: p in q.devices && RunnableIn(q, q.devices[p])
  }

  ghost function PendingSizes(q: Locked): map<string, nat> {
    map p | p in q.devices :: |q.devices[p].pending|
  }

  ghost function PendingTotal(q: Locked): nat {
    Sum(PendingSizes(q))
  }

  function Pending(q: Locked, p: string): seq<Task> {
    if p in q.devices then q.devices[p].pending else []
  }

  predicate Drained(e: Entry) {
    e.pending == [] && e.activeUp == 0 && e.activeDown == 0
  }

  // ---- the critical sections ----

  function NewLocked(maxUp: int, maxDown: int): Locked {
    Locked(if maxUp <= 0 then DEFAULT_CAP else maxUp, if maxDown <= 0 then DEFAULT_CAP else maxDown,
           map[], false, 0)
  }

  function EnqueueSection(q: Locked, t: Task): Locked {
    if t.peer in q.devices then
      var e := q.devices[t.peer];
      q.(devices := q.devices[t.peer := e.(pending := e.pending + [t])])
    else
      q.(devices := q.devices[t.peer := Entry(q.minted, [t], 0, 0)], minted := q.minted + 1)
  }

  function PopSection(q: Locked, p: string, i: nat): Locked
    requires p in q.devices && i < |q.devices[p].pending|
  {
    var e := q.devices[p];
    var rest := e.(pending := e.pending[..i] + e.pending[i + 1..]);
    q.(devices := q.devices[p := AddActive(rest, e.pending[i].dir, 1)])
  }

  function ReleaseSection(q: Locked, t: Task): Locked {
    if t.peer in q.devices then
      var e := AddActive(q.devices[t.peer], t.dir, -1);
      if Drained(e) then q.(devices := q.devices - {t.peer})
      else q.(devices := q.devices[t.peer := e])
    else q
  }

  function CloseSection(q: Locked): Locked {
    q.(closed := true, devices := map p | p in q.devices :: q.devices[p].(pending := []))
  }

  // ---- how the sections change the number of pending tasks ----

  lemma EnqueueAddsOne(q: Locked, t: Task)
    ensures PendingTotal(EnqueueSection(q, t)) == PendingTotal(q) + 1
  {
    var q' := EnqueueSection(q, t);
    var m := PendingSizes(q);
    assert PendingSizes(q') == m[t.peer := |Pending(q, t.peer)| + 1];
    SumUpdate(m, t.peer, |Pending(q, t.peer)| + 1);
    if t.peer in m {
      SumTake(m, t.peer);
    } else {
      assert m - {t.peer} == m;
    }
  }

  lemma PopTakesOne(q: Locked, p: string, i: nat)
    requires p in q.devices && i < |q.devices[p].pending|
    ensures PendingTotal(PopSection(q, p, i)) == PendingTotal(q) - 1
  {
    var m := PendingSizes(q);
    assert PendingSizes(PopSection(q, p, i)) == m[p := m[p] - 1];
    SumUpdate(m, p, m[p] - 1);
    SumTake(m, p);
  }

  lemma ReleaseKeepsPending(q: Locked, t: Task)
    ensures PendingTotal(ReleaseSection(q, t)) == PendingTotal(q)
  {
    var m := PendingSizes(q);
    var m' := PendingSizes(ReleaseSection(q, t));
    if t.peer in m {
      SumTake(m, t.peer);
      if t.peer in m' {
        assert m' == m;
      } else {
        assert m' == m - {t.peer};
        assert m[t.peer] == 0;
      }
    }
  }

  lemma CloseLeavesNone(q: Locked)
    ensures PendingTotal(CloseSection(q)) == 0
  {
    SumZero(PendingSizes(CloseSection(q)));
  }
}
