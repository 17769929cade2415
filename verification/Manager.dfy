/** The transfer manager and its cancel registry. Their methods are the critical sections that the
    steps of CancelProtocol interleave. */
module Manager {
  import opened CancelProtocol

  datatype Failure = NotFound | LimitReached | InvalidTransition | NotRegistered
  datatype Result<T> = Ok(value: T) | Err(error: Failure)
  datatype Outcome = Done | Refused(error: Failure)

  // ---- the budget ----

  predicate Occupies(s: Status) {
    s == Pending || s == Connecting || s == Transferring
  }

  ghost function Active(m: map<Id, Status>): set<Id> {
    set id | id in m && Occupies(m[id])
  }

  function Updated(m: map<Id, Status>, id: Id, st: Status): map<Id, Status> {
    if id in m && MayBecome(m[id], st) then m[id := st] else m
  }

  lemma ActiveUpdate(m: map<Id, Status>, id: Id, st: Status)
    ensures Active(m[id := st]) == if Occupies(st) then Active(m) + {id} else Active(m) - {id}
  {
  }

  ghost function ActiveAmong(m: map<Id, Status>, seen: set<Id>): set<Id> {
    set id | id in seen && id in m && Occupies(m[id])
  }

  lemma ActiveAmongMore(m: map<Id, Status>, seen: set<Id>, id: Id)
    requires id in m && id !in seen
    ensures |ActiveAmong(m, seen + {id})| == |ActiveAmong(m, seen)| + if Occupies(m[id]) then 1 else 0
  {
    assert ActiveAmong(m, seen + {id}) == ActiveAmong(m, seen) + if Occupies(m[id]) then {id} else {};
  }

  lemma ActiveAmongAll(m: map<Id, Status>)
    ensures ActiveAmong(m, m.Keys) == Active(m)
  {
  }

  lemma OneMore(m: map<Id, Status>, id: Id, limit: nat)
    requires |Active(m)| < limit
    ensures |Active(m[id := Pending])| <= limit
  {
    ActiveUpdate(m, id, Pending);
  }

  lemma SameStatus(m: map<Id, Status>, id: Id)
    requires id in m
    ensures m[id := m[id]] == m
  {
  }

  /** The admission test of Create is the only one. A status update keeps the number of active
      transfers within the limit, unless it is a retry or a resume, which goes back to connecting
      when every slot is taken. */
  lemma LimitKeptIff(m: map<Id, Status>, id: Id, st: Status, limit: nat)
    requires |Active(m)| <= limit
    ensures |Active(Updated(m, id, st))| <= limit <==>
            !(&& |Active(m)| == limit
              && id in m && (m[id] == Failed || m[id] == AwaitingResume) && st == Connecting)
  {
    if id in m && MayBecome(m[id], st) {
      ActiveUpdate(m, id, st);
      OneInOrOut(Active(m), id);
      TableByEntry(m[id]);
    }
  }

  /** A transfer has a slot from its creation until it is over or waits to be resumed, and takes one again when it
      is tried again. */
  lemma SlotMoves(m: map<Id, Status>, id: Id, st: Status)
    requires id in m && Leads(m[id], st)
    ensures var m' := Updated(m, id, st);
            |Active(m')| == |Active(m)| + (if m[id] in {Failed, AwaitingResume} && st == Connecting then 1
                                           else if m[id] in {Pending, Connecting, Transferring} && st !in {Connecting, Transferring} then -1
                                           else 0)
  {
    TableByEntry(m[id]);
    assert Updated(m, id, st) == m[id := st];
    ActiveUpdate(m, id, st);
    assert id in Active(m) <==> Occupies(m[id]);
    OneInOrOut(Active(m), id);
  }

  lemma OneInOrOut(a: set<Id>, id: Id)
    ensures |a + {id}| == |a| + if id in a then 0 else 1
    ensures |a - {id}| == |a| - if id in a then 1 else 0
  {
    assert id in a ==> a + {id} == a;
    assert id !in a ==> a - {id} == a;
  }

  lemma NewTakesSlot(m: map<Id, Status>, id: Id)
    requires id !in m
    ensures |Active(m[id := Pending])| == |Active(m)| + 1
  {
    ActiveUpdate(m, id, Pending);
  }

  /** A retry while another transfer takes the only slot makes two. */
  lemma RetryPassesLimit(a: Id, b: Id)
    requires a != b
    ensures var m := map[a := Connecting, b := Failed];
            |Active(m)| == 1 && |Active(Updated(m, b, Connecting))| == 2
  {
    var m := map[a := Connecting, b := Failed];
    assert Active(m) == {a};
    assert Active(Updated(m, b, Connecting)) == {a, b};
  }

  predicate Terminal(s: Status) {
    Allowed(s) == {}
  }

  /** The two states without outgoing moves are the two that no update can change. */
  lemma TerminalIff(s: Status)
    ensures Terminal(s) <==> s == Completed || s == Cancelled
    ensures Terminal(s) <==> forall next :: MayBecome(s, next) ==> next == s
  {
    if s != Completed && s != Cancelled {
      assert Failed != s ==> MayBecome(s, Failed);
      assert s == Failed ==> MayBecome(s, Connecting);
      assert Failed in Allowed(s) || Connecting in Allowed(s);
    }
  }

  /** The statuses move in the methods of Manager as they do in the steps of CancelProtocol: UpdateStatus is
      SetStatus, the admitted part of Create is Create, and the first critical section of Cancel is
      ManagerMark, enabled exactly when the table allows it. */
  lemma StatusesMoveAlike(s: Sys, id: Id, st: Status, t: nat)
    ensures Enabled(s, SetStatus(id, st)) ==> After(s, SetStatus(id, st)).status == Updated(s.status, id, st)
    ensures Enabled(s, Step.Create(id)) ==> After(s, Step.Create(id)).status == s.status[id := Pending]
    ensures t !in s.threads ==> (Enabled(s, ManagerMark(id, t)) <==> id in s.status && s.status[id] !in {Completed, Failed, Cancelled})
    ensures Enabled(s, ManagerMark(id, t)) ==> After(s, ManagerMark(id, t)).status == s.status[id := Cancelled]
  {
  }

  // ---- the registry's entries move alike ----

  datatype Standing = Standing(ctxDone: bool, cleanupRan: bool)

  /** Every entry of the map is an object of that name; part of the protocol's invariant. */
  ghost predicate Named(s: Sys) {
    forall id :: id in s.entries ==> s.entries[id] < |s.objs| && s.objs[s.entries[id]].id == id
  }

  function StandingOf(e: Entry): Standing {
    Standing(e.ctxDone, e.cleanupRan)
  }

  ghost function Standings(s: Sys): map<Id, Standing>
    requires Named(s)
  {
    map id | id in s.entries :: StandingOf(s.objs[s.entries[id]])
  }

  /** All objects but one are as they were. */
  ghost predicate OnlyTouches(s: Sys, s': Sys, o: nat) {
    |s'.objs| >= |s.objs| && forall k :: 0 <= k < |s.objs| && k != o ==> s'.objs[k] == s.objs[k]
  }

  lemma EntryDropped(s: Sys, s': Sys, id: Id)
    requires Named(s) && s'.entries == s.entries - {id}
    requires OnlyTouches(s, s', if id in s.entries then s.entries[id] else |s.objs|)
    ensures Named(s') && Standings(s') == Standings(s) - {id}
  {
    forall k | k in s'.entries ensures s'.objs[s.entries[k]] == s.objs[s.entries[k]] {
      assert s.objs[s.entries[k]].id == k;
    }
  }

  lemma EntryAdded(s: Sys, s': Sys, id: Id)
    requires Named(s) && s'.entries == s.entries[id := |s.objs|] && |s'.objs| > |s.objs|
    requires s'.objs[|s.objs|] == NewEntry(id)
    requires OnlyTouches(s, s', if id in s.entries then s.entries[id] else |s.objs|)
    ensures Named(s') && Standings(s') == Standings(s)[id := Standing(false, false)]
  {
    forall k | k in s'.entries && k != id ensures s'.objs[s.entries[k]] == s.objs[s.entries[k]] {
      assert s.objs[s.entries[k]].id == k;
    }
  }

  lemma PassedThrough<V>(m: map<nat, V>, t: nat, v: V, w: V)
    requires t !in m
    ensures m[t := v][t := w] - {t} == m && m[t := v] - {t} == m
  {
  }

  lemma CancelSteps(s: Sys, id: Id, t: nat) returns (s': Sys)
    requires Enabled(s, TakeToCancel(id, t))
    ensures Enabled(After(s, TakeToCancel(id, t)), CallCancel(t))
    ensures Enabled(After(After(s, TakeToCancel(id, t)), CallCancel(t)), RunCleanup(t))
    ensures s' == After(After(After(s, TakeToCancel(id, t)), CallCancel(t)), RunCleanup(t))
    ensures s'.entries == s.entries - {id} && OnlyTouches(s, s', s.entries[id]) && |s'.objs| == |s.objs|
    ensures StandingOf(s'.objs[s.entries[id]]) == Standing(true, true) && s'.threads == s.threads
  {
    s' := After(After(After(s, TakeToCancel(id, t)), CallCancel(t)), RunCleanup(t));
    PassedThrough(s.threads, t, Cancelling(s.entries[id], Other), Cleaning(s.entries[id], Other));
  }

  lemma CleanupSteps(s: Sys, id: Id, t: nat) returns (s': Sys)
    requires Enabled(s, TakeToClean(id, t))
    ensures Enabled(After(s, TakeToClean(id, t)), RunCleanup(t)) && s' == After(After(s, TakeToClean(id, t)), RunCleanup(t))
    ensures s'.entries == s.entries - {id} && OnlyTouches(s, s', s.entries[id]) && |s'.objs| == |s.objs|
    ensures StandingOf(s'.objs[s.entries[id]]) == Standing(s.objs[s.entries[id]].ctxDone, true) && s'.threads == s.threads
  {
    s' := After(After(s, TakeToClean(id, t)), RunCleanup(t));
    assert s'.threads == s.threads;
  }

  lemma RegisterSteps(s: Sys, id: Id, t: nat) returns (s': Sys)
    requires Enabled(s, ForeignRegister(id, t)) && id in s.entries
    ensures Enabled(After(s, ForeignRegister(id, t)), RunCleanup(t))
    ensures s' == After(After(s, ForeignRegister(id, t)), RunCleanup(t))
    ensures s'.entries == s.entries[id := |s.objs|] && |s'.objs| == |s.objs| + 1 && s'.objs[|s.objs|] == NewEntry(id)
    ensures OnlyTouches(s, s', s.entries[id]) && s'.threads == s.threads
    ensures StandingOf(s'.objs[s.entries[id]]) == Standing(s.objs[s.entries[id]].ctxDone, true)
  {
    var added := After(s, ForeignRegister(id, t));
    assert added.entries == s.entries[id := |s.objs|];
    s' := After(added, RunCleanup(t));
    assert s'.threads == s.threads;
  }

  /** A registry that holds what the state s holds goes on holding what the steps of s leave. Cancel by
      itself is TakeToCancel, CallCancel and RunCleanup. */
  lemma CancelMovesAlike(s: Sys, held: map<Id, Standing>, id: Id, t: nat) returns (s': Sys)
    requires Named(s) && held == Standings(s) && Enabled(s, TakeToCancel(id, t))
    ensures Enabled(After(s, TakeToCancel(id, t)), CallCancel(t))
    ensures Enabled(After(After(s, TakeToCancel(id, t)), CallCancel(t)), RunCleanup(t))
    ensures s' == After(After(After(s, TakeToCancel(id, t)), CallCancel(t)), RunCleanup(t))
    ensures Named(s') && Standings(s') == held - {id} && s'.threads == s.threads && |s'.objs| == |s.objs|
    ensures StandingOf(s'.objs[s.entries[id]]) == Standing(true, true)
  {
    s' := CancelSteps(s, id, t);
    EntryDropped(s, s', id);
  }

  /** Cleanup is TakeToClean and RunCleanup. */
  lemma CleanupMovesAlike(s: Sys, held: map<Id, Standing>, id: Id, t: nat) returns (s': Sys)
    requires Named(s) && held == Standings(s) && Enabled(s, TakeToClean(id, t))
    ensures Enabled(After(s, TakeToClean(id, t)), RunCleanup(t)) && s' == After(After(s, TakeToClean(id, t)), RunCleanup(t))
    ensures Named(s') && Standings(s') == held - {id} && s'.threads == s.threads && |s'.objs| == |s.objs|
    ensures StandingOf(s'.objs[s.entries[id]]) == Standing(held[id].ctxDone, true)
  {
    s' := CleanupSteps(s, id, t);
    EntryDropped(s, s', id);
  }

  /** Complete is ExecComplete. */
  lemma CompleteMovesAlike(s: Sys, held: map<Id, Standing>, id: Id)
    requires Named(s) && held == Standings(s) && Enabled(s, ExecComplete(id))
    ensures var s' := After(s, ExecComplete(id));
            && Named(s') && Standings(s') == held - {id} && |s'.objs| == |s.objs|
            && (id in held ==> StandingOf(s'.objs[s.entries[id]]) == held[id])
  {
    var s' := After(s, ExecComplete(id));
    assert s'.entries == s.entries - {id};
    EntryDropped(s, s', id);
  }

  /** Register is ForeignRegister, and RunCleanup for the entry it replaced. */
  lemma RegisterMovesAlike(s: Sys, held: map<Id, Standing>, id: Id, t: nat) returns (s': Sys)
    requires Named(s) && held == Standings(s) && Enabled(s, ForeignRegister(id, t))
    ensures var added := After(s, ForeignRegister(id, t));
            if id in held then Enabled(added, RunCleanup(t)) && s' == After(added, RunCleanup(t)) else s' == added
    ensures Named(s') && Standings(s') == held[id := Standing(false, false)] && s'.threads == s.threads
    ensures id in held ==> |s'.objs| > |s.objs| && StandingOf(s'.objs[s.entries[id]]) == Standing(held[id].ctxDone, true)
  {
    if id in held {
      s' := RegisterSteps(s, id, t);
    } else {
      s' := After(s, ForeignRegister(id, t));
    }
    EntryAdded(s, s', id);
  }

  // ---- objects ----

  class StateMachine {
    var current: Status
    ghost const owner: Id

    constructor (initial: Status, ghost owner: Id)
      ensures current == initial && this.owner == owner
    {
      current := initial;
      this.owner := owner;
    }

    predicate IsTerminal()
      reads this
    {
      Terminal(current)
    }

    method Transition(next: Status) returns (ok: bool)
      modifies this
      ensures ok == Leads(old(current), next)
      ensures current == if ok then next else old(current)
      ensures old(IsTerminal()) ==> !ok
    {
      TableByEntry(current);
      ok := next in Allowed(current);
      if ok { current := next; }
    }
  }

  class Transfer {
    const id: Id
    const sm: StateMachine
    var status: Status
    var sentBytes: int
    var error: string

    constructor (id: Id)
      ensures this.id == id && status == Pending && sentBytes == 0 && error == ""
      ensures fresh(sm) && sm.current == Pending && sm.owner == id
    {
      this.id := id;
      sm := new StateMachine(Pending, id);
      status, sentBytes, error := Pending, 0, "";
    }

    method Move(next: Status) returns (ok: bool)
      requires status == sm.current
      modifies this`status, sm
      ensures status == sm.current && ok == Leads(old(status), next)
      ensures status == if ok then next else old(status)
    {
      ok := sm.Transition(next);
      if ok { status := next; }
    }
  }

  /** A registered transfer. The two callbacks are seen by what they do: the context ends, and the
      temporary data is purged once more. */
  class CancelEntry {
    const id: Id
    const cancels: bool
    const cleans: bool
    var ctxDone: bool
    var cleanupRan: bool
    var purges: nat

    constructor (id: Id, cancels: bool, cleans: bool)
      ensures this.id == id && this.cancels == cancels && this.cleans == cleans
      ensures !ctxDone && !cleanupRan && purges == 0
    {
      this.id, this.cancels, this.cleans := id, cancels, cleans;
      ctxDone, cleanupRan, purges := false, false, 0;
    }

    method RunCleanup()
      modifies this
      ensures cleanupRan && ctxDone == old(ctxDone)
      ensures purges == old(purges) + if old(!cleanupRan) && cleans then 1 else 0
    {
      if cleanupRan { return; }
      cleanupRan := true;
      if cleans { purges := purges + 1; }
    }

    method CallCancel()
      modifies this`ctxDone
      ensures ctxDone == (old(ctxDone) || cancels)
    {
      if cancels { ctxDone := true; }
    }
  }

  class CancelRegistry {
    var entries: map<Id, CancelEntry>

    /** What is in the map has not been cleaned, and every entry is under its own ID. */
    ghost predicate Valid()
      reads this, entries.Values
    {
      forall id :: id in entries ==> entries[id].id == id && !entries[id].cleanupRan && entries[id].purges == 0
    }

    /** What the map holds, as the steps of CancelProtocol see it. */
    ghost function Held(): map<Id, Standing>
      reads this, entries.Values
    {
      map id | id in entries :: Standing(entries[id].ctxDone, entries[id].cleanupRan)
    }

    constructor ()
      ensures entries == map[] && Valid()
    {
      entries := map[];
    }

    /** A replaced entry is cleaned, not cancelled. */
    method Register(id: Id, cancels: bool, cleans: bool) returns (e: CancelEntry)
      requires Valid()
      modifies this, entries.Values
      ensures Valid() && fresh(e) && entries == old(entries)[id := e] && Held() == old(Held())[id := Standing(false, false)]
      ensures e.cancels == cancels && e.cleans == cleans && !e.ctxDone
      ensures id in old(entries) ==> var was := old(entries[id]);
                && was.cleanupRan && was.purges == (if was.cleans then 1 else 0) && was.ctxDone == old(was.ctxDone)
      ensures forall k :: k in old(entries) && k != id ==> unchanged(old(entries[k]))
    {
      var replaced := id in entries;
      var before := entries;
      e := new CancelEntry(id, cancels, cleans);
      entries := entries[id := e];
      if replaced {
        before[id].RunCleanup();
      }
    }

    method Cancel(id: Id) returns (r: Outcome)
      requires Valid()
      modifies this, entries.Values
      ensures Valid() && entries == old(entries) - {id} && Held() == old(Held()) - {id}
      ensures r == if id in old(entries) then Done else Refused(NotRegistered)
      ensures id in old(entries) ==> var e := old(entries[id]);
                && e.ctxDone == (old(e.ctxDone) || e.cancels) && e.purges == (if e.cleans then 1 else 0) && e.cleanupRan
      ensures forall k :: k in old(entries) && k != id ==> unchanged(old(entries[k]))
    {
      if id !in entries {
        assert entries - {id} == entries;
        return Refused(NotRegistered);
      }
      var e := entries[id];
      entries := entries - {id};
      e.CallCancel();
      e.RunCleanup();
      return Done;
    }

    method Cleanup(id: Id) returns (r: Outcome)
      requires Valid()
      modifies this, entries.Values
      ensures Valid() && entries == old(entries) - {id} && Held() == old(Held()) - {id}
      ensures r == if id in old(entries) then Done else Refused(NotRegistered)
      ensures id in old(entries) ==> var e := old(entries[id]);
                && e.ctxDone == old(e.ctxDone) && e.purges == (if e.cleans then 1 else 0) && e.cleanupRan
      ensures forall k :: k in old(entries) && k != id ==> unchanged(old(entries[k]))
    {
      if id !in entries {
        assert entries - {id} == entries;
        return Refused(NotRegistered);
      }
      var e := entries[id];
      entries := entries - {id};
      e.RunCleanup();
      return Done;
    }

    method Complete(id: Id)
      requires Valid()
      modifies this
      ensures Valid() && entries == old(entries) - {id} && Held() == old(Held()) - {id}
    {
      entries := entries - {id};
    }

    /** Every entry is cancelled and cleaned, each exactly once. */
    method CancelAll()
      requires Valid()
      modifies this, entries.Values
      ensures Valid() && entries == map[]
      ensures forall id :: id in old(entries) ==> var e := old(entries[id]);
                && e.ctxDone == (old(e.ctxDone) || e.cancels) && e.purges == (if e.cleans then 1 else 0) && e.cleanupRan
    {
      var taken := entries;
      entries := map[];
      var rest := taken.Keys;
      while rest != {}
        invariant rest <= taken.Keys
        invariant forall id :: id in rest ==> unchanged(taken[id])
        invariant forall id :: id in taken && id !in rest ==> var e := taken[id];
                    && e.ctxDone == (old(e.ctxDone) || e.cancels) && e.purges == (if e.cleans then 1 else 0) && e.cleanupRan
        invariant entries == map[]
        decreases rest
      {
        var id :| id in rest;
        taken[id].CallCancel();
        taken[id].RunCleanup();
        rest := rest - {id};
      }
    }
  }

  class Manager {
    var transfers: map<Id, Transfer>
    const maxActive: nat
    const cancelReg: CancelRegistry

    /** A transfer's Status field and its state machine never disagree. */
    ghost predicate Valid()
      reads this, transfers.Values, Machines(), cancelReg, cancelReg.entries.Values
    {
      && cancelReg.Valid()
      && forall id :: id in transfers ==>
           && transfers[id].id == id && transfers[id].sm.owner == id
           && transfers[id].status == transfers[id].sm.current
    }

    ghost function Machines(): set<StateMachine>
      reads this, transfers.Values
    {
      set id | id in transfers :: transfers[id].sm
    }

    ghost function Statuses(): map<Id, Status>
      reads this, transfers.Values
    {
      map id | id in transfers :: transfers[id].status
    }

    constructor (maxActive: int)
      ensures Valid() && Statuses() == map[] && fresh(cancelReg) && cancelReg.entries == map[]
      ensures this.maxActive == if maxActive <= 0 then 3 else maxActive
    {
      this.maxActive := if maxActive <= 0 then 3 else maxActive;
      transfers := map[];
      cancelReg := new CancelRegistry();
    }

    method Move(t: Transfer, next: Status) returns (ok: bool)
      requires Valid() && t.id in transfers && transfers[t.id] == t
      modifies t`status, t.sm
      ensures Valid() && ok == Leads(old(t.status), next)
      ensures Statuses() == if ok then old(Statuses())[t.id := next] else old(Statuses())
    {
      ok := t.Move(next);
    }

    /** Moving to the present state is no transition. */
    method Advance(t: Transfer, next: Status) returns (ok: bool)
      requires Valid() && t.id in transfers && transfers[t.id] == t
      modifies t`status, t.sm
      ensures Valid() && ok == MayBecome(old(t.status), next)
      ensures Statuses() == Updated(old(Statuses()), t.id, next)
    {
      SameStatus(Statuses(), t.id);
      TableByEntry(t.status);
      ok := true;
      if next != t.status {
        ok := Move(t, next);
      }
    }

    method ActiveCount() returns (n: nat)
      ensures n == |Active(Statuses())|
    {
      n := 0;
      var rest := transfers.Keys;
      ghost var seen: set<Id> := {};
      while rest != {}
        invariant seen + rest == transfers.Keys && seen !! rest
        invariant n == |ActiveAmong(Statuses(), seen)|
        decreases rest
      {
        var id :| id in rest;
        ActiveAmongMore(Statuses(), seen, id);
        if Occupies(transfers[id].status) {
          n := n + 1;
        }
        rest := rest - {id};
        seen := seen + {id};
      }
      assert seen == Statuses().Keys;
      ActiveAmongAll(Statuses());
    }

    /** Admits a transfer exactly when ActiveCount reports a free slot, and never beyond the limit. */
    method Create(id: Id) returns (r: Result<Transfer>)
      requires Valid()
      modifies this
      ensures Valid()
      ensures r.Ok? <==> |Active(old(Statuses()))| < maxActive
      ensures r.Ok? ==> fresh(r.value) && fresh(r.value.sm) && transfers == old(transfers)[id := r.value]
                        && Statuses() == old(Statuses())[id := Pending] && |Active(Statuses())| <= maxActive
      ensures r.Err? ==> r.error == LimitReached && transfers == old(transfers) && Statuses() == old(Statuses())
    {
      var active := ActiveCount();
      if active >= maxActive {
        return Err(LimitReached);
      }
      var t := new Transfer(id);
      Admit(t);
      OneMore(old(Statuses()), id, maxActive);
      return Ok(t);
    }

    method Admit(t: Transfer)
      requires Valid() && t.status == t.sm.current && t.sm.owner == t.id
      modifies this`transfers
      ensures Valid() && transfers == old(transfers)[t.id := t] && Statuses() == old(Statuses())[t.id := t.status]
    {
      transfers := transfers[t.id := t];
    }

    method Note(t: Transfer, errMsg: string)
      requires Valid()
      modifies t`error
      ensures Valid() && Statuses() == old(Statuses())
      ensures t.error == if errMsg != "" then errMsg else old(t.error)
    {
      if errMsg != "" { t.error := errMsg; }
    }

    /** What an update of one transfer may touch. */
    ghost function Touched(id: Id): set<object>
      reads this, transfers.Values
    {
      if id in transfers then {transfers[id], transfers[id].sm} else {}
    }

    method UpdateStatus(id: Id, status: Status, errMsg: string) returns (r: Result<Transfer>)
      requires Valid()
      modifies Touched(id)
      ensures Valid() && Statuses() == Updated(old(Statuses()), id, status)
      ensures r == if id !in transfers then Err(NotFound)
                   else if status == old(Statuses())[id] || Leads(old(Statuses())[id], status) then Ok(transfers[id]) else Err(InvalidTransition)
      ensures id in transfers ==> transfers[id].sentBytes == old(transfers[id].sentBytes)
      ensures id in transfers ==> transfers[id].error == if r.Ok? && errMsg != "" then errMsg else old(transfers[id].error)
    {
      if id !in transfers { return Err(NotFound); }
      var t := transfers[id];
      TableByEntry(t.status);
      var ok := Advance(t, status);
      if !ok { return Err(InvalidTransition); }
      Note(t, errMsg);
      return Ok(t);
    }

    method UpdateProgress(id: Id, sentBytes: int) returns (r: Result<Transfer>)
      requires Valid()
      modifies Touched(id)
      ensures Valid() && Statuses() == old(Statuses())
      ensures r == if id in transfers then Ok(transfers[id]) else Err(NotFound)
      ensures id in transfers ==> transfers[id].sentBytes == sentBytes && transfers[id].error == old(transfers[id].error)
    {
      if id !in transfers { return Err(NotFound); }
      transfers[id].sentBytes := sentBytes;
      return Ok(transfers[id]);
    }

    method Remove(id: Id) returns (found: bool)
      requires Valid()
      modifies this
      ensures Valid() && found == (id in old(transfers)) && transfers == old(transfers) - {id}
      ensures Statuses() == old(Statuses()) - {id}
    {
      found := id in transfers;
      if found {
        transfers := transfers - {id};
      }
      assert transfers == old(transfers) - {id};
    }

    method AskRegistry(id: Id)
      requires Valid()
      modifies cancelReg, cancelReg.entries.Values
      ensures Valid() && Statuses() == old(Statuses()) && cancelReg.entries == old(cancelReg.entries) - {id}
      ensures id in old(cancelReg.entries) ==> var e := old(cancelReg.entries[id]);
                && e.ctxDone == (old(e.ctxDone) || e.cancels) && e.purges == (if e.cleans then 1 else 0)
      ensures forall k :: k in old(cancelReg.entries) && k != id ==> unchanged(old(cancelReg.entries[k]))
    {
      var _ := cancelReg.Cancel(id);
    }

    /** Both critical sections of Cancel with nothing between them: the refused call changes nothing
        and never asks the registry; the other ends the registered context and cleans it once. */
    method Cancel(id: Id) returns (r: Result<Transfer>)
      requires Valid()
      modifies Touched(id), cancelReg, cancelReg.entries.Values
      ensures Valid()
      ensures r == if id !in transfers then Err(NotFound)
                   else if old(Statuses())[id] in {Completed, Failed, Cancelled} then Err(InvalidTransition) else Ok(transfers[id])
      ensures Statuses() == if r.Ok? then old(Statuses())[id := Cancelled] else old(Statuses())
      ensures cancelReg.entries == if r.Ok? then old(cancelReg.entries) - {id} else old(cancelReg.entries)
      ensures r.Ok? && id in old(cancelReg.entries) ==> var e := old(cancelReg.entries[id]);
                && e.ctxDone == (old(e.ctxDone) || e.cancels) && e.purges == (if e.cleans then 1 else 0)
      ensures forall k :: k in old(cancelReg.entries) && (k != id || r.Err?) ==> unchanged(old(cancelReg.entries[k]))
    {
      if id !in transfers { return Err(NotFound); }
      var ok := Move(transfers[id], Cancelled);
      if !ok { return Err(InvalidTransition); }
      AskRegistry(id);
      return Ok(transfers[id]);
    }
  }
}
