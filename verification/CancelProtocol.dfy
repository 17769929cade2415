/** A cancelling thread races the sending thread over two locks: the manager's, which guards the
    transfers' states, and the registry's, which guards who may still be cancelled. */
module CancelProtocol {

  datatype Status = Pending | Connecting | Transferring | Completed | Failed | Cancelled | AwaitingResume

  /** The transition table. */
  function Allowed(s: Status): set<Status> {
    match s
    case Pending => {Connecting, Cancelled, Failed}
    case Connecting => {Transferring, Failed, Cancelled, AwaitingResume}
    case Transferring => {Completed, Failed, Cancelled, AwaitingResume}
    case AwaitingResume => {Connecting, Cancelled, Failed}
    case Failed => {Connecting}
    case Completed => {}
    case Cancelled => {}
  }

  /** The same moves by the status they lead to: a transfer that is not over can fail or be cancelled at any
      time, only a failed one can be tried again, and nothing goes back to pending. */
  predicate Leads(s: Status, next: Status) {
    match next
    case Pending => false
    case Connecting => s in {Pending, Failed, AwaitingResume}
    case Transferring => s == Connecting
    case Completed => s == Transferring
    case Failed => s !in {Completed, Failed, Cancelled}
    case Cancelled => s !in {Completed, Failed, Cancelled}
    case AwaitingResume => s in {Connecting, Transferring}
  }

  lemma TableByEntry(s: Status)
    ensures forall next :: next in Allowed(s) <==> Leads(s, next)
  {
  }

  /** UpdateStatus: moving to the present state is allowed and does nothing. */
  predicate MayBecome(s: Status, next: Status) {
    next == s || next in Allowed(s)
  }

  type Id = string

  /** A registry entry object with its context. `left` counts how often it was taken out of the map. */
  datatype Entry = Entry(
    id: Id, ctxDone: bool, cleanupRan: bool, cleanupRuns: nat, left: nat, completed: bool, cleaned: bool)

  /** Where Execute stands for one transfer; o is the entry it registered. */
  datatype Exec =
    | Fetched
    | Registered(o: nat)
    | Dialing(o: nat)
    | Sending(o: nat)
    | Leaving(o: nat, connected: bool)  // about to run the deferred Complete
    | Deregistered(o: nat)              // about to run the deferred cancel
    | Gone

  /** Threads that hold something between two locks or calls. */
  datatype Thread =
    | Marked(id: Id)                 // Manager.Cancel: state set, registry not asked yet
    | Cancelling(o: nat, whose: Whose)  // took the entry, has not called its cancel
    | Cleaning(o: nat, whose: Whose)    // about to run its cleanup

  datatype Whose = ManagerCancel(id: Id) | Other

  datatype Sys = Sys(
    status: map<Id, Status>,
    entries: map<Id, nat>,
    objs: seq<Entry>,
    execs: map<Id, Exec>,
    threads: map<nat, Thread>,
    marked: set<Id>,     // Manager.Cancel moved it to cancelled
    lookedUp: set<Id>,   // ... and has asked the registry
    returned: set<Id>,   // ... and has returned
    foreign: set<Id>)    // IDs registered by someone other than Execute

  datatype Step =
    | Create(id: Id)
    | SetStatus(id: Id, st: Status)
    | ExecStart(id: Id)
    | ExecRegister(id: Id, t: nat)
    | ExecConnect(id: Id)
    | DialFails(id: Id, st: Status)
    | DialOk(id: Id)
    | SendFails(id: Id, st: Status)
    | SendDone(id: Id)
    | ExecComplete(id: Id)
    | ExecCancel(id: Id)
    | ManagerMark(id: Id, t: nat)
    | ManagerLookup(t: nat)
    | TakeToCancel(id: Id, t: nat)   // registry Cancel, or one entry of CancelAll
    | TakeToClean(id: Id, t: nat)    // registry Cleanup
    | ForeignRegister(id: Id, t: nat)
    | CallCancel(t: nat)
    | RunCleanup(t: nat)

  const INIT := Sys(map[], map[], [], map[], map[], {}, {}, {}, {})

  function WithStatus(s: Sys, id: Id, st: Status): Sys {
    if id in s.status && MayBecome(s.status[id], st) then s.(status := s.status[id := st]) else s
  }

  /** Takes the entry of id out of the map. */
  function Take(s: Sys, id: Id): Sys
    requires id in s.entries && s.entries[id] < |s.objs|
  {
    var o := s.entries[id];
    s.(entries := s.entries - {id}, objs := s.objs[o := s.objs[o].(left := s.objs[o].left + 1)])
  }

  function NewEntry(id: Id): Entry {
    Entry(id, false, false, 0, 0, false, false)
  }

  predicate CanRegister(s: Sys, id: Id, t: nat) {
    t !in s.threads && (id in s.entries ==> s.entries[id] < |s.objs|)
  }

  /** Register: a replaced entry goes to the registering thread, which runs its cleanup. */
  function Register(s: Sys, id: Id, t: nat): Sys
    requires CanRegister(s, id, t)
  {
    var s' := if id in s.entries then Take(s, id).(threads := s.threads[t := Cleaning(s.entries[id], Other)]) else s;
    s'.(entries := s'.entries[id := |s.objs|], objs := s'.objs + [NewEntry(id)])
  }

  /** Error updates: cancelled only if the context was seen done, failed at any time. */
  predicate ErrorStatus(s: Sys, o: nat, st: Status)
    requires o < |s.objs|
  {
    st == Failed || (st == Cancelled && s.objs[o].ctxDone)
  }

  ghost predicate Enabled(s: Sys, step: Step) {
    match step
    case Create(id) => id !in s.status
    case SetStatus(id, _) => id in s.status
    case ExecStart(id) => id in s.status && id !in s.execs && id !in s.foreign
    case ExecRegister(id, t) => id in s.execs && s.execs[id].Fetched? && CanRegister(s, id, t)
    case ExecConnect(id) => id in s.execs && s.execs[id].Registered? && id in s.status
    case DialFails(id, st) => id in s.execs && s.execs[id].Dialing? && s.execs[id].o < |s.objs| && ErrorStatus(s, s.execs[id].o, st)
    case DialOk(id) => id in s.execs && s.execs[id].Dialing?
    case SendFails(id, st) => id in s.execs && s.execs[id].Sending? && s.execs[id].o < |s.objs| && ErrorStatus(s, s.execs[id].o, st)
    case SendDone(id) => id in s.execs && s.execs[id].Sending?
    case ExecComplete(id) => id in s.execs && s.execs[id].Leaving? && (id in s.entries ==> s.entries[id] < |s.objs|)
    case ExecCancel(id) => id in s.execs && s.execs[id].Deregistered? && s.execs[id].o < |s.objs|
    case ManagerMark(id, t) => id in s.status && Cancelled in Allowed(s.status[id]) && t !in s.threads
    case ManagerLookup(t) =>
      t in s.threads && s.threads[t].Marked? && (s.threads[t].id in s.entries ==> s.entries[s.threads[t].id] < |s.objs|)
    case TakeToCancel(id, t) => id in s.entries && s.entries[id] < |s.objs| && t !in s.threads
    case TakeToClean(id, t) => id in s.entries && s.entries[id] < |s.objs| && t !in s.threads
    case ForeignRegister(id, t) => id !in s.execs && CanRegister(s, id, t)
    case CallCancel(t) => t in s.threads && s.threads[t].Cancelling? && s.threads[t].o < |s.objs|
    case RunCleanup(t) => t in s.threads && s.threads[t].Cleaning? && s.threads[t].o < |s.objs|
  }

  ghost function After(s: Sys, step: Step): Sys
    requires Enabled(s, step)
  {
    match step
    case Create(id) => s.(status := s.status[id := Pending])
    case SetStatus(id, st) => WithStatus(s, id, st)
    case ExecStart(id) => s.(execs := s.execs[id := Fetched])
    case ExecRegister(id, t) => Register(s, id, t).(execs := s.execs[id := Registered(|s.objs|)])
    case ExecConnect(id) =>
      var o := s.execs[id].o;
      if MayBecome(s.status[id], Connecting) then WithStatus(s, id, Connecting).(execs := s.execs[id := Dialing(o)])
      else s.(execs := s.execs[id := Leaving(o, false)])
    case DialFails(id, st) => WithStatus(s, id, st).(execs := s.execs[id := Leaving(s.execs[id].o, true)])
    case DialOk(id) => WithStatus(s, id, Transferring).(execs := s.execs[id := Sending(s.execs[id].o)])
    case SendFails(id, st) => WithStatus(s, id, st).(execs := s.execs[id := Leaving(s.execs[id].o, true)])
    case SendDone(id) => WithStatus(s, id, Completed).(execs := s.execs[id := Leaving(s.execs[id].o, true)])
    case ExecComplete(id) =>
      var s' := if id in s.entries then
                  var o := s.entries[id];
                  var taken := Take(s, id);
                  taken.(objs := taken.objs[o := taken.objs[o].(completed := true)])
                else s;
      s'.(execs := s.execs[id := Deregistered(s.execs[id].o)])
    case ExecCancel(id) =>
      var o := s.execs[id].o;
      s.(objs := s.objs[o := s.objs[o].(ctxDone := true)], execs := s.execs[id := Gone])
    case ManagerMark(id, t) =>
      s.(status := s.status[id := Cancelled], marked := s.marked + {id}, threads := s.threads[t := Marked(id)])
    case ManagerLookup(t) =>
      var id := s.threads[t].id;
      if id in s.entries then
        Take(s, id).(threads := s.threads[t := Cancelling(s.entries[id], ManagerCancel(id))], lookedUp := s.lookedUp + {id})
      else s.(threads := s.threads - {t}, lookedUp := s.lookedUp + {id}, returned := s.returned + {id})
    case TakeToCancel(id, t) => Take(s, id).(threads := s.threads[t := Cancelling(s.entries[id], Other)])
    case TakeToClean(id, t) =>
      var o := s.entries[id];
      var s' := Take(s, id);
      s'.(objs := s'.objs[o := s'.objs[o].(cleaned := true)], threads := s.threads[t := Cleaning(o, Other)])
    case ForeignRegister(id, t) => Register(s, id, t).(foreign := s.foreign + {id})
    case CallCancel(t) =>
      var o := s.threads[t].o;
      s.(objs := s.objs[o := s.objs[o].(ctxDone := true)], threads := s.threads[t := Cleaning(o, s.threads[t].whose)])
    case RunCleanup(t) =>
      var o := s.threads[t].o;
      var e := s.objs[o];
      var ran := if e.cleanupRan then e else e.(cleanupRan := true, cleanupRuns := e.cleanupRuns + 1);
      s.(objs := s.objs[o := ran], threads := s.threads - {t},
         returned := if s.threads[t].whose.ManagerCancel? then s.returned + {s.threads[t].whose.id} else s.returned)
  }

  ghost predicate IsRun(run: seq<Sys>, steps: seq<Step>) {
    && |run| == |steps| + 1
    && run[0] == INIT
    && forall i {:trigger steps[i]} :: 0 <= i < |steps| ==> Enabled(run[i], steps[i]) && run[i + 1] == After(run[i], steps[i])
  }

  // ---- who holds an entry ----

  ghost predicate InMap(s: Sys, o: nat) {
    o < |s.objs| && s.objs[o].id in s.entries && s.entries[s.objs[o].id] == o
  }

  ghost predicate Holds(th: Thread, o: nat) {
    !th.Marked? && th.o == o
  }

  /** An entry is in the map, or with one thread, or with nobody any more; it left the map once. */
  ghost predicate EntryOk(s: Sys, o: nat)
    requires o < |s.objs|
  {
    var e := s.objs[o];
    && e.left == (if InMap(s, o) then 0 else 1)
    && (forall t :: t in s.threads && Holds(s.threads[t], o) ==> !InMap(s, o) && !e.completed && !e.cleanupRan)
    && (InMap(s, o) ==> !e.completed && !e.cleanupRan)
    && e.cleanupRuns == (if e.cleanupRan then 1 else 0)
    && (e.completed ==> !e.cleanupRan)
  }

  ghost predicate Registry(s: Sys) {
    && (forall id :: id in s.entries ==> s.entries[id] < |s.objs|)
    && (forall id :: id in s.entries ==> s.objs[s.entries[id]].id == id)
    && (forall t :: t in s.threads && !s.threads[t].Marked? ==> s.threads[t].o < |s.objs|)
    && (forall t, u :: t in s.threads && u in s.threads && t != u && !s.threads[t].Marked? ==>
         !Holds(s.threads[u], s.threads[t].o))
    && (forall o :: 0 <= o < |s.objs| ==> EntryOk(s, o))
  }

  // ---- where Execute and Cancel stand towards each other ----

  predicate Working(x: Exec) {
    x.Dialing? || x.Sending? || (x.Leaving? && x.connected)
  }

  predicate Entered(x: Exec) {
    x.Registered? || Working(x)
  }

  ghost predicate BeingCancelled(s: Sys, o: nat) {
    exists t :: t in s.threads && s.threads[t].Cancelling? && s.threads[t].o == o
  }

  /** The ways a working Execute's entry can have left the map. */
  ghost predicate Stopping(s: Sys, o: nat)
    requires o < |s.objs|
  {
    s.objs[o].ctxDone || s.objs[o].cleaned || BeingCancelled(s, o)
  }

  ghost predicate Tended(s: Sys, o: nat)
    requires o < |s.objs|
  {
    InMap(s, o) || Stopping(s, o)
  }

  ghost predicate ExecOk(s: Sys, id: Id)
    requires id in s.execs
  {
    var x := s.execs[id];
    && id !in s.foreign && id in s.status
    && (x.Fetched? || x.Deregistered? || x.Gone? ==> id !in s.entries)
    && (!x.Fetched? && !x.Gone? ==> x.o < |s.objs| && s.objs[x.o].id == id)
    && (id in s.entries ==> (x.Registered? || x.Dialing? || x.Sending? || x.Leaving?) && s.entries[id] == x.o)
    && (Entered(x) ==> Tended(s, x.o))
    && (id in s.lookedUp && Working(x) ==> !InMap(s, x.o))
  }

  /** A thread in Manager.Cancel has marked its transfer, or has asked the registry as well. */
  predicate ThreadOk(s: Sys, t: nat)
    requires t in s.threads
  {
    if s.threads[t].Marked? then s.threads[t].id in s.marked
    else s.threads[t].whose.ManagerCancel? ==> s.threads[t].whose.id in s.lookedUp
  }

  ghost predicate CancelOk(s: Sys) {
    && (forall id :: id in s.entries ==> id in s.execs || id in s.foreign)
    && (forall id :: id in s.marked ==> id in s.status && s.status[id] == Cancelled)
    && s.returned <= s.lookedUp <= s.marked
    && (forall t :: t in s.threads ==> ThreadOk(s, t))
  }

  /** The call of Manager.Cancel a thread is in, if any. */
  function Caller(th: Thread): set<Id> {
    match th
    case Marked(id) => {id}
    case Cancelling(_, w) => if w.ManagerCancel? then {w.id} else {}
    case Cleaning(_, w) => if w.ManagerCancel? then {w.id} else {}
  }

  /** Marking succeeds once per transfer, so at most one call is under way and none after it returned. */
  ghost predicate CallersOk(s: Sys) {
    && (forall t :: t in s.threads ==> Caller(s.threads[t]) !! s.returned && Caller(s.threads[t]) <= s.marked)
    && (forall t, u :: t in s.threads && u in s.threads && t != u ==> Caller(s.threads[t]) !! Caller(s.threads[u]))
    && (forall t :: t in s.threads && s.threads[t].Marked? ==> s.threads[t].id !in s.lookedUp)
  }

  ghost predicate HoldersMatch(s: Sys) {
    forall t :: t in s.threads && !s.threads[t].Marked? && s.threads[t].whose.ManagerCancel? ==>
      s.threads[t].o < |s.objs| && s.objs[s.threads[t].o].id == s.threads[t].whose.id
  }

  ghost predicate Inv(s: Sys) {
    Registry(s) && CancelOk(s) && CallersOk(s) && HoldersMatch(s) && forall id :: id in s.execs ==> ExecOk(s, id)
  }

  // ---- each step keeps it ----

  /** Taking an entry out, for the thread t that is to have it, if any. */
  lemma TakeKeeps(s: Sys, s': Sys, id: Id, t: nat)
    requires Registry(s) && id in s.entries && t in s'.threads
    requires t !in s.threads || s.threads[t].Marked?
    requires s'.entries == s.entries - {id} && s'.threads == s.threads[t := s'.threads[t]]
    requires !s'.threads[t].Marked? && s'.threads[t].o == s.entries[id]
    requires |s'.objs| == |s.objs|
    requires forall o :: 0 <= o < |s.objs| && o != s.entries[id] ==> s'.objs[o] == s.objs[o]
    requires var e := s.objs[s.entries[id]];
             s'.objs[s.entries[id]] == e.(left := e.left + 1, cleaned := s'.objs[s.entries[id]].cleaned)
    ensures Registry(s')
  {
    forall o | 0 <= o < |s'.objs| ensures EntryOk(s', o) {
      assert EntryOk(s, o);
    }
    assert EntryOk(s, s.entries[id]);
  }

  /** Putting a new entry in, once the place is free. */
  lemma AddKeeps(s: Sys, id: Id)
    requires Registry(s) && id !in s.entries
    ensures Registry(s.(entries := s.entries[id := |s.objs|], objs := s.objs + [NewEntry(id)]))
  {
    var s' := s.(entries := s.entries[id := |s.objs|], objs := s.objs + [NewEntry(id)]);
    forall o | 0 <= o < |s'.objs| ensures EntryOk(s', o) {
      assert o < |s.objs| ==> EntryOk(s, o);
    }
  }

  lemma RegisterKeeps(s: Sys, id: Id, t: nat)
    requires Registry(s) && CanRegister(s, id, t)
    ensures Registry(Register(s, id, t))
  {
    if id in s.entries {
      var taken := Take(s, id).(threads := s.threads[t := Cleaning(s.entries[id], Other)]);
      TakeKeeps(s, taken, id, t);
      AddKeeps(taken, id);
    } else {
      AddKeeps(s, id);
    }
  }

  ghost predicate SameHold(a: Thread, b: Thread) {
    if a.Marked? then b.Marked? else !b.Marked? && b.o == a.o
  }

  lemma ObjectKeeps(s: Sys, s': Sys)
    requires Registry(s)
    requires s'.entries == s.entries && |s'.objs| == |s.objs|
    requires forall t :: t in s'.threads ==> t in s.threads && SameHold(s.threads[t], s'.threads[t])
    requires forall o :: 0 <= o < |s.objs| ==>
      s'.objs[o] == s.objs[o].(ctxDone := s'.objs[o].ctxDone, cleanupRan := s'.objs[o].cleanupRan, cleanupRuns := s'.objs[o].cleanupRuns)
    requires forall o :: 0 <= o < |s.objs| && s'.objs[o].cleanupRan != s.objs[o].cleanupRan ==>
      && s'.objs[o].cleanupRan && s'.objs[o].cleanupRuns == s.objs[o].cleanupRuns + 1
      && (exists t :: t in s.threads && Holds(s.threads[t], o))
      && (forall t :: t in s'.threads ==> !Holds(s'.threads[t], o))
    requires forall o :: 0 <= o < |s.objs| && s'.objs[o].cleanupRan == s.objs[o].cleanupRan ==>
      s'.objs[o].cleanupRuns == s.objs[o].cleanupRuns
    ensures Registry(s')
  {
    forall o | 0 <= o < |s'.objs| ensures EntryOk(s', o) {
      assert EntryOk(s, o);
    }
  }

  lemma CompleteKeeps(s: Sys, id: Id)
    requires Registry(s) && Enabled(s, ExecComplete(id))
    ensures Registry(After(s, ExecComplete(id)))
  {
    var s' := After(s, ExecComplete(id));
    forall o | 0 <= o < |s'.objs| ensures EntryOk(s', o) {
      assert EntryOk(s, o);
    }
  }

  lemma ContextKeeps(s: Sys, id: Id)
    requires Registry(s) && Enabled(s, ExecCancel(id))
    ensures Registry(After(s, ExecCancel(id)))
  {
    ObjectKeeps(s, After(s, ExecCancel(id)));
  }

  lemma CallKeeps(s: Sys, t: nat)
    requires Registry(s) && Enabled(s, CallCancel(t))
    ensures Registry(After(s, CallCancel(t)))
  {
    ObjectKeeps(s, After(s, CallCancel(t)));
  }

  lemma CleanupKeeps(s: Sys, t: nat)
    requires Registry(s) && Enabled(s, RunCleanup(t))
    ensures Registry(After(s, RunCleanup(t)))
  {
    assert EntryOk(s, s.threads[t].o) && Holds(s.threads[t], s.threads[t].o);
    ObjectKeeps(s, After(s, RunCleanup(t)));
  }

  lemma LookupKeeps(s: Sys, t: nat)
    requires Registry(s) && Enabled(s, ManagerLookup(t))
    ensures Registry(After(s, ManagerLookup(t)))
  {
    var s' := After(s, ManagerLookup(t));
    if s.threads[t].id in s.entries {
      TakeKeeps(s, s', s.threads[t].id, t);
    } else {
      ObjectKeeps(s, s');
    }
  }

  lemma MarkKeeps(s: Sys, id: Id, t: nat)
    requires Registry(s) && Enabled(s, ManagerMark(id, t))
    ensures Registry(After(s, ManagerMark(id, t)))
  {
    var s' := After(s, ManagerMark(id, t));
    forall o | 0 <= o < |s'.objs| ensures EntryOk(s', o) {
      assert EntryOk(s, o);
    }
  }

  lemma SameRegistry(s: Sys, s': Sys)
    requires Registry(s) && s'.entries == s.entries && s'.objs == s.objs && s'.threads == s.threads
    ensures Registry(s')
  {
    forall o | 0 <= o < |s'.objs| ensures EntryOk(s', o) {
      assert EntryOk(s, o);
    }
  }

  /** The steps that put an entry in or take one out. */
  predicate OnEntries(step: Step) {
    step.ExecRegister? || step.ForeignRegister? || step.TakeToCancel? || step.TakeToClean?
  }

  /** The steps of the threads in Manager.Cancel and those that hold an entry. */
  predicate OnThreads(step: Step) {
    step.ManagerMark? || step.ManagerLookup? || step.CallCancel? || step.RunCleanup?
  }

  lemma NewEntryKeeps(s: Sys, step: Step)
    requires Registry(s) && Enabled(s, step) && (step.ExecRegister? || step.ForeignRegister?)
    ensures Registry(After(s, step))
  {
    RegisterKeeps(s, step.id, step.t);
    SameRegistry(Register(s, step.id, step.t), After(s, step));
  }

  lemma RegistryKeepsEntries(s: Sys, step: Step)
    requires Registry(s) && Enabled(s, step)
    requires step.ExecRegister? || step.ForeignRegister? || step.TakeToCancel? || step.TakeToClean? || step.ManagerLookup?
    ensures Registry(After(s, step))
  {
    match step
    case ExecRegister(id, t) => NewEntryKeeps(s, step);
    case ForeignRegister(id, t) => NewEntryKeeps(s, step);
    case TakeToCancel(id, t) => TakeKeeps(s, After(s, step), id, t);
    case TakeToClean(id, t) => TakeKeeps(s, After(s, step), id, t);
    case ManagerLookup(t) => LookupKeeps(s, t);
  }

  lemma RegistryKeepsObjects(s: Sys, step: Step)
    requires Registry(s) && Enabled(s, step)
    requires step.ManagerMark? || step.ExecComplete? || step.ExecCancel? || step.CallCancel? || step.RunCleanup?
    ensures Registry(After(s, step))
  {
    match step
    case ManagerMark(id, t) => MarkKeeps(s, id, t);
    case ExecComplete(id) => CompleteKeeps(s, id);
    case ExecCancel(id) => ContextKeeps(s, id);
    case CallCancel(t) => CallKeeps(s, t);
    case RunCleanup(t) => CleanupKeeps(s, t);
  }

  lemma RegistryKeeps(s: Sys, step: Step)
    requires Registry(s) && Enabled(s, step)
    ensures Registry(After(s, step))
  {
    if step.ExecRegister? || step.ForeignRegister? || step.TakeToCancel? || step.TakeToClean? || step.ManagerLookup? {
      RegistryKeepsEntries(s, step);
    } else if step.ManagerMark? || step.ExecComplete? || step.ExecCancel? || step.CallCancel? || step.RunCleanup? {
      RegistryKeepsObjects(s, step);
    } else {
      SameRegistry(s, After(s, step));
    }
  }

  /** Cancelled is terminal in the table, so no step takes it back; the other facts are about sets
      that grow together. */
  predicate StatusGoesOn(s: Sys, s': Sys, id: Id)
    requires id in s.status
  {
    id in s'.status && (s.status[id] == Cancelled ==> s'.status[id] == Cancelled)
  }

  lemma StatusKeepsOnEntries(s: Sys, step: Step, id: Id)
    requires OnEntries(step)
    requires Enabled(s, step) && id in s.status
    ensures StatusGoesOn(s, After(s, step), id)
  {
  }

  lemma StatusKeepsOnThreads(s: Sys, step: Step, id: Id)
    requires OnThreads(step)
    requires Enabled(s, step) && id in s.status
    ensures StatusGoesOn(s, After(s, step), id)
  {
  }

  lemma StatusKeepsElsewhere(s: Sys, step: Step, id: Id)
    requires !OnEntries(step) && !OnThreads(step)
    requires Enabled(s, step) && id in s.status
    ensures StatusGoesOn(s, After(s, step), id)
  {
  }

  lemma StatusKeeps(s: Sys, step: Step, id: Id)
    requires Enabled(s, step) && id in s.status
    ensures StatusGoesOn(s, After(s, step), id)
  {
    if OnEntries(step) {
      StatusKeepsOnEntries(s, step, id);
    } else if OnThreads(step) {
      StatusKeepsOnThreads(s, step, id);
    } else {
      StatusKeepsElsewhere(s, step, id);
    }
  }

  lemma MarkedKeeps(s: Sys, step: Step)
    requires CancelOk(s) && Enabled(s, step)
    ensures var s' := After(s, step);
            && (forall id :: id in s'.marked ==> id in s'.status && s'.status[id] == Cancelled)
            && s'.lookedUp <= s'.marked
  {
    var s' := After(s, step);
    forall id | id in s'.marked ensures id in s'.status && s'.status[id] == Cancelled {
      if id in s.marked { StatusKeeps(s, step, id); }
    }
  }

  lemma OwnersKeep(s: Sys, step: Step)
    requires CancelOk(s) && Enabled(s, step)
    ensures forall id :: id in After(s, step).entries ==> id in After(s, step).execs || id in After(s, step).foreign
  {
  }

  lemma ThreadsKeepOnEntries(s: Sys, step: Step, t: nat)
    requires OnEntries(step)
    requires CancelOk(s) && Enabled(s, step) && t in After(s, step).threads
    ensures ThreadOk(After(s, step), t)
  {
  }

  lemma ThreadsKeepOnThreads(s: Sys, step: Step, t: nat)
    requires OnThreads(step)
    requires CancelOk(s) && Enabled(s, step) && t in After(s, step).threads
    ensures ThreadOk(After(s, step), t)
  {
  }

  lemma ThreadsKeepElsewhere(s: Sys, step: Step, t: nat)
    requires !OnEntries(step) && !OnThreads(step)
    requires CancelOk(s) && Enabled(s, step) && t in After(s, step).threads
    ensures ThreadOk(After(s, step), t)
  {
  }

  lemma ThreadsKeep(s: Sys, step: Step, t: nat)
    requires CancelOk(s) && Enabled(s, step) && t in After(s, step).threads
    ensures ThreadOk(After(s, step), t)
  {
    if OnEntries(step) {
      ThreadsKeepOnEntries(s, step, t);
    } else if OnThreads(step) {
      ThreadsKeepOnThreads(s, step, t);
    } else {
      ThreadsKeepElsewhere(s, step, t);
    }
  }

  lemma ReturnedKeeps(s: Sys, step: Step)
    requires CancelOk(s) && Enabled(s, step)
    ensures After(s, step).returned <= After(s, step).lookedUp
  {
  }

  lemma CancelKeeps(s: Sys, step: Step)
    requires CancelOk(s) && Enabled(s, step)
    ensures CancelOk(After(s, step))
  {
    MarkedKeeps(s, step);
    OwnersKeep(s, step);
    ReturnedKeeps(s, step);
    var s' := After(s, step);
    forall t | t in s'.threads ensures ThreadOk(s', t) {
      ThreadsKeep(s, step, t);
    }
  }

  predicate ObjectGoesOn(s: Sys, s': Sys, o: nat)
    requires o < |s.objs|
  {
    && o < |s'.objs| && s'.objs[o].id == s.objs[o].id
    && (s.objs[o].ctxDone ==> s'.objs[o].ctxDone)
    && (s.objs[o].cleaned ==> s'.objs[o].cleaned)
    && (s.objs[o].completed ==> s'.objs[o].completed)
  }

  lemma ObjectsOnlyGrowOnEntries(s: Sys, step: Step, o: nat)
    requires OnEntries(step)
    requires Enabled(s, step) && o < |s.objs|
    ensures ObjectGoesOn(s, After(s, step), o)
  {
  }

  lemma ObjectsOnlyGrowOnThreads(s: Sys, step: Step, o: nat)
    requires OnThreads(step)
    requires Enabled(s, step) && o < |s.objs|
    ensures ObjectGoesOn(s, After(s, step), o)
  {
  }

  lemma ObjectsOnlyGrowElsewhere(s: Sys, step: Step, o: nat)
    requires !OnEntries(step) && !OnThreads(step)
    requires Enabled(s, step) && o < |s.objs|
    ensures ObjectGoesOn(s, After(s, step), o)
  {
  }

  lemma ObjectsOnlyGrow(s: Sys, step: Step, o: nat)
    requires Enabled(s, step) && o < |s.objs|
    ensures ObjectGoesOn(s, After(s, step), o)
  {
    if OnEntries(step) {
      ObjectsOnlyGrowOnEntries(s, step, o);
    } else if OnThreads(step) {
      ObjectsOnlyGrowOnThreads(s, step, o);
    } else {
      ObjectsOnlyGrowElsewhere(s, step, o);
    }
  }

  ghost predicate StaysStopping(s': Sys, o: nat) {
    o < |s'.objs| && Stopping(s', o)
  }

  lemma BeingCancelledKeepsOnEntries(s: Sys, step: Step, o: nat)
    requires OnEntries(step)
    requires Registry(s) && Enabled(s, step) && o < |s.objs| && BeingCancelled(s, o)
    ensures StaysStopping(After(s, step), o)
  {
    ObjectsOnlyGrow(s, step, o);
    var t :| t in s.threads && s.threads[t].Cancelling? && s.threads[t].o == o;
    var s' := After(s, step);
    assert step != CallCancel(t) ==> t in s'.threads && s'.threads[t] == s.threads[t];
  }

  lemma BeingCancelledKeepsOnThreads(s: Sys, step: Step, o: nat)
    requires OnThreads(step)
    requires Registry(s) && Enabled(s, step) && o < |s.objs| && BeingCancelled(s, o)
    ensures StaysStopping(After(s, step), o)
  {
    ObjectsOnlyGrow(s, step, o);
    var t :| t in s.threads && s.threads[t].Cancelling? && s.threads[t].o == o;
    var s' := After(s, step);
    assert step != CallCancel(t) ==> t in s'.threads && s'.threads[t] == s.threads[t];
  }

  lemma BeingCancelledKeepsElsewhere(s: Sys, step: Step, o: nat)
    requires !OnEntries(step) && !OnThreads(step)
    requires Registry(s) && Enabled(s, step) && o < |s.objs| && BeingCancelled(s, o)
    ensures StaysStopping(After(s, step), o)
  {
    ObjectsOnlyGrow(s, step, o);
    var t :| t in s.threads && s.threads[t].Cancelling? && s.threads[t].o == o;
    var s' := After(s, step);
    assert step != CallCancel(t) ==> t in s'.threads && s'.threads[t] == s.threads[t];
  }

  lemma BeingCancelledKeeps(s: Sys, step: Step, o: nat)
    requires Registry(s) && Enabled(s, step) && o < |s.objs| && BeingCancelled(s, o)
    ensures StaysStopping(After(s, step), o)
  {
    if OnEntries(step) {
      BeingCancelledKeepsOnEntries(s, step, o);
    } else if OnThreads(step) {
      BeingCancelledKeepsOnThreads(s, step, o);
    } else {
      BeingCancelledKeepsElsewhere(s, step, o);
    }
  }

  lemma LeavesTheMap(s: Sys, step: Step, o: nat)
    requires Registry(s) && Enabled(s, step) && o < |s.objs| && InMap(s, o)
    requires step.ExecComplete? || step.ExecRegister? || step.ForeignRegister? ==> step.id != s.objs[o].id
    ensures o < |After(s, step).objs| && Tended(After(s, step), o)
  {
    ObjectsOnlyGrow(s, step, o);
    var s' := After(s, step);
    if !InMap(s', o) {
      match step
      case ManagerLookup(t) => assert s'.threads[t].Cancelling? && s'.threads[t].o == o;
      case TakeToCancel(_, t) => assert s'.threads[t].Cancelling? && s'.threads[t].o == o;
      case _ =>
    }
  }

  /** An entry that is still in the map or on its way to being cancelled stays so, as long as its ID
      is neither completed nor registered again. */
  lemma TendedKeeps(s: Sys, step: Step, o: nat)
    requires Registry(s) && Enabled(s, step) && o < |s.objs| && Tended(s, o)
    requires step.ExecComplete? || step.ExecRegister? || step.ForeignRegister? ==> step.id != s.objs[o].id
    ensures o < |After(s, step).objs| && Tended(After(s, step), o)
  {
    ObjectsOnlyGrow(s, step, o);
    if BeingCancelled(s, o) {
      BeingCancelledKeeps(s, step, o);
    } else if InMap(s, o) {
      LeavesTheMap(s, step, o);
    }
  }

  /** Steps of other transfers, and steps of other threads, leave this Execute where it stands. */
  predicate IsExecStep(step: Step, id: Id) {
    || step == ExecStart(id) || (step.ExecRegister? && step.id == id) || step == ExecConnect(id)
    || (step.DialFails? && step.id == id) || step == DialOk(id) || (step.SendFails? && step.id == id)
    || step == SendDone(id) || step == ExecComplete(id) || step == ExecCancel(id)
  }

  predicate ExecStays(s: Sys, s': Sys, id: Id)
    requires id in s.execs
  {
    && id in s'.execs && s'.execs[id] == s.execs[id] && id !in s'.foreign && id in s'.status
    && (id in s'.entries ==> id in s.entries && s'.entries[id] == s.entries[id])
  }

  lemma OthersStayOnEntries(s: Sys, step: Step, id: Id)
    requires OnEntries(step)
    requires Enabled(s, step) && id in s.execs && !IsExecStep(step, id)
    requires id !in s.foreign && id in s.status
    ensures ExecStays(s, After(s, step), id)
  {
  }

  lemma OthersStayOnThreads(s: Sys, step: Step, id: Id)
    requires OnThreads(step)
    requires Enabled(s, step) && id in s.execs && !IsExecStep(step, id)
    requires id !in s.foreign && id in s.status
    ensures ExecStays(s, After(s, step), id)
  {
  }

  lemma OthersStayElsewhere(s: Sys, step: Step, id: Id)
    requires !OnEntries(step) && !OnThreads(step)
    requires Enabled(s, step) && id in s.execs && !IsExecStep(step, id)
    requires id !in s.foreign && id in s.status
    ensures ExecStays(s, After(s, step), id)
  {
  }

  lemma OthersStay(s: Sys, step: Step, id: Id)
    requires Enabled(s, step) && id in s.execs && !IsExecStep(step, id)
    requires id !in s.foreign && id in s.status
    ensures ExecStays(s, After(s, step), id)
  {
    if OnEntries(step) {
      OthersStayOnEntries(s, step, id);
    } else if OnThreads(step) {
      OthersStayOnThreads(s, step, id);
    } else {
      OthersStayElsewhere(s, step, id);
    }
  }

  lemma LookupEmpties(s: Sys, step: Step, id: Id)
    requires CancelOk(s) && Enabled(s, step) && id in After(s, step).lookedUp && id !in s.lookedUp
    ensures id !in After(s, step).entries
  {
  }

  lemma OthersKeepExec(s: Sys, step: Step, id: Id)
    requires Inv(s) && Enabled(s, step) && id in s.execs && !IsExecStep(step, id)
    ensures id in After(s, step).execs && ExecOk(After(s, step), id)
  {
    assert ExecOk(s, id);
    OthersStay(s, step, id);
    var x := s.execs[id];
    if !x.Fetched? && !x.Gone? { ObjectsOnlyGrow(s, step, x.o); }
    if Entered(x) { TendedKeeps(s, step, x.o); }
    if id in After(s, step).lookedUp && id !in s.lookedUp { LookupEmpties(s, step, id); }
  }

  lemma StartKeepsExec(s: Sys, id: Id)
    requires Inv(s) && Enabled(s, ExecStart(id))
    ensures id in After(s, ExecStart(id)).execs && ExecOk(After(s, ExecStart(id)), id)
  {
  }

  lemma RegisterKeepsExec(s: Sys, id: Id, t: nat)
    requires Inv(s) && Enabled(s, ExecRegister(id, t))
    ensures id in After(s, ExecRegister(id, t)).execs && ExecOk(After(s, ExecRegister(id, t)), id)
  {
    assert ExecOk(s, id);
    assert InMap(After(s, ExecRegister(id, t)), |s.objs|);
  }

  /** The only way into the working phase is through the table, which a cancelled status closes. */
  lemma ConnectKeepsExec(s: Sys, id: Id)
    requires Inv(s) && Enabled(s, ExecConnect(id))
    ensures id in After(s, ExecConnect(id)).execs && ExecOk(After(s, ExecConnect(id)), id)
  {
    assert ExecOk(s, id);
    TendedKeeps(s, ExecConnect(id), s.execs[id].o);
  }

  lemma DialKeepsExec(s: Sys, step: Step, id: Id)
    requires Inv(s) && Enabled(s, step) && IsExecStep(step, id) && (step.DialFails? || step.DialOk?)
    ensures id in After(s, step).execs && ExecOk(After(s, step), id)
  {
    assert ExecOk(s, id);
    WorkGoesOn(s, After(s, step), id);
  }

  lemma SendFailsKeepsExec(s: Sys, id: Id, st: Status)
    requires Inv(s) && Enabled(s, SendFails(id, st))
    ensures id in After(s, SendFails(id, st)).execs && ExecOk(After(s, SendFails(id, st)), id)
  {
    assert ExecOk(s, id);
    WorkGoesOn(s, After(s, SendFails(id, st)), id);
  }

  lemma SendDoneKeepsExec(s: Sys, id: Id)
    requires Inv(s) && Enabled(s, SendDone(id))
    ensures id in After(s, SendDone(id)).execs && ExecOk(After(s, SendDone(id)), id)
  {
    assert ExecOk(s, id);
    WorkGoesOn(s, After(s, SendDone(id)), id);
  }

  /** Within the working phase only the phase and the status change. */
  lemma WorkGoesOn(s: Sys, s': Sys, id: Id)
    requires id in s.execs && ExecOk(s, id) && Working(s.execs[id])
    requires s'.status.Keys == s.status.Keys && id in s'.execs
    requires s' == s.(status := s'.status, execs := s'.execs)
    requires Working(s'.execs[id]) && s'.execs[id].o == s.execs[id].o
    ensures ExecOk(s', id)
  {
    assert Tended(s', s.execs[id].o) <==> Tended(s, s.execs[id].o);
  }

  lemma EndKeepsExec(s: Sys, step: Step, id: Id)
    requires Inv(s) && Enabled(s, step) && (step == ExecComplete(id) || step == ExecCancel(id))
    ensures id in After(s, step).execs && ExecOk(After(s, step), id)
  {
    assert ExecOk(s, id);
    ObjectsOnlyGrow(s, step, s.execs[id].o);
  }

  lemma OwnKeepsExec(s: Sys, step: Step, id: Id)
    requires Inv(s) && Enabled(s, step) && IsExecStep(step, id)
    ensures id in After(s, step).execs && ExecOk(After(s, step), id)
  {
    match step
    case ExecStart(_) => StartKeepsExec(s, id);
    case ExecRegister(_, t) => RegisterKeepsExec(s, id, t);
    case ExecConnect(_) => ConnectKeepsExec(s, id);
    case ExecComplete(_) => EndKeepsExec(s, step, id);
    case ExecCancel(_) => EndKeepsExec(s, step, id);
    case DialFails(_, _) => DialKeepsExec(s, step, id);
    case DialOk(_) => DialKeepsExec(s, step, id);
    case SendFails(_, st) => SendFailsKeepsExec(s, id, st);
    case SendDone(_) => SendDoneKeepsExec(s, id);
  }

  predicate MarksWith(step: Step, t: nat, ids: set<Id>) {
    step.ManagerMark? && t == step.t && ids == {step.id}
  }

  predicate CallerGoesOn(s: Sys, s': Sys, step: Step, t: nat)
    requires t in s'.threads
  {
    var c := Caller(s'.threads[t]);
    && c <= s'.marked
    && (s'.threads[t].Marked? ==> s'.threads[t].id !in s'.lookedUp)
    && ((t in s.threads && c <= Caller(s.threads[t])) || c == {} || MarksWith(step, t, c))
  }

  lemma CallerKeepsOnEntries(s: Sys, step: Step, t: nat)
    requires OnEntries(step)
    requires CancelOk(s) && CallersOk(s) && Enabled(s, step) && t in After(s, step).threads
    ensures CallerGoesOn(s, After(s, step), step, t)
  {
  }

  lemma CallerKeepsOnThreads(s: Sys, step: Step, t: nat)
    requires OnThreads(step)
    requires CancelOk(s) && CallersOk(s) && Enabled(s, step) && t in After(s, step).threads
    ensures CallerGoesOn(s, After(s, step), step, t)
  {
  }

  lemma CallerKeepsElsewhere(s: Sys, step: Step, t: nat)
    requires !OnEntries(step) && !OnThreads(step)
    requires CancelOk(s) && CallersOk(s) && Enabled(s, step) && t in After(s, step).threads
    ensures CallerGoesOn(s, After(s, step), step, t)
  {
  }

  lemma CallerKeeps(s: Sys, step: Step, t: nat)
    requires CancelOk(s) && CallersOk(s) && Enabled(s, step) && t in After(s, step).threads
    ensures CallerGoesOn(s, After(s, step), step, t)
  {
    if OnEntries(step) {
      CallerKeepsOnEntries(s, step, t);
    } else if OnThreads(step) {
      CallerKeepsOnThreads(s, step, t);
    } else {
      CallerKeepsElsewhere(s, step, t);
    }
  }

  lemma CallersReturn(s: Sys, step: Step)
    requires Enabled(s, step)
    ensures After(s, step).returned == s.returned
            || (exists t :: t in s.threads && t !in After(s, step).threads
                 && After(s, step).returned == s.returned + Caller(s.threads[t]))
  {
    match step
    case ManagerLookup(t) => assert t in s.threads;
    case RunCleanup(t) => assert t in s.threads;
    case _ =>
  }

  lemma CallersKeep(s: Sys, step: Step)
    requires CancelOk(s) && CallersOk(s) && Enabled(s, step)
    ensures CallersOk(After(s, step))
  {
    var s' := After(s, step);
    CallersReturn(s, step);
    forall t | t in s'.threads
      ensures Caller(s'.threads[t]) !! s'.returned && Caller(s'.threads[t]) <= s'.marked
      ensures s'.threads[t].Marked? ==> s'.threads[t].id !in s'.lookedUp
    {
      CallerKeeps(s, step, t);
    }
    forall t, u | t in s'.threads && u in s'.threads && t != u ensures Caller(s'.threads[t]) !! Caller(s'.threads[u]) {
      CallerKeeps(s, step, t);
      CallerKeeps(s, step, u);
    }
  }

  lemma HoldersKeepOnEntries(s: Sys, step: Step)
    requires OnEntries(step)
    requires Registry(s) && HoldersMatch(s) && Enabled(s, step)
    ensures HoldersMatch(After(s, step))
  {
    var s' := After(s, step);
    forall t | t in s'.threads && !s'.threads[t].Marked? && s'.threads[t].whose.ManagerCancel?
      ensures s'.threads[t].o < |s'.objs| && s'.objs[s'.threads[t].o].id == s'.threads[t].whose.id
    {
      ObjectsOnlyGrow(s, step, s'.threads[t].o);
    }
  }

  lemma HoldersKeepOnThreads(s: Sys, step: Step)
    requires OnThreads(step)
    requires Registry(s) && HoldersMatch(s) && Enabled(s, step)
    ensures HoldersMatch(After(s, step))
  {
    var s' := After(s, step);
    forall t | t in s'.threads && !s'.threads[t].Marked? && s'.threads[t].whose.ManagerCancel?
      ensures s'.threads[t].o < |s'.objs| && s'.objs[s'.threads[t].o].id == s'.threads[t].whose.id
    {
      ObjectsOnlyGrow(s, step, s'.threads[t].o);
    }
  }

  lemma HoldersKeepElsewhere(s: Sys, step: Step)
    requires !OnEntries(step) && !OnThreads(step)
    requires Registry(s) && HoldersMatch(s) && Enabled(s, step)
    ensures HoldersMatch(After(s, step))
  {
    var s' := After(s, step);
    forall t | t in s'.threads && !s'.threads[t].Marked? && s'.threads[t].whose.ManagerCancel?
      ensures s'.threads[t].o < |s'.objs| && s'.objs[s'.threads[t].o].id == s'.threads[t].whose.id
    {
      ObjectsOnlyGrow(s, step, s'.threads[t].o);
    }
  }

  lemma HoldersKeep(s: Sys, step: Step)
    requires Registry(s) && HoldersMatch(s) && Enabled(s, step)
    ensures HoldersMatch(After(s, step))
  {
    if OnEntries(step) {
      HoldersKeepOnEntries(s, step);
    } else if OnThreads(step) {
      HoldersKeepOnThreads(s, step);
    } else {
      HoldersKeepElsewhere(s, step);
    }
  }

  lemma ExecsOnlyBegin(s: Sys, step: Step, id: Id)
    requires Enabled(s, step) && id in After(s, step).execs && !IsExecStep(step, id)
    ensures id in s.execs
  {
  }

  lemma StepKeeps(s: Sys, step: Step)
    requires Inv(s) && Enabled(s, step)
    ensures Inv(After(s, step))
  {
    RegistryKeeps(s, step);
    CancelKeeps(s, step);
    CallersKeep(s, step);
    HoldersKeep(s, step);
    forall id | id in After(s, step).execs ensures ExecOk(After(s, step), id) {
      if IsExecStep(step, id) {
        OwnKeepsExec(s, step, id);
      } else {
        ExecsOnlyBegin(s, step, id);
        OthersKeepExec(s, step, id);
      }
    }
  }

  lemma {:induction false} Reachable(run: seq<Sys>, steps: seq<Step>, n: nat)
    requires IsRun(run, steps) && n < |run|
    ensures Inv(run[n])
  {
    if n > 0 {
      Reachable(run, steps, n - 1);
      StepKeeps(run[n - 1], steps[n - 1]);
    }
  }

  // ---- what the design promises ----

  /** Once cancelled, always cancelled: no step of any thread brings the transfer back. */
  lemma {:induction false} CancelledStays(run: seq<Sys>, steps: seq<Step>, i: nat, j: nat, id: Id)
    requires IsRun(run, steps) && i <= j < |run|
    requires id in run[i].status && run[i].status[id] == Cancelled
    ensures id in run[j].status && run[j].status[id] == Cancelled
    decreases j
  {
    if i < j {
      CancelledStays(run, steps, i, j - 1, id);
      StatusKeeps(run[j - 1], steps[j - 1], id);
    }
  }

  lemma StatusMoves(s: Sys, step: Step, id: Id)
    requires Enabled(s, step) && id in After(s, step).status
    ensures id !in s.status ==> After(s, step).status[id] == Pending
    ensures id in s.status ==> After(s, step).status[id] == s.status[id] || Leads(s.status[id], After(s, step).status[id])
  {
    if id in s.status { TableByEntry(s.status[id]); }
  }

  ghost predicate WasAt(run: seq<Sys>, j: nat, id: Id, st: Status) {
    exists i :: 0 <= i <= j < |run| && id in run[i].status && run[i].status[id] == st
  }

  /** The way of a transfer: it began pending, what transfers has connected, and what is complete has
      transferred. */
  lemma {:induction false} WayOfTransfer(run: seq<Sys>, steps: seq<Step>, j: nat, id: Id)
    requires IsRun(run, steps) && j < |run| && id in run[j].status
    ensures WasAt(run, j, id, Pending)
    ensures run[j].status[id] in {Transferring, Completed} ==> WasAt(run, j, id, Connecting)
    ensures run[j].status[id] == Completed ==> WasAt(run, j, id, Transferring)
  {
    if j > 0 {
      StatusMoves(run[j - 1], steps[j - 1], id);
      if id in run[j - 1].status {
        WayOfTransfer(run, steps, j - 1, id);
        WasBefore(run, j - 1, id, Pending);
        WasBefore(run, j - 1, id, Connecting);
        WasBefore(run, j - 1, id, Transferring);
      }
    }
    assert WasAt(run, j, id, run[j].status[id]);
  }

  lemma WasBefore(run: seq<Sys>, j: nat, id: Id, st: Status)
    requires j + 1 < |run|
    ensures WasAt(run, j, id, st) ==> WasAt(run, j + 1, id, st)
    ensures id in run[j].status && run[j].status[id] == st ==> WasAt(run, j + 1, id, st)
  {
  }

  lemma {:induction false} ReturnedStays(run: seq<Sys>, steps: seq<Step>, i: nat, j: nat, id: Id)
    requires IsRun(run, steps) && i <= j < |run| && id in run[i].returned
    ensures id in run[j].returned
    decreases j
  {
    if i < j {
      ReturnedStays(run, steps, i, j - 1, id);
      ReturnedGrows(run[j - 1], steps[j - 1]);
    }
  }

  lemma ReturnedGrows(s: Sys, step: Step)
    requires Enabled(s, step)
    ensures s.returned <= After(s, step).returned
  {
  }

  /** Some other thread has taken the entry and is about to call its cancel. */
  ghost predicate OthersCancel(s: Sys, o: nat) {
    exists t :: t in s.threads && s.threads[t] == Cancelling(o, Other)
  }

  lemma {:induction false} CleanedByCleanup(run: seq<Sys>, steps: seq<Step>, n: nat, o: nat)
    requires IsRun(run, steps) && n < |run| && o < |run[n].objs| && run[n].objs[o].cleaned
    ensures exists i, t :: 0 <= i < n && steps[i] == TakeToClean(run[n].objs[o].id, t)
  {
    assert run[n] == After(run[n - 1], steps[n - 1]);
    Reachable(run, steps, n - 1);
    if o < |run[n - 1].objs| && run[n - 1].objs[o].cleaned {
      CleanedByCleanup(run, steps, n - 1, o);
      ObjectsOnlyGrow(run[n - 1], steps[n - 1], o);
    } else {
      OnlyCleanupCleans(run[n - 1], steps[n - 1], o);
    }
  }

  lemma OnlyCleanupCleans(s: Sys, step: Step, o: nat)
    requires Registry(s) && Enabled(s, step) && o < |After(s, step).objs| && After(s, step).objs[o].cleaned
    requires o < |s.objs| ==> !s.objs[o].cleaned
    ensures step.TakeToClean? && step.id == After(s, step).objs[o].id
    ensures step == TakeToClean(After(s, step).objs[o].id, step.t)
  {
    if !step.TakeToClean? { OthersDoNotClean(s, step, o); }
  }

  lemma OthersDoNotClean(s: Sys, step: Step, o: nat)
    requires Enabled(s, step) && !step.TakeToClean? && o < |After(s, step).objs| && After(s, step).objs[o].cleaned
    ensures o < |s.objs| && s.objs[o].cleaned
  {
  }

  /** A successful Manager.Cancel is never lost. From its return on, the status is cancelled, and the
      sending thread has not yet tried to connect, or was refused, or has left, or its context is
      done. The two exceptions name the other callers: a concurrent registry cancel that already took
      the entry and is about to call it, or a bare Cleanup. */
  lemma CancelIsNeverLost(run: seq<Sys>, steps: seq<Step>, i: nat, j: nat, id: Id)
    requires IsRun(run, steps) && i <= j < |run| && id in run[i].returned
    ensures id in run[j].status && run[j].status[id] == Cancelled
    ensures id in run[j].execs && Working(run[j].execs[id]) ==>
      && run[j].execs[id].o < |run[j].objs|
      && (|| run[j].objs[run[j].execs[id].o].ctxDone
          || OthersCancel(run[j], run[j].execs[id].o)
          || (exists k, t :: 0 <= k < j && steps[k] == TakeToClean(id, t)))
  {
    var s := run[j];
    Reachable(run, steps, j);
    ReturnedStays(run, steps, i, j, id);
    if id in s.execs && Working(s.execs[id]) {
      var o := s.execs[id].o;
      assert ExecOk(s, id);
      if s.objs[o].cleaned { CleanedByCleanup(run, steps, j, o); }
      if BeingCancelled(s, o) { TakerIsAnother(s, id, o); }
    }
  }

  /** No thread of a returned call still holds the entry. */
  lemma TakerIsAnother(s: Sys, id: Id, o: nat)
    requires Inv(s) && id in s.returned && BeingCancelled(s, o) && o < |s.objs| && s.objs[o].id == id
    ensures OthersCancel(s, o)
  {
    var t :| t in s.threads && s.threads[t].Cancelling? && s.threads[t].o == o;
    assert Caller(s.threads[t]) !! s.returned;
    assert s.threads[t] == Cancelling(o, Other);
  }

  lemma MarkAndTake(s: Sys, id: Id, t: nat) returns (taken: Sys)
    requires Enabled(s, ManagerMark(id, t)) && id in s.entries && s.entries[id] < |s.objs|
    ensures Enabled(After(s, ManagerMark(id, t)), ManagerLookup(t))
    ensures taken == After(After(s, ManagerMark(id, t)), ManagerLookup(t))
    ensures taken.status == s.status[id := Cancelled] && taken.entries == s.entries - {id} && taken.returned == s.returned
    ensures taken.threads == s.threads[t := Cancelling(s.entries[id], ManagerCancel(id))] && |taken.objs| == |s.objs|
    ensures var e := s.objs[s.entries[id]]; taken.objs[s.entries[id]] == e.(left := e.left + 1)
  {
    taken := After(After(s, ManagerMark(id, t)), ManagerLookup(t));
  }

  lemma CallAndClean(s: Sys, t: nat) returns (done: Sys)
    requires Enabled(s, CallCancel(t)) && s.threads[t].whose.ManagerCancel?
    ensures Enabled(After(s, CallCancel(t)), RunCleanup(t))
    ensures done == After(After(s, CallCancel(t)), RunCleanup(t))
    ensures done.status == s.status && done.entries == s.entries && done.threads == s.threads - {t}
    ensures done.returned == s.returned + {s.threads[t].whose.id} && |done.objs| == |s.objs|
    ensures var e, e' := s.objs[s.threads[t].o], done.objs[s.threads[t].o];
            e'.ctxDone && e'.cleanupRuns == e.cleanupRuns + if e.cleanupRan then 0 else 1
  {
    done := After(After(s, CallCancel(t)), RunCleanup(t));
  }

  /** Manager.Cancel by itself: four steps of its thread take a registered transfer that is not over to the end. */
  lemma CancelAlone(s: Sys, id: Id, t: nat) returns (done: Sys)
    requires Registry(s) && id in s.status && s.status[id] !in {Completed, Failed, Cancelled} && id in s.entries
    requires t !in s.threads
    ensures Enabled(s, ManagerMark(id, t))
    ensures Enabled(After(s, ManagerMark(id, t)), ManagerLookup(t))
    ensures Enabled(After(After(s, ManagerMark(id, t)), ManagerLookup(t)), CallCancel(t))
    ensures Enabled(After(After(After(s, ManagerMark(id, t)), ManagerLookup(t)), CallCancel(t)), RunCleanup(t))
    ensures done == After(After(After(After(s, ManagerMark(id, t)), ManagerLookup(t)), CallCancel(t)), RunCleanup(t))
    ensures done.status == s.status[id := Cancelled] && done.entries == s.entries - {id}
    ensures done.threads == s.threads && done.returned == s.returned + {id} && |done.objs| == |s.objs|
    ensures done.objs[s.entries[id]].ctxDone && done.objs[s.entries[id]].cleanupRuns == 1
  {
    TableByEntry(s.status[id]);
    NotCleanedYet(s, id);
    var taken := MarkAndTake(s, id, t);
    done := CallAndClean(taken, t);
    assert s.threads[t := Cancelling(s.entries[id], ManagerCancel(id))] - {t} == s.threads;
  }

  lemma NotCleanedYet(s: Sys, id: Id)
    requires Registry(s) && id in s.entries
    ensures s.entries[id] < |s.objs| && !s.objs[s.entries[id]].cleanupRan && s.objs[s.entries[id]].cleanupRuns == 0
  {
    assert EntryOk(s, s.entries[id]);
  }

  /** A transfer that is cancelled, complete or under way cannot begin to connect; any other does. */
  lemma ConnectIsRefusedIff(s: Sys, id: Id)
    requires Enabled(s, ExecConnect(id))
    ensures After(s, ExecConnect(id)) ==
            if s.status[id] in {Cancelled, Completed, Transferring} then s.(execs := s.execs[id := Leaving(s.execs[id].o, false)])
            else s.(status := s.status[id := Connecting], execs := s.execs[id := Dialing(s.execs[id].o)])
  {
    TableByEntry(s.status[id]);
    SameValue(s.status, id);
  }

  lemma SameValue<K, V>(m: map<K, V>, k: K)
    ensures k in m ==> m[k := m[k]] == m
  {
  }

  // ---- a transfer that nobody disturbs ----

  lemma Sets<K, V>(m: map<K, V>, k: K, a: V, b: V)
    ensures m[k := a][k := b] == m[k := b]
  {
  }

  lemma PutAndTaken<K, V>(m: map<K, V>, k: K, v: V)
    requires k !in m
    ensures m[k := v] - {k} == m
  {
  }

  /** s' is two steps from s. */
  ghost predicate InTwo(s: Sys, a: Step, b: Step, s': Sys) {
    Enabled(s, a) && Enabled(After(s, a), b) && s' == After(After(s, a), b)
  }

  /** From the first look at the transfer to the dialling: its entry is the newest object. */
  lemma ExecuteBegins(s: Sys, id: Id, t: nat) returns (dialing: Sys)
    requires Enabled(s, ExecStart(id)) && s.status[id] == Pending && id !in s.entries && t !in s.threads
    ensures InTwo(After(s, ExecStart(id)), ExecRegister(id, t), ExecConnect(id), dialing)
    ensures dialing == s.(status := s.status[id := Connecting], entries := s.entries[id := |s.objs|],
                          objs := s.objs + [NewEntry(id)], execs := s.execs[id := Dialing(|s.objs|)])
  {
    var started := After(s, ExecStart(id));
    var registered := After(started, ExecRegister(id, t));
    Sets(s.execs, id, Fetched, Registered(|s.objs|));
    assert registered == s.(entries := s.entries[id := |s.objs|], objs := s.objs + [NewEntry(id)],
                            execs := s.execs[id := Registered(|s.objs|)]);
    ConnectIsRefusedIff(registered, id);
    Sets(s.execs, id, Registered(|s.objs|), Dialing(|s.objs|));
    dialing := After(registered, ExecConnect(id));
  }

  /** From dialling to the last byte. */
  lemma ExecuteSends(s: Sys, id: Id, o: nat) returns (sent: Sys)
    requires id in s.status && s.status[id] == Connecting && id in s.execs && s.execs[id] == Dialing(o)
    ensures InTwo(s, DialOk(id), SendDone(id), sent)
    ensures sent == s.(status := s.status[id := Completed], execs := s.execs[id := Leaving(o, true)])
  {
    TableByEntry(Connecting);
    TableByEntry(Transferring);
    Sets(s.execs, id, Sending(o), Leaving(o, true));
    Sets(s.status, id, Transferring, Completed);
    sent := After(After(s, DialOk(id)), SendDone(id));
  }

  /** The deferred calls take the entry out and end its context. */
  lemma ExecuteLeaves(s: Sys, id: Id, o: nat) returns (gone: Sys)
    requires id in s.execs && s.execs[id].Leaving? && s.execs[id].o == o
    requires id in s.entries && s.entries[id] == o < |s.objs|
    ensures InTwo(s, ExecComplete(id), ExecCancel(id), gone)
    ensures gone.status == s.status && gone.entries == s.entries - {id} && gone.execs == s.execs[id := Gone] && gone.threads == s.threads
    ensures |gone.objs| == |s.objs| && gone.objs[o] == s.objs[o].(left := s.objs[o].left + 1, completed := true, ctxDone := true)
    ensures forall k :: 0 <= k < |s.objs| && k != o ==> gone.objs[k] == s.objs[k]
  {
    Sets(s.execs, id, Deregistered(o), Gone);
    gone := After(After(s, ExecComplete(id)), ExecCancel(id));
  }

  /** Execute by itself takes a pending transfer through the whole table: complete at the end, its context done, no
      entry of its own left, and nothing cleaned. */
  lemma ExecuteAlone(s: Sys, id: Id, t: nat) returns (dialing: Sys, sent: Sys, gone: Sys)
    requires Enabled(s, ExecStart(id)) && s.status[id] == Pending && id !in s.entries && t !in s.threads
    ensures InTwo(After(s, ExecStart(id)), ExecRegister(id, t), ExecConnect(id), dialing)
    ensures InTwo(dialing, DialOk(id), SendDone(id), sent) && InTwo(sent, ExecComplete(id), ExecCancel(id), gone)
    ensures gone.status == s.status[id := Completed] && gone.entries == s.entries && gone.execs == s.execs[id := Gone]
    ensures gone.threads == s.threads && |gone.objs| == |s.objs| + 1
    ensures var e := gone.objs[|s.objs|]; e.id == id && e.ctxDone && e.completed && !e.cleanupRan && e.left == 1
  {
    dialing := ExecuteBegins(s, id, t);
    sent := ExecuteSends(dialing, id, |s.objs|);
    Sets(s.status, id, Connecting, Completed);
    Sets(s.execs, id, Dialing(|s.objs|), Leaving(|s.objs|, true));
    gone := ExecuteLeaves(sent, id, |s.objs|);
    Sets(s.execs, id, Leaving(|s.objs|, true), Gone);
    PutAndTaken(s.entries, id, |s.objs|);
  }

  /** The thread that took an entry has its call as next step, and the call ends the context. */
  lemma TakerCanFinish(s: Sys, o: nat)
    requires o < |s.objs| && BeingCancelled(s, o)
    ensures exists t :: Enabled(s, CallCancel(t)) && After(s, CallCancel(t)).objs[o].ctxDone
  {
    var t :| t in s.threads && s.threads[t].Cancelling? && s.threads[t].o == o;
    assert Enabled(s, CallCancel(t)) && After(s, CallCancel(t)).objs[o].ctxDone;
  }

  lemma {:induction false} CompletedStays(run: seq<Sys>, steps: seq<Step>, i: nat, j: nat, o: nat)
    requires IsRun(run, steps) && i <= j < |run| && o < |run[i].objs| && run[i].objs[o].completed
    ensures o < |run[j].objs| && run[j].objs[o].completed
    decreases j
  {
    if i < j {
      CompletedStays(run, steps, i, j - 1, o);
      ObjectsOnlyGrow(run[j - 1], steps[j - 1], o);
    }
  }

  /** An entry leaves the map at most once, its cleanup runs at most once, and never once Complete has
      removed it. */
  lemma CleanupIsSingle(run: seq<Sys>, steps: seq<Step>, i: nat, j: nat, o: nat)
    requires IsRun(run, steps) && i <= j < |run| && o < |run[i].objs|
    ensures o < |run[j].objs| && run[j].objs[o].left <= 1 && run[j].objs[o].cleanupRuns <= 1
    ensures run[i].objs[o].completed ==> run[j].objs[o].cleanupRuns == 0
    ensures InMap(run[j], o) ==> run[j].objs[o].cleanupRuns == 0
    decreases j
  {
    if i < j {
      CleanupIsSingle(run, steps, i, j - 1, o);
      ObjectsOnlyGrow(run[j - 1], steps[j - 1], o);
    }
    if run[i].objs[o].completed { CompletedStays(run, steps, i, j, o); }
    Reachable(run, steps, j);
    assert EntryOk(run[j], o);
  }

  /** runCleanup needs no lock: two threads never hold the same entry. */
  lemma OneHolder(run: seq<Sys>, steps: seq<Step>, n: nat, t: nat, u: nat)
    requires IsRun(run, steps) && n < |run|
    requires t in run[n].threads && u in run[n].threads && t != u
    requires !run[n].threads[t].Marked? && !run[n].threads[u].Marked?
    ensures run[n].threads[t].o != run[n].threads[u].o
  {
    Reachable(run, steps, n);
    assert !Holds(run[n].threads[u], run[n].threads[t].o);
  }
}
