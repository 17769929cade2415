/** Execute: the order in which a sending thread drives the manager and the registry, with no other
    thread in between. CancelProtocol has the same steps interleaved with those that cancel. */
module SendFile {
  import opened CancelProtocol
  import M = Manager
  import opened Bytes
  import E = EncryptedConn
  import H = HeaderBody
  import Text

  /** How a phase ends; a failure finds the context done or not. */
  datatype Attempt = Succeeds | Fails | FailsCancelled

  /** The file as it is read: to its end unless a turn of the loop finds the context done, or not at all. */
  datatype Body = Streams(cancelled: nat -> bool) | ReadFails

  datatype Plan = Plan(dial: Attempt, idText: Bytes, name: Bytes, file: Bytes, body: Body)

  datatype ExecResult = Unknown | NotCreated | Refused | Failed | Cancelled | Sent

  function Ended(a: Attempt): Status
    requires !a.Succeeds?
  {
    if a == Fails then Status.Failed else Status.Cancelled
  }

  /** Where a transfer that may connect ends, given how dialling and sending went. */
  function Final(dial: Attempt, sent: Attempt): Status {
    if !dial.Succeeds? then Ended(dial) else if !sent.Succeeds? then Ended(sent) else Completed
  }

  predicate CleanName(name: Bytes) {
    Text.NEWLINE !in name && H.CARRIAGE_RETURN !in name
  }

  /** What sendHeader and streamFile put on the connection, and how they end. */
  ghost predicate SendsAs(plan: Plan, frames: seq<Bytes>, a: Attempt) {
    if !CleanName(plan.name) then a == Fails && frames == []
    else
      && frames != [] && frames[0] == H.HeaderText(plan.idText, |plan.file|, plan.name)
      && Concat(frames[1..]) <= plan.file
      && match plan.body
         case ReadFails => a == Fails
         case Streams(cancelled) =>
           && (a == if cancelled(|frames| - 1) then FailsCancelled else Succeeds)
           && (forall t :: 0 <= t < |frames| - 1 ==> !cancelled(t))
           && (a == Succeeds ==> Concat(frames[1..]) == plan.file)
  }

  method SendAll(s: E.Sender, plan: Plan) returns (a: Attempt, total: nat, ghost frames: seq<Bytes>)
    requires s.Valid()
    modifies s
    ensures s.Valid() && s.written == old(s.written) + frames && SendsAs(plan, frames, a)
    ensures a == Succeeds ==> total == |plan.file|
  {
    var ok := H.SendHeader(s, plan.idText, plan.name, |plan.file|);
    if !ok {
      return Fails, 0, [];
    }
    ghost var header := H.HeaderText(plan.idText, |plan.file|, plan.name);
    if plan.body.ReadFails? {
      frames := [header];
      assert |frames[1..]| == 0;
      return Fails, 0, frames;
    }
    var stopped;
    ghost var bodies;
    total, stopped, bodies := H.StreamFile(s, plan.file, plan.body.cancelled);
    frames := [header] + bodies;
    assert frames[1..] == bodies;
    assert plan.file[..|plan.file|] == plan.file;
    a := if stopped then FailsCancelled else Succeeds;
  }

  function ResultOf(st: Status): ExecResult {
    if st == Completed then Sent else if st == Status.Cancelled then ExecResult.Cancelled else ExecResult.Failed
  }

  ghost predicate Ready(m: M.Manager, id: Id)
    reads m, m.transfers.Values, m.Machines(), m.cancelReg, m.cancelReg.entries.Values
  {
    m.Valid() && id in m.transfers
  }

  method Move(m: M.Manager, id: Id, st: Status, errMsg: string)
    requires Ready(m, id)
    modifies m.Touched(id)
    ensures Ready(m, id) && m.Statuses() == M.Updated(old(m.Statuses()), id, st)
    ensures m.transfers[id].sentBytes == old(m.transfers[id].sentBytes)
  {
    var _ := m.UpdateStatus(id, st, errMsg);
  }

  /** A phase that fails ends the transfer one way or the other. */
  method Fail(m: M.Manager, id: Id, a: Attempt, errMsg: string) returns (r: ExecResult)
    requires Ready(m, id) && !a.Succeeds? && m.Statuses()[id] in {Connecting, Transferring}
    modifies m.Touched(id)
    ensures Ready(m, id) && m.Statuses() == old(m.Statuses())[id := Ended(a)] && r == ResultOf(Ended(a))
  {
    Move(m, id, Ended(a), if a == Fails then errMsg else "");
    r := ResultOf(Ended(a));
  }

  method Connected(m: M.Manager, id: Id)
    requires Ready(m, id) && m.Statuses()[id] == Connecting
    modifies m.Touched(id)
    ensures Ready(m, id) && m.Statuses() == old(m.Statuses())[id := Transferring] && m.Touched(id) == old(m.Touched(id))
  {
    Move(m, id, Transferring, "");
  }

  /** From connecting to the end, every move being one the table allows. */
  method Work(m: M.Manager, s: E.Sender, id: Id, plan: Plan) returns (r: ExecResult, ghost a: Attempt, ghost frames: seq<Bytes>)
    requires Ready(m, id) && m.Statuses()[id] == Connecting && s.Valid()
    modifies m.Touched(id), s
    ensures Ready(m, id) && m.Statuses() == old(m.Statuses())[id := Final(plan.dial, a)] && r == ResultOf(Final(plan.dial, a))
    ensures m.cancelReg.entries == old(m.cancelReg.entries)
    ensures s.Valid() && s.written == old(s.written) + frames
    ensures if plan.dial.Succeeds? then SendsAs(plan, frames, a) else frames == []
    ensures r == Sent ==> m.transfers[id].sentBytes == |plan.file|
  {
    if !plan.dial.Succeeds? {
      r := Fail(m, id, plan.dial, "peer not responding");
      a, frames := Fails, [];
    } else {
      r, a, frames := Dialled(m, s, id, plan);
    }
  }

  method Dialled(m: M.Manager, s: E.Sender, id: Id, plan: Plan) returns (r: ExecResult, ghost a: Attempt, ghost frames: seq<Bytes>)
    requires Ready(m, id) && m.Statuses()[id] == Connecting && plan.dial.Succeeds? && s.Valid()
    modifies m.Touched(id), s
    ensures Ready(m, id) && m.Statuses() == old(m.Statuses())[id := Final(plan.dial, a)] && r == ResultOf(Final(plan.dial, a))
    ensures s.Valid() && s.written == old(s.written) + frames && SendsAs(plan, frames, a)
    ensures r == Sent ==> m.transfers[id].sentBytes == |plan.file|
  {
    Connected(m, id);
    r, a, frames := Transfer(m, s, id, plan);
    LastWins(old(m.Statuses()), id, Transferring, Final(plan.dial, a));
  }

  method Transfer(m: M.Manager, s: E.Sender, id: Id, plan: Plan) returns (r: ExecResult, ghost a: Attempt, ghost frames: seq<Bytes>)
    requires Ready(m, id) && m.Statuses()[id] == Transferring && s.Valid()
    modifies m.Touched(id), s
    ensures Ready(m, id) && m.Statuses() == old(m.Statuses())[id := Final(Succeeds, a)] && r == ResultOf(Final(Succeeds, a))
    ensures s.Valid() && s.written == old(s.written) + frames && SendsAs(plan, frames, a)
    ensures r == Sent ==> m.transfers[id].sentBytes == |plan.file|
  {
    var total, how;
    how, total, frames := SendAll(s, plan);
    assert Ready(m, id) && m.Statuses() == old(m.Statuses());
    a := how;
    r := Settle(m, id, how, total);
  }

  lemma LastWins(s: map<Id, Status>, id: Id, a: Status, b: Status)
    ensures s[id := a][id := b] == s[id := b]
  {
  }

  method Settle(m: M.Manager, id: Id, a: Attempt, total: nat) returns (r: ExecResult)
    requires Ready(m, id) && m.Statuses()[id] == Transferring
    modifies m.Touched(id)
    ensures Ready(m, id) && m.Statuses() == old(m.Statuses())[id := Final(Succeeds, a)] && r == ResultOf(Final(Succeeds, a))
    ensures r == Sent ==> m.transfers[id].sentBytes == total
  {
    if !a.Succeeds? {
      r := Fail(m, id, a, "send");
    } else {
      Finish(m, id, total);
      r := Sent;
    }
  }

  method Finish(m: M.Manager, id: Id, size: int)
    requires Ready(m, id) && m.Statuses()[id] == Transferring
    modifies m.Touched(id)
    ensures Ready(m, id) && m.Statuses() == old(m.Statuses())[id := Completed]
    ensures m.transfers[id].sentBytes == size
  {
    var _ := m.UpdateProgress(id, size);
    Move(m, id, Completed, "");
  }

  method Register(m: M.Manager, id: Id) returns (e: M.CancelEntry)
    requires Ready(m, id)
    modifies m.cancelReg, m.cancelReg.entries.Values
    ensures Ready(m, id) && m.Statuses() == old(m.Statuses())
    ensures fresh(e) && m.cancelReg.entries == old(m.cancelReg.entries)[id := e] && e.cancels
    ensures m.Touched(id) == old(m.Touched(id))
    ensures id in old(m.cancelReg.entries) ==> old(m.cancelReg.entries[id]).cleanupRan
  {
    e := m.cancelReg.Register(id, true, false);
  }

  /** The deferred calls: Complete first, then the context's own cancel. */
  method Leave(m: M.Manager, id: Id, e: M.CancelEntry)
    requires Ready(m, id) && id in m.cancelReg.entries && m.cancelReg.entries[id] == e && e.cancels
    modifies m.cancelReg, e`ctxDone
    ensures Ready(m, id) && m.Statuses() == old(m.Statuses())
    ensures m.cancelReg.entries == old(m.cancelReg.entries) - {id} && e.ctxDone
  {
    m.cancelReg.Complete(id);
    e.CallCancel();
  }

  /** What a call for a known transfer does to the statuses and the connection, and what it returns. */
  ghost predicate Ran(before: map<Id, Status>, after: map<Id, Status>, id: Id, plan: Plan, r: ExecResult, a: Attempt, frames: seq<Bytes>)
    requires id in before
  {
    if MayBecome(before[id], Connecting)
    then after == before[id := Final(plan.dial, a)] && r == ResultOf(Final(plan.dial, a))
         && if plan.dial.Succeeds? then SendsAs(plan, frames, a) else frames == []
    else after == before && r == Refused && frames == []
  }

  lemma WorkRan(before: map<Id, Status>, after: map<Id, Status>, id: Id, plan: Plan, r: ExecResult, a: Attempt, frames: seq<Bytes>)
    requires id in before && MayBecome(before[id], Connecting)
    requires after == before[id := Connecting][id := Final(plan.dial, a)] && r == ResultOf(Final(plan.dial, a))
    requires if plan.dial.Succeeds? then SendsAs(plan, frames, a) else frames == []
    ensures Ran(before, after, id, plan, r, a, frames)
  {
    LastWins(before, id, Connecting, Final(plan.dial, a));
  }

  method Attempted(m: M.Manager, s: E.Sender, id: Id, plan: Plan) returns (r: ExecResult, ghost a: Attempt, ghost frames: seq<Bytes>)
    requires Ready(m, id) && s.Valid()
    modifies m.Touched(id), s
    ensures Ready(m, id) && m.cancelReg.entries == old(m.cancelReg.entries)
    ensures s.Valid() && s.written == old(s.written) + frames
    ensures Ran(old(m.Statuses()), m.Statuses(), id, plan, r, a, frames)
  {
    var may := MayConnect(m, id);
    if may {
      r, a, frames := Work(m, s, id, plan);
      WorkRan(old(m.Statuses()), m.Statuses(), id, plan, r, a, frames);
    } else {
      r, a, frames := Refused, Fails, [];
    }
  }

  method MayConnect(m: M.Manager, id: Id) returns (may: bool)
    requires Ready(m, id)
    modifies m.Touched(id)
    ensures Ready(m, id) && may == MayBecome(old(m.Statuses())[id], Connecting)
    ensures m.Touched(id) == old(m.Touched(id)) && m.cancelReg.entries == old(m.cancelReg.entries)
    ensures m.Statuses() == if may then old(m.Statuses())[id := Connecting] else old(m.Statuses())
  {
    var u := m.UpdateStatus(id, Connecting, "");
    may := u.Ok?;
  }

  method Registered(m: M.Manager, s: E.Sender, id: Id, plan: Plan)
    returns (r: ExecResult, e: M.CancelEntry, ghost a: Attempt, ghost frames: seq<Bytes>)
    requires Ready(m, id) && s.Valid()
    modifies m.Touched(id), m.cancelReg, m.cancelReg.entries.Values, s
    ensures Ready(m, id) && fresh(e) && m.cancelReg.entries == old(m.cancelReg.entries)[id := e] && e.cancels
    ensures s.Valid() && s.written == old(s.written) + frames
    ensures Ran(old(m.Statuses()), m.Statuses(), id, plan, r, a, frames)
  {
    e := Register(m, id);
    r, a, frames := Attempted(m, s, id, plan);
  }

  lemma AddedAndDropped<K, V>(s: map<K, V>, k: K, v: V)
    ensures s[k := v] - {k} == s - {k}
  {
  }

  /** What a whole call leaves behind: a final status, or the old one if it may not connect; its context
      done; and no entry of its own in the registry, on any path. */
  method Run(m: M.Manager, s: E.Sender, id: Id, plan: Plan)
    returns (r: ExecResult, e: M.CancelEntry, ghost a: Attempt, ghost frames: seq<Bytes>)
    requires Ready(m, id) && s.Valid()
    modifies m.Touched(id), m.cancelReg, m.cancelReg.entries.Values, s
    ensures Ready(m, id) && fresh(e) && m.cancelReg.entries == old(m.cancelReg.entries) - {id} && e.ctxDone
    ensures s.Valid() && s.written == old(s.written) + frames
    ensures Ran(old(m.Statuses()), m.Statuses(), id, plan, r, a, frames)
  {
    r, e, a, frames := Registered(m, s, id, plan);
    AddedAndDropped(old(m.cancelReg.entries), id, e);
    Leave(m, id, e);
  }

  /** A call for a known transfer, or for a new one if there is room; otherwise nothing changes. */
  method Execute(m: M.Manager, s: E.Sender, given: bool, id: Id, plan: Plan)
    returns (r: ExecResult, ghost a: Attempt, ghost frames: seq<Bytes>)
    requires m.Valid() && s.Valid()
    modifies m, m.Touched(id), m.cancelReg, m.cancelReg.entries.Values, s
    ensures m.Valid() && s.Valid() && s.written == old(s.written) + frames
    ensures r == Unknown <==> given && id !in old(m.transfers)
    ensures r == NotCreated <==> !given && |M.Active(old(m.Statuses()))| >= m.maxActive
    ensures r == Unknown || r == NotCreated ==>
              m.Statuses() == old(m.Statuses()) && m.cancelReg.entries == old(m.cancelReg.entries) && frames == []
    ensures r != Unknown && r != NotCreated ==>
              var before := if given then old(m.Statuses()) else old(m.Statuses())[id := Pending];
              && m.cancelReg.entries == old(m.cancelReg.entries) - {id}
              && Ran(before, m.Statuses(), id, plan, r, a, frames)
  {
    a, frames := Fails, [];
    if given {
      if id !in m.transfers { return Unknown, a, frames; }
    } else {
      var t := m.Create(id);
      if t.Err? { return NotCreated, a, frames; }
    }
    var e: M.CancelEntry;
    r, e, a, frames := Run(m, s, id, plan);
  }

  /** How a call ends: it is refused for a transfer that is under way or over, sent if dialling and sending
      succeed, cancelled if the phase that failed found the context done, and failed otherwise; the status says
      the same. */
  lemma HowItEnds(before: map<Id, Status>, after: map<Id, Status>, id: Id, plan: Plan, r: ExecResult, a: Attempt, frames: seq<Bytes>)
    requires id in before && Ran(before, after, id, plan, r, a, frames)
    ensures r == Refused <==> before[id] in {Transferring, Completed, Status.Cancelled}
    ensures r == Refused ==> after == before && frames == []
    ensures id in after && (plan.dial != Succeeds ==> frames == [])
    ensures r == Sent <==> r != Refused && plan.dial == Succeeds && a == Succeeds
    ensures r == ExecResult.Cancelled <==>
              r != Refused && (plan.dial == FailsCancelled || (plan.dial == Succeeds && a == FailsCancelled))
    ensures r == ExecResult.Failed <==> r != Refused && (plan.dial == Fails || (plan.dial == Succeeds && a == Fails))
    ensures r == Sent ==> after[id] == Completed
    ensures r == ExecResult.Cancelled ==> after[id] == Status.Cancelled
    ensures r == ExecResult.Failed ==> after[id] == Status.Failed
    ensures forall k :: k in before && k != id ==> k in after && after[k] == before[k]
  {
    TableByEntry(before[id]);
  }

  /** A call is successful only for a clean name, and then the connection carries the header and the whole file. */
  lemma SentMeansSent(plan: Plan, frames: seq<Bytes>, a: Attempt)
    requires SendsAs(plan, frames, a) && plan.dial.Succeeds? && ResultOf(Final(plan.dial, a)) == Sent
    ensures CleanName(plan.name) && frames != [] && Concat(frames[1..]) == plan.file
  {
  }
}
