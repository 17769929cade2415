/** The frames that streams are asked to send: each reaches the wire once, waits to be written, or failed. */
module MuxOutbound {
  import opened Bytes
  import opened MuxState
  import opened MuxProtocol
  import opened MuxTheorems

  /** What SendFrame was called with, by the steps so far: the stream's own ID, the type and the payload given. */
  ghost function Asked(run: seq<Sys>, sides: seq<Side>, steps: seq<Step>, i: nat, side: Side): multiset<Frame>
    requires i < |run| && |run| == |steps| + 1 == |sides| + 1
  {
    if i == 0 then multiset{}
    else Asked(run, sides, steps, i - 1, side) + AskedBy(Own(run[i - 1], side), steps[i - 1], sides[i - 1] == side)
  }

  ghost function AskedBy(e: Endpoint, step: Step, own: bool): multiset<Frame> {
    if own && step.CheckSend? && step.o < |e.objs| then multiset{Frame(e.objs[step.o].id, step.ftype, step.payload)}
    else multiset{}
  }

  ghost function Failed(sides: seq<Side>, steps: seq<Step>, i: nat, side: Side): multiset<Frame>
    requires i <= |steps| == |sides|
  {
    if i == 0 then multiset{}
    else Failed(sides, steps, i - 1, side)
         + FailedBy(steps[i - 1], sides[i - 1] == side)
  }

  function FailedBy(step: Step, own: bool): multiset<Frame> {
    if own && step.WriteFails? then multiset{step.f} else multiset{}
  }

  /** Where the frames of an endpoint are: written, or waiting for the lock. */
  ghost function Held(e: Endpoint): multiset<Frame> {
    multiset(e.sent) + e.outbox
  }

  lemma WrittenOrFailed(sent: seq<Frame>, outbox: multiset<Frame>, f: Frame)
    requires f in outbox
    ensures multiset(sent + [f]) + (outbox - multiset{f}) == multiset(sent) + outbox
    ensures multiset(sent) + (outbox - multiset{f}) + multiset{f} == multiset(sent) + outbox
  {
  }

  lemma QuietSteps(e: Endpoint, wire: seq<Frame>, step: Step)
    requires Cursor(e) >= 0 && Enabled(e, wire, step) && !step.CheckSend? && !step.Write? && !step.WriteFails?
    ensures After(e, wire, step).sent == e.sent && After(e, wire, step).outbox == e.outbox
  {
  }

  lemma StepConserves(e: Endpoint, wire: seq<Frame>, step: Step)
    requires Cursor(e) >= 0 && Enabled(e, wire, step)
    ensures Held(After(e, wire, step)) + FailedBy(step, true) == Held(e) + AskedBy(e, step, true)
  {
    match step
    case CheckSend(o, ftype, payload) =>
    case Write(f) => WrittenOrFailed(e.sent, e.outbox, f);
    case WriteFails(f) => WrittenOrFailed(e.sent, e.outbox, f);
    case _ => QuietSteps(e, wire, step);
  }

  lemma NextConserves(s: Sys, s': Sys, who: Side, step: Step, side: Side)
    requires Next(s, s', who, step)
    ensures Held(Own(s', side)) + FailedBy(step, who == side) == Held(Own(s, side)) + AskedBy(Own(s, side), step, who == side)
  {
    if who == side { StepConserves(Own(s, side), Peer(s, side).sent, step); }
  }

  lemma Balance<T>(asked: multiset<T>, held: multiset<T>, failed: multiset<T>, a: multiset<T>, held': multiset<T>, f: multiset<T>)
    requires asked == held + failed && held' + f == held + a
    ensures asked + a == held' + (failed + f)
  {
    assert asked + a == held + a + failed;
    assert held' + (failed + f) == held' + f + failed;
  }

  /** The frames asked for are those on the wire, those waiting for the lock, and those whose write failed. */
  ghost predicate Accounted(e: Endpoint, asked: multiset<Frame>, failed: multiset<Frame>) {
    asked == multiset(e.sent) + e.outbox + failed
  }

  lemma StaysAccounted(s: Sys, s': Sys, who: Side, step: Step, side: Side, asked: multiset<Frame>, failed: multiset<Frame>)
    requires Next(s, s', who, step) && Accounted(Own(s, side), asked, failed)
    ensures Accounted(Own(s', side), asked + AskedBy(Own(s, side), step, who == side), failed + FailedBy(step, who == side))
  {
    var own := who == side;
    NextConserves(s, s', who, step, side);
    Balance(asked, Held(Own(s, side)), failed, AskedBy(Own(s, side), step, own), Held(Own(s', side)), FailedBy(step, own));
  }

  /** In every run each frame is as often written, waiting or failed as it was asked for. */
  lemma {:induction false} SendsAreConserved(run: seq<Sys>, sides: seq<Side>, steps: seq<Step>, i: nat, side: Side)
    requires IsRun(run, sides, steps) && i < |run|
    ensures Accounted(Own(run[i], side), Asked(run, sides, steps, i, side), Failed(sides, steps, i, side))
  {
    if i == 0 {
      NothingHeld(run[0], side);
    } else {
      SendsAreConserved(run, sides, steps, i - 1, side);
      assert NextAt(run, sides, steps, i - 1);
      StaysAccounted(run[i - 1], run[i], sides[i - 1], steps[i - 1], side,
                     Asked(run, sides, steps, i - 1, side), Failed(sides, steps, i - 1, side));
    }
  }

  lemma NothingHeld(s: Sys, side: Side)
    requires s.a == NewEndpoint(false) && s.b == NewEndpoint(true)
    ensures Accounted(Own(s, side), multiset{}, multiset{})
  {
  }

  lemma {:induction false} OfIdFrom(fs: seq<Frame>, id: uint32, f: Frame)
    requires f in OfId(fs, id)
    ensures f in fs && f.sid == id
  {
    var n := |fs| - 1;
    if f in OfId(fs[..n], id) { OfIdFrom(fs[..n], id, f); }
    assert fs == fs[..n] + [fs[n]];
  }

  /** What a stream returns, a stream of the same ID at the other end was asked to send. */
  lemma ReturnedWasAsked(run: seq<Sys>, sides: seq<Side>, steps: seq<Step>, i: nat, side: Side, o: nat, f: Frame)
    requires IsRun(run, sides, steps) && i < |run|
    requires run[i].a.opens < ID_LIMIT && run[i].b.opens < ID_LIMIT
    requires o < |Own(run[i], side).objs| && f in Own(run[i], side).objs[o].returned
    ensures f.sid == Own(run[i], side).objs[o].id
    ensures f in Asked(run, sides, steps, i, if side == A then B else A)
  {
    var other := if side == A then B else A;
    var st, sent := Own(run[i], side).objs[o], Own(run[i], other).sent;
    DemultiplexInOrder(run, sides, steps, i, side, o);
    assert f in OfId(sent[st.since..], st.id);
    OfIdFrom(sent[st.since..], st.id, f);
    SendsAreConserved(run, sides, steps, i, other);
    assert f in sent && f in multiset(sent);
  }

  ghost predicate ClosedWith(s: Sys, side: Side, opens: nat) {
    Own(s, side).closed && Own(s, side).opens == opens
  }

  lemma StaysClosed(s: Sys, s': Sys, who: Side, step: Step, side: Side, opens: nat)
    requires Next(s, s', who, step) && ClosedWith(s, side, opens)
    ensures ClosedWith(s', side, opens)
  {
  }

  /** A mux that has shut down stays so and opens no stream any more. */
  lemma {:induction false} ClosedOpensNothing(run: seq<Sys>, sides: seq<Side>, steps: seq<Step>, i: nat, j: nat, side: Side, opens: nat)
    requires IsRun(run, sides, steps) && i <= j < |run| && ClosedWith(run[i], side, opens)
    ensures ClosedWith(run[j], side, opens)
    decreases j
  {
    if i < j {
      ClosedOpensNothing(run, sides, steps, i, j - 1, side, opens);
      assert NextAt(run, sides, steps, j - 1);
      StaysClosed(run[j - 1], run[j], sides[j - 1], steps[j - 1], side, opens);
    }
  }
}
