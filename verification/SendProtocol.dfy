/**
 * The asynchronous send protocol of Session as interleaved atomic steps.
 *
 * Any number of threads run Send and ProcessSend while the kernel holds at most one posted send.
 * The atomic flag `registered` is the token for the one send event: whoever turns it on owns the
 * event until the flag is turned off again or the session is abandoned.  The write lock is
 * recursive, so RegisterSend runs its locked section inside the one ProcessSend already holds.
 */
module SendProtocol {
  import opened Wrappers

  /** The fields of the session that the protocol shares between threads. */
  datatype Shared<B> = Shared(connected: bool, queue: seq<B>, registered: bool, batch: seq<B>)

  /** The lock section of Send: queue the buffer and try to take the token. */
  function Push<B>(s: Shared<B>, b: B): Shared<B> {
    s.(queue := s.queue + [b], registered := true)
  }

  /** The lock section of RegisterSend: move the whole queue behind the event's buffers. */
  function Drain<B>(s: Shared<B>): Shared<B> {
    s.(queue := [], batch := s.batch + s.queue)
  }

  /** The lock section of ProcessSend with nothing queued: give the token back. */
  function Rest<B>(s: Shared<B>): Shared<B> {
    if s.queue == [] then s.(registered := false) else s
  }

  /** Where a thread stands; `locked` says whether RegisterSend was entered holding the lock. */
  datatype Pc<B> =
    | Idle
    | Sending(buf: B)
    | Entering(locked: bool)
    | Registering(locked: bool)
    | Posting(locked: bool)
    | Failing(locked: bool)
    | Clearing(locked: bool)
    | Resetting(locked: bool)
    | Completing(bytes: nat)
    | Closing
    | Locking
    | Deciding
    | Unlocking

  /** One WSASend call: what it was given and whether it was accepted. */
  datatype Call<B> = Call(batch: seq<B>, accepted: bool)

  datatype State<B> = State(
    shared: Shared<B>,
    everConnected: bool,
    pending: bool,
    lock: Option<nat>,
    pcs: map<nat, Pc<B>>,
    pushed: seq<B>,
    calls: seq<Call<B>>)

  datatype Step<B> =
    | Connect
    | Disconnect
    | StartSend(t: nat, buf: B)
    | PushStep(t: nat)
    | Enter(t: nat)
    | DrainStep(t: nat)
    | PostAccepted(t: nat)
    | PostFailed(t: nat)
    | HandleError(t: nat, disconnects: bool)
    | ClearFailed(t: nat)
    | Reset(t: nat)
    | Dispatch(t: nat, bytes: nat)
    | ClearDone(t: nat)
    | Close(t: nat)
    | Lock(t: nat)
    | Decide(t: nat)
    | Unlock(t: nat)

  function Init<B>(): State<B> {
    State(Shared(false, [], false, []), false, false, None, map[], [], [])
  }

  function PcOf<B>(s: State<B>, t: nat): Pc<B> {
    if t in s.pcs then s.pcs[t] else Idle
  }

  function At<B>(s: State<B>, t: nat, pc: Pc<B>): State<B> {
    s.(pcs := s.pcs[t := pc])
  }

  /** Back to the caller: ProcessSend still has the lock to release, Send has not. */
  function Return<B>(locked: bool): Pc<B> {
    if locked then Unlocking else Idle
  }

  predicate LockFree<B>(s: State<B>, t: nat) {
    s.lock == None || s.lock == Some(t)
  }

  predicate Enabled<B>(s: State<B>, step: Step<B>) {
    match step
    case Connect => !s.everConnected
    case Disconnect => true
    case StartSend(t, buf) => PcOf(s, t).Idle? && s.shared.connected
    case PushStep(t) => PcOf(s, t).Sending? && LockFree(s, t)
    case Enter(t) => PcOf(s, t).Entering?
    case DrainStep(t) => PcOf(s, t).Registering? && LockFree(s, t)
    case PostAccepted(t) => PcOf(s, t).Posting?
    case PostFailed(t) => PcOf(s, t).Posting?
    case HandleError(t, _) => PcOf(s, t).Failing?
    case ClearFailed(t) => PcOf(s, t).Clearing?
    case Reset(t) => PcOf(s, t).Resetting?
    case Dispatch(t, _) => PcOf(s, t).Idle? && s.pending
    case ClearDone(t) => PcOf(s, t).Completing?
    case Close(t) => PcOf(s, t).Closing?
    case Lock(t) => PcOf(s, t).Locking? && s.lock == None
    case Decide(t) => PcOf(s, t).Deciding?
    case Unlock(t) => PcOf(s, t).Unlocking?
  }

  function Apply<B>(s: State<B>, step: Step<B>): State<B>
    requires Enabled(s, step)
  {
    var sh := s.shared;
    match step
    case Connect => s.(shared := sh.(connected := true), everConnected := true)
    case Disconnect => s.(shared := sh.(connected := false))
    case StartSend(t, buf) => At(s, t, Sending(buf))
    case PushStep(t) =>
      var b := PcOf(s, t).buf;
      At(s.(shared := Push(sh, b), pushed := s.pushed + [b]), t, if sh.registered then Idle else Entering(false))
    case Enter(t) =>
      var locked := PcOf(s, t).locked;
      At(s, t, if sh.connected then Registering(locked) else Return(locked))
    case DrainStep(t) => At(s.(shared := Drain(sh)), t, Posting(PcOf(s, t).locked))
    case PostAccepted(t) =>
      At(s.(pending := true, calls := s.calls + [Call(sh.batch, true)]), t, Return(PcOf(s, t).locked))
    case PostFailed(t) =>
      At(s.(calls := s.calls + [Call(sh.batch, false)]), t, Failing(PcOf(s, t).locked))
    case HandleError(t, disconnects) =>
      At(s.(shared := sh.(connected := sh.connected && !disconnects)), t, Clearing(PcOf(s, t).locked))
    case ClearFailed(t) => At(s.(shared := sh.(batch := [])), t, Resetting(PcOf(s, t).locked))
    case Reset(t) => At(s.(shared := sh.(registered := false)), t, Return(PcOf(s, t).locked))
    case Dispatch(t, bytes) => At(s.(pending := false), t, Completing(bytes))
    case ClearDone(t) =>
      At(s.(shared := sh.(batch := [])), t, if PcOf(s, t).bytes == 0 then Closing else Locking)
    case Close(t) => At(s.(shared := sh.(connected := false)), t, Idle)
    case Lock(t) => At(s.(lock := Some(t)), t, Deciding)
    case Decide(t) => At(s.(shared := Rest(sh)), t, if sh.queue == [] then Unlocking else Entering(true))
    case Unlock(t) => At(s.(lock := None), t, Idle)
  }

  // ---------------------------------------------------------------- the invariant

  /** The thread owns the send event. */
  predicate Owns<B>(pc: Pc<B>) {
    !pc.Idle? && !pc.Sending? && !pc.Unlocking?
  }

  /** The thread is inside the lock it took in ProcessSend. */
  predicate InLock<B>(pc: Pc<B>) {
    match pc
    case Entering(locked) => locked
    case Registering(locked) => locked
    case Posting(locked) => locked
    case Failing(locked) => locked
    case Clearing(locked) => locked
    case Resetting(locked) => locked
    case Deciding => true
    case Unlocking => true
    case _ => false
  }

  /** The buffers in the event are the ones of the call being made, in flight or failing. */
  predicate BatchInUse<B>(pc: Pc<B>) {
    pc.Posting? || pc.Failing? || pc.Clearing? || pc.Completing?
  }

  /** The thread is behind a WSASend call that failed at once. */
  predicate InFailurePath<B>(pc: Pc<B>) {
    pc.Failing? || pc.Clearing? || pc.Resetting?
  }

  ghost predicate OneOwner<B>(s: State<B>) {
    && (forall t: nat, u: nat :: Owns(PcOf(s, t)) && Owns(PcOf(s, u)) ==> t == u)
    && (forall t: nat :: Owns(PcOf(s, t)) ==> !s.pending && s.shared.registered)
    && (s.pending ==> s.shared.registered)
  }

  ghost predicate LockHeld<B>(s: State<B>) {
    forall t: nat :: InLock(PcOf(s, t)) <==> s.lock == Some(t)
  }

  /** The event is empty between calls, and holds something during them. */
  ghost predicate BatchOk<B>(s: State<B>) {
    && (forall t: nat :: BatchInUse(PcOf(s, t)) ==> s.shared.batch != [])
    && (s.shared.batch != [] ==> s.pending || exists t: nat :: BatchInUse(PcOf(s, t)))
    && (s.pending ==> s.shared.batch != [])
  }

  /** A registration finds something queued, and one that holds the lock leaves nothing queued. */
  ghost predicate QueueOk<B>(s: State<B>) {
    && (forall t: nat :: PcOf(s, t).Entering? || PcOf(s, t).Registering? ==> s.shared.queue != [])
    && (forall t: nat :: InLock(PcOf(s, t)) && (PcOf(s, t).Posting? || InFailurePath(PcOf(s, t)))
          ==> s.shared.queue == [])
  }

  /** A token nobody owns was abandoned by a disconnected session. */
  ghost predicate Abandoned<B>(s: State<B>) {
    s.shared.registered && s.shared.connected ==> s.pending || exists t: nat :: Owns(PcOf(s, t))
  }

  ghost predicate Fresh<B>(s: State<B>) {
    !s.everConnected ==>
      !s.shared.connected && s.shared.queue == [] && !s.shared.registered && forall t: nat :: PcOf(s, t).Idle?
  }

  /** All batches handed to WSASend, in order. */
  function Batches<B>(calls: seq<Call<B>>): seq<B> {
    if calls == [] then [] else Batches(calls[..|calls| - 1]) + calls[|calls| - 1].batch
  }

  /** What is drained but not yet given to WSASend: the event's buffers while a thread posts. */
  ghost function InHand<B>(s: State<B>): seq<B> {
    if exists t: nat :: PcOf(s, t).Posting? then s.shared.batch else []
  }

  /** Nothing is lost, duplicated or reordered between Send and WSASend. */
  ghost predicate Conserved<B>(s: State<B>) {
    s.pushed == Batches(s.calls) + InHand(s) + s.shared.queue
  }

  /** No call is empty, and the event keeps the buffers of the call in flight. */
  ghost predicate CallsOk<B>(s: State<B>) {
    && (forall i :: 0 <= i < |s.calls| ==> s.calls[i].batch != [])
    && (s.pending ==> s.calls != [] && s.calls[|s.calls| - 1] == Call(s.shared.batch, true))
  }

  ghost predicate Inv<B>(s: State<B>) {
    OneOwner(s) && LockHeld(s) && BatchOk(s) && QueueOk(s) && Abandoned(s) && Fresh(s) && Conserved(s) && CallsOk(s)
  }

  /** The step moves one thread at most. */
  function Mover<B>(step: Step<B>): nat {
    match step
    case Connect => 0
    case Disconnect => 0
    case StartSend(t, _) => t
    case PushStep(t) => t
    case Enter(t) => t
    case DrainStep(t) => t
    case PostAccepted(t) => t
    case PostFailed(t) => t
    case HandleError(t, _) => t
    case ClearFailed(t) => t
    case Reset(t) => t
    case Dispatch(t, _) => t
    case ClearDone(t) => t
    case Close(t) => t
    case Lock(t) => t
    case Decide(t) => t
    case Unlock(t) => t
  }

  lemma OthersStay<B>(s: State<B>, step: Step<B>)
    requires Enabled(s, step)
    ensures forall u: nat ::
              u != Mover(step) || step.Connect? || step.Disconnect? ==> PcOf(Apply(s, step), u) == PcOf(s, u)
  {
  }

  lemma KeepsOneOwner<B>(s: State<B>, step: Step<B>)
    requires Inv(s) && Enabled(s, step)
    ensures OneOwner(Apply(s, step))
  {
    hide QueueOk, LockHeld, BatchOk, Abandoned, Fresh, Conserved, CallsOk, Batches, InHand;
    OthersStay(s, step);
    var moved := PcOf(Apply(s, step), Mover(step));
  }

  lemma KeepsLockHeld<B>(s: State<B>, step: Step<B>)
    requires Inv(s) && Enabled(s, step)
    ensures LockHeld(Apply(s, step))
  {
    hide QueueOk, OneOwner, BatchOk, Abandoned, Fresh, Conserved, CallsOk, Batches, InHand;
    OthersStay(s, step);
    var moved := PcOf(Apply(s, step), Mover(step));
  }

  lemma KeepsBatchOk<B>(s: State<B>, step: Step<B>)
    requires Inv(s) && Enabled(s, step)
    ensures BatchOk(Apply(s, step))
  {
    hide Abandoned, Fresh, Conserved, CallsOk, Batches, InHand;
    OthersStay(s, step);
    var moved := PcOf(Apply(s, step), Mover(step));
  }

  lemma KeepsQueueOk<B>(s: State<B>, step: Step<B>)
    requires Inv(s) && Enabled(s, step)
    ensures QueueOk(Apply(s, step))
  {
    hide BatchOk, Abandoned, Fresh, Conserved, CallsOk, Batches, InHand;
    OthersStay(s, step);
    var moved := PcOf(Apply(s, step), Mover(step));
  }

  lemma KeepsAbandoned<B>(s: State<B>, step: Step<B>)
    requires Inv(s) && Enabled(s, step)
    ensures Abandoned(Apply(s, step))
  {
    hide QueueOk, LockHeld, BatchOk, Conserved, CallsOk, Batches, InHand;
    OthersStay(s, step);
    var moved := PcOf(Apply(s, step), Mover(step));
  }

  lemma KeepsFresh<B>(s: State<B>, step: Step<B>)
    requires Inv(s) && Enabled(s, step)
    ensures Fresh(Apply(s, step))
  {
    hide QueueOk, LockHeld, BatchOk, Abandoned, Conserved, CallsOk, Batches, InHand;
    OthersStay(s, step);
    var moved := PcOf(Apply(s, step), Mover(step));
  }

  lemma KeepsCallsOk<B>(s: State<B>, step: Step<B>)
    requires Inv(s) && Enabled(s, step)
    ensures CallsOk(Apply(s, step))
  {
    hide QueueOk, LockHeld, Abandoned, Fresh, Conserved;
  }

  /** What is in hand comes from the queue and goes to WSASend. */
  lemma HandMoves<B>(s: State<B>, step: Step<B>)
    requires OneOwner(s) && BatchOk(s) && Enabled(s, step)
    ensures step.DrainStep? ==> InHand(s) == []
    ensures step.PostAccepted? || step.PostFailed? ==> InHand(s) == s.shared.batch
    ensures InHand(Apply(s, step)) ==
              if step.DrainStep? then s.shared.queue
              else if step.PostAccepted? || step.PostFailed? then []
              else InHand(s)
  {
    hide LockFree;
    OthersStay(s, step);
    var moved := PcOf(Apply(s, step), Mover(step));
    assert PcOf(s, Mover(step)).Posting? ==> exists t: nat :: PcOf(s, t).Posting?;
    assert moved.Posting? ==> exists t: nat :: PcOf(Apply(s, step), t).Posting?;
  }

  /** Which steps touch the queue and the two logs. */
  lemma DataMoves<B>(s: State<B>, step: Step<B>)
    requires Enabled(s, step)
    ensures var s' := Apply(s, step);
            if step.PushStep? then
              && s'.calls == s.calls
              && exists b: B :: s'.pushed == s.pushed + [b] && s'.shared.queue == s.shared.queue + [b]
            else
              s'.pushed == s.pushed
              && s'.shared.queue == (if step.DrainStep? then [] else s.shared.queue)
              && s'.calls == s.calls + if step.PostAccepted? || step.PostFailed?
                                       then [Call(s.shared.batch, step.PostAccepted?)] else []
  {
    if step.PushStep? {
      var b := PcOf(s, step.t).buf;
      assert Apply(s, step).pushed == s.pushed + [b];
    }
  }

  lemma KeepsConserved<B>(s: State<B>, step: Step<B>)
    requires Inv(s) && Enabled(s, step)
    ensures Conserved(Apply(s, step))
  {
    HandMoves(s, step);
    DataMoves(s, step);
    hide OneOwner, BatchOk, QueueOk, LockHeld, Abandoned, Fresh, CallsOk, InHand, Apply, Enabled, Batches;
    var done, hand, queue, s' := Batches(s.calls), InHand(s), s.shared.queue, Apply(s, step);
    if step.PushStep? {
      var b :| s'.pushed == s.pushed + [b] && s'.shared.queue == queue + [b];
      Regroup(done, hand, queue, [b]);
    } else if step.DrainStep? {
      assert s'.calls == s.calls;
      Regroup(done, [], queue, []);
    } else if step.PostAccepted? || step.PostFailed? {
      BatchesSnoc(s.calls, Call(s.shared.batch, step.PostAccepted?));
      Regroup(done + hand, [], queue, []);
    } else {
      assert s'.calls == s.calls;
    }
  }

  lemma Regroup<T>(a: seq<T>, b: seq<T>, c: seq<T>, d: seq<T>)
    ensures a + b + (c + d) == a + b + c + d
    ensures a + [] + c == a + c + [] == a + c
  {
  }

  lemma BatchesSnoc<B>(calls: seq<Call<B>>, call: Call<B>)
    ensures Batches(calls + [call]) == Batches(calls) + call.batch
  {
    assert (calls + [call])[..|calls|] == calls;
  }

  lemma InvIsInductive<B>(s: State<B>, step: Step<B>)
    ensures Inv(Init<B>())
    ensures Inv(s) && Enabled(s, step) ==> Inv(Apply(s, step))
  {
    if Inv(s) && Enabled(s, step) {
      KeepsOneOwner(s, step);
      KeepsLockHeld(s, step);
      KeepsBatchOk(s, step);
      KeepsQueueOk(s, step);
      KeepsAbandoned(s, step);
      KeepsFresh(s, step);
      KeepsConserved(s, step);
      KeepsCallsOk(s, step);
    }
  }

  // ---------------------------------------------------------------- runs

  /** Every step of the run is enabled where it is taken. */
  predicate Runs<B>(s: State<B>, steps: seq<Step<B>>)
    decreases |steps|
  {
    steps == [] || (Enabled(s, steps[0]) && Runs(Apply(s, steps[0]), steps[1..]))
  }

  function End<B>(s: State<B>, steps: seq<Step<B>>): State<B>
    requires Runs(s, steps)
    decreases |steps|
  {
    if steps == [] then s else End(Apply(s, steps[0]), steps[1..])
  }

  lemma {:induction false} RunKeepsInv<B>(s: State<B>, steps: seq<Step<B>>)
    requires Inv(s) && Runs(s, steps)
    ensures Inv(End(s, steps))
    decreases |steps|
  {
    hide Inv;
    if steps != [] {
      InvIsInductive(s, steps[0]);
      RunKeepsInv(Apply(s, steps[0]), steps[1..]);
    }
  }

  lemma ReachableInv<B>(steps: seq<Step<B>>)
    requires Runs(Init<B>(), steps)
    ensures Inv(End(Init<B>(), steps))
  {
    hide Inv;
    InvIsInductive(Init<B>(), Connect);
    RunKeepsInv(Init<B>(), steps);
  }

  /**
   * However sends, completions, failures and disconnects interleave, at most one thread or posted
   * call owns the send event; RegisterSend finds the event empty and something queued, and no
   * WSASend call is made with nothing to send.
   */
  lemma SendExclusivity<B>(steps: seq<Step<B>>, t: nat, u: nat)
    requires Runs(Init<B>(), steps)
    ensures var s := End(Init<B>(), steps);
            && (Owns(PcOf(s, t)) && Owns(PcOf(s, u)) ==> t == u)
            && (Owns(PcOf(s, t)) ==> !s.pending)
            && (Owns(PcOf(s, t)) || s.pending ==> s.shared.registered)
            && (PcOf(s, t).Entering? || PcOf(s, t).Registering? ==> s.shared.batch == [] && s.shared.queue != [])
            && (forall c <- s.calls :: c.batch != [])
            && (s.pending ==> s.calls != [] && s.calls[|s.calls| - 1] == Call(s.shared.batch, true))
  {
    hide Runs, End;
    ReachableInv(steps);
  }

  /** All batches drained so far, then what the posting thread holds, then the queue: the buffers as pushed. */
  lemma SendFifo<B>(steps: seq<Step<B>>)
    requires Runs(Init<B>(), steps)
    ensures var s := End(Init<B>(), steps); s.pushed == Batches(s.calls) + InHand(s) + s.shared.queue
  {
    hide Runs, End;
    ReachableInv(steps);
  }

  /** The buffers of the accepted calls, in order: what goes out on the socket. */
  function Accepted<B>(calls: seq<Call<B>>): seq<B> {
    if calls == [] then [] else
    var last := calls[|calls| - 1];
    Accepted(calls[..|calls| - 1]) + if last.accepted then last.batch else []
  }

  lemma {:induction false} AcceptedIsShorter<B>(calls: seq<Call<B>>)
    requires forall c <- calls :: c.batch != []
    ensures |Accepted(calls)| <= |Batches(calls)|
    ensures Accepted(calls) == Batches(calls) <==> forall c <- calls :: c.accepted
  {
    if calls != [] {
      var front, last := calls[..|calls| - 1], calls[|calls| - 1];
      assert forall c <- front :: c in calls;
      AcceptedIsShorter(front);
      assert calls == front + [last];
      if !last.accepted {
        assert last in calls && |Accepted(calls)| < |Batches(calls)|;
      } else if Accepted(calls) == Batches(calls) {
        assert Accepted(calls)[..|Accepted(calls)| - |last.batch|] == Accepted(front);
        assert Batches(calls)[..|Batches(calls)| - |last.batch|] == Batches(front);
        assert forall c <- calls :: c in front || c == last;
      }
    }
  }

  /** Positions in a sequence of length `n`, in increasing order. */
  ghost predicate Increasing(positions: seq<nat>, n: nat) {
    && (forall i :: 0 <= i < |positions| ==> positions[i] < n)
    && (forall i, j :: 0 <= i < j < |positions| ==> positions[i] < positions[j])
  }

  /** `part` is what stands at `positions` of `whole`. */
  ghost predicate Picks<T>(part: seq<T>, whole: seq<T>, positions: seq<nat>) {
    && |positions| == |part| && Increasing(positions, |whole|)
    && forall i :: 0 <= i < |positions| ==> part[i] == whole[positions[i]]
  }

  lemma PickNone<T>(part: seq<T>, whole: seq<T>, positions: seq<nat>, more: seq<T>)
    requires Picks(part, whole, positions)
    ensures Picks(part, whole + more, positions)
  {
  }

  lemma PickAll<T>(part: seq<T>, whole: seq<T>, positions: seq<nat>, more: seq<T>) returns (longer: seq<nat>)
    requires Picks(part, whole, positions)
    ensures Picks(part + more, whole + more, longer) && positions <= longer
  {
    longer := positions + seq(|more|, i requires 0 <= i < |more| => |whole| + i);
  }

  /** Whatever fails, the accepted calls carry some of the drained buffers in their order. */
  lemma {:induction false} AcceptedInOrder<B>(calls: seq<Call<B>>) returns (positions: seq<nat>)
    ensures Picks(Accepted(calls), Batches(calls), positions)
  {
    if calls == [] {
      positions := [];
    } else {
      var front, last := calls[..|calls| - 1], calls[|calls| - 1];
      positions := AcceptedInOrder(front);
      hide Picks;
      if last.accepted {
        positions := PickAll(Accepted(front), Batches(front), positions, last.batch);
      } else {
        PickNone(Accepted(front), Batches(front), positions, last.batch);
        assert Accepted(front) + [] == Accepted(front);
      }
    }
  }

  /** Nothing is left out only when the positions are all there are. */
  lemma {:induction false} PickedAll<T>(part: seq<T>, whole: seq<T>, positions: seq<nat>, i: nat)
    requires Picks(part, whole, positions) && |part| == |whole| && i < |positions|
    ensures positions[i] == i
    decreases |positions| - i
  {
    AtLeast(positions, |whole|, i);
    if i + 1 < |positions| {
      PickedAll(part, whole, positions, i + 1);
    }
  }

  lemma {:induction false} AtLeast(positions: seq<nat>, n: nat, i: nat)
    requires Increasing(positions, n) && i < |positions|
    ensures i <= positions[i]
  {
    if i > 0 {
      AtLeast(positions, n, i - 1);
    }
  }

  /**
   * The socket gets the pushed buffers in order with no gap exactly when no WSASend call failed;
   * otherwise it gets strictly fewer.
   */
  lemma SocketStream<B>(steps: seq<Step<B>>)
    requires Runs(Init<B>(), steps)
    ensures var s := End(Init<B>(), steps);
            && (s.pushed == Accepted(s.calls) + InHand(s) + s.shared.queue <==> forall c <- s.calls :: c.accepted)
  {
    hide Runs, End;
    ReachableInv(steps);
    var s := End(Init<B>(), steps);
    hide Inv, OneOwner, LockHeld, BatchOk, Abandoned, Fresh, InHand, Batches, Accepted;
    assert Conserved(s) && CallsOk(s) by { SendFifo(steps); SendExclusivity(steps, 0, 0); }
    AcceptedIsShorter(s.calls);
    SameFront(Batches(s.calls), Accepted(s.calls), InHand(s), s.shared.queue);
  }

  lemma SameFront<T>(a: seq<T>, b: seq<T>, c: seq<T>, d: seq<T>)
    ensures a + c + d == b + c + d <==> a == b
  {
    if a + c + d == b + c + d {
      assert |a| == |b| && a == (a + c + d)[..|a|] && b == (b + c + d)[..|b|];
    }
  }

  // ---------------------------------------------------------------- wakeups

  /** While connected, a non-empty queue has an agent committed to it. */
  ghost predicate Attended<B>(s: State<B>) {
    s.shared.connected && s.shared.queue != [] ==> s.pending || exists t: nat :: Owns(PcOf(s, t))
  }

  /** RegisterSend's failure path gives the token back although something was queued meanwhile. */
  predicate StaleReset<B>(s: State<B>, step: Step<B>) {
    step.Reset? && s.shared.connected && s.shared.queue != []
  }

  lemma WakeupStep<B>(s: State<B>, step: Step<B>)
    requires Inv(s) && Attended(s) && Enabled(s, step)
    ensures Attended(Apply(s, step)) <==> !StaleReset(s, step)
    ensures StaleReset(s, step) ==> PcOf(s, step.t) == Resetting(false)
  {
    hide Conserved, CallsOk, Batches, InHand;
    OthersStay(s, step);
    InvIsInductive(s, step);
    var moved := PcOf(Apply(s, step), Mover(step));
  }

  ghost predicate AlwaysAttended<B>(s: State<B>, steps: seq<Step<B>>)
    requires Runs(s, steps)
    decreases |steps|
  {
    Attended(s) && (steps != [] ==> AlwaysAttended(Apply(s, steps[0]), steps[1..]))
  }

  predicate NoStaleReset<B>(s: State<B>, steps: seq<Step<B>>)
    requires Runs(s, steps)
    decreases |steps|
  {
    steps != [] ==> !StaleReset(s, steps[0]) && NoStaleReset(Apply(s, steps[0]), steps[1..])
  }

  lemma {:induction false} WakeupsFrom<B>(s: State<B>, steps: seq<Step<B>>)
    requires Inv(s) && Attended(s) && Runs(s, steps)
    ensures AlwaysAttended(s, steps) <==> NoStaleReset(s, steps)
    decreases |steps|
  {
    hide Inv, Attended, StaleReset;
    if steps != [] {
      var next := Apply(s, steps[0]);
      InvIsInductive(s, steps[0]);
      WakeupStep(s, steps[0]);
      if Attended(next) {
        WakeupsFrom(next, steps[1..]);
      }
    }
  }

  /**
   * A run loses no wakeup exactly when no failing RegisterSend, entered from Send, resets the flag
   * while connected and with buffers queued since it drained.
   */
  lemma NoLostWakeup<B>(steps: seq<Step<B>>)
    requires Runs(Init<B>(), steps)
    ensures AlwaysAttended(Init<B>(), steps) <==> NoStaleReset(Init<B>(), steps)
  {
    hide Inv;
    InvIsInductive(Init<B>(), Connect);
    WakeupsFrom(Init<B>(), steps);
  }

  lemma {:induction false} NoFailureNoReset<B>(s: State<B>, steps: seq<Step<B>>)
    requires Runs(s, steps)
    requires forall t: nat :: !InFailurePath(PcOf(s, t))
    requires forall step <- steps :: !step.PostFailed?
    ensures NoStaleReset(s, steps)
    decreases |steps|
  {
    if steps != [] {
      OthersStay(s, steps[0]);
      assert steps[0] in steps;
      NoFailureNoReset(Apply(s, steps[0]), steps[1..]);
    }
  }

  /** Without synchronous WSASend failures no wakeup is ever lost. */
  lemma NoFailureNoLostWakeup<B>(steps: seq<Step<B>>)
    requires Runs(Init<B>(), steps)
    requires forall step <- steps :: !step.PostFailed?
    ensures AlwaysAttended(Init<B>(), steps)
  {
    NoFailureNoReset(Init<B>(), steps);
    NoLostWakeup(steps);
  }

  lemma NoSteps<B>(s: State<B>)
    ensures Runs(s, []) && End(s, []) == s
  {
  }

  lemma {:induction false} OneMore<B>(s: State<B>, steps: seq<Step<B>>, step: Step<B>)
    requires Runs(s, steps) && Enabled(End(s, steps), step)
    ensures Runs(s, steps + [step]) && End(s, steps + [step]) == Apply(End(s, steps), step)
    decreases |steps|
  {
    if steps == [] {
      assert steps + [step] == [step];
    } else {
      OneMore(Apply(s, steps[0]), steps[1..], step);
      assert (steps + [step])[1..] == steps[1..] + [step];
    }
  }

  /** Two threads after a run in which nothing disconnects, while the first of them owns the event. */
  ghost predicate Standing<B>(steps: seq<Step<B>>, zero: Pc<B>, one: Pc<B>, queue: seq<B>) {
    && Runs(Init<B>(), steps)
    && (forall step <- steps :: !step.Disconnect? && !step.Close? && (step.HandleError? ==> !step.disconnects))
    && var s := End(Init<B>(), steps);
    && s.shared.connected && s.shared.registered && s.lock == None && !s.pending
    && s.pcs == map[0 := zero, 1 := one] && s.shared.queue == queue
  }

  lemma FirstSend<B>(a: B, b: B) returns (steps: seq<Step<B>>)
    ensures Standing(steps, Entering(false), Sending(b), [a])
    ensures var s := End(Init<B>(), steps); s.pushed == [a] && s.calls == [] && s.shared.batch == []
  {
    hide Runs, End;
    NoSteps(Init<B>());
    steps := [Connect];
    OneMore(Init<B>(), [], Connect);
    assert [] + [Connect] == steps;
    OneMore(Init<B>(), steps, StartSend(1, b));
    steps := steps + [StartSend(1, b)];
    OneMore(Init<B>(), steps, StartSend(0, a));
    steps := steps + [StartSend(0, a)];
    OneMore(Init<B>(), steps, PushStep(0));
    steps := steps + [PushStep(0)];
  }

  lemma FailedCall<B>(a: B, b: B) returns (steps: seq<Step<B>>)
    ensures Standing(steps, Failing(false), Sending(b), [])
    ensures var s := End(Init<B>(), steps); s.pushed == [a] && s.calls == [Call([a], false)]
  {
    hide Runs, End;
    steps := FirstSend(a, b);
    OneMore(Init<B>(), steps, Enter(0));
    steps := steps + [Enter(0)];
    OneMore(Init<B>(), steps, DrainStep(0));
    steps := steps + [DrainStep(0)];
    assert End(Init<B>(), steps).shared.batch == [a];
    OneMore(Init<B>(), steps, PostFailed(0));
    steps := steps + [PostFailed(0)];
  }

  /** A failed call on a session that stays connected: the buffer was drained and is never sent. */
  lemma FailedCallDropsBuffer<B>(a: B, b: B) returns (steps: seq<Step<B>>)
    ensures Runs(Init<B>(), steps)
    ensures var s := End(Init<B>(), steps);
            && s.shared.connected && s.shared.queue == [] && s.shared.batch == [] && !s.pending
            && s.pushed == Batches(s.calls) == [a] && Accepted(s.calls) == []
  {
    hide Runs, End;
    steps := FailedCall(a, b);
    OneMore(Init<B>(), steps, HandleError(0, false));
    steps := steps + [HandleError(0, false)];
    OneMore(Init<B>(), steps, ClearFailed(0));
    steps := steps + [ClearFailed(0)];
    BatchesSnoc<B>([], Call([a], false));
    assert [] + [Call([a], false)] == [Call([a], false)];
    assert [Call([a], false)][..0] == [];
  }

  /** Thread 1 queues `b` between thread 0's failed call and its reset: nobody is left to send `b`. */
  lemma LostWakeup<B>(a: B, b: B) returns (steps: seq<Step<B>>)
    ensures Runs(Init<B>(), steps)
    ensures forall step <- steps :: !step.Disconnect? && !step.Close? && (step.HandleError? ==> !step.disconnects)
    ensures var s := End(Init<B>(), steps);
            s.shared.queue == [b] && !Attended(s) && exists c <- s.calls :: !c.accepted
  {
    hide Runs, End;
    steps := FailedCall(a, b);
    OneMore(Init<B>(), steps, PushStep(1));
    steps := steps + [PushStep(1)];
    OneMore(Init<B>(), steps, HandleError(0, false));
    steps := steps + [HandleError(0, false)];
    assert Standing(steps, Clearing(false), Idle, [b]);
    OneMore(Init<B>(), steps, ClearFailed(0));
    steps := steps + [ClearFailed(0)];
    OneMore(Init<B>(), steps, Reset(0));
    steps := steps + [Reset(0)];
    assert End(Init<B>(), steps).calls[0] == Call([a], false);
  }

  // ---------------------------------------------------------------- draining

  /** The run needs no further Send and ends connected with every buffer handed to WSASend. */
  ghost predicate Drains<B>(s: State<B>, steps: seq<Step<B>>) {
    && Runs(s, steps)
    && (forall step <- steps :: !step.StartSend? && !step.PushStep?)
    && var e := End(s, steps); e.shared.connected && e.pushed == s.pushed && Batches(e.calls) == s.pushed
  }

  ghost predicate Live<B>(s: State<B>) {
    Inv(s) && s.shared.connected
  }

  lemma ThenDrains<B>(s: State<B>, step: Step<B>, rest: seq<Step<B>>)
    requires Enabled(s, step) && !step.StartSend? && !step.PushStep?
    requires Drains(Apply(s, step), rest)
    ensures Drains(s, [step] + rest)
  {
    assert ([step] + rest)[1..] == rest;
  }

  lemma OnlyOwner<B>(s: State<B>, t: nat)
    requires Inv(s) && (s.pending || Owns(PcOf(s, t)))
    ensures forall u: nat :: Owns(PcOf(s, u)) ==> u == t && !s.pending
  {
  }

  lemma LockHolder<B>(s: State<B>, t: nat)
    requires Inv(s)
    ensures InLock(PcOf(s, t)) <==> s.lock == Some(t)
  {
  }

  lemma AlreadyDrained<B>(s: State<B>)
    requires Live(s) && s.shared.queue == []
    requires forall t: nat :: !PcOf(s, t).Posting?
    ensures Drains(s, [])
  {
    NoSteps(s);
  }

  /** A thread about to take the lock gets it once the thread holding it leaves. */
  lemma AfterUnlock<B>(s: State<B>, t: nat) returns (first: seq<Step<B>>, s': State<B>)
    requires Live(s) && Owns(PcOf(s, t))
    ensures Live(s') && LockFree(s', t) && PcOf(s', t) == PcOf(s, t)
    ensures s'.shared.queue == s.shared.queue
    ensures forall rest :: Drains(s', rest) ==> Drains(s, first + rest)
  {
    hide Runs, End, Batches;
    if LockFree(s, t) {
      first, s' := [], s;
      assert forall rest: seq<Step<B>> :: first + rest == rest;
    } else {
      var u := s.lock.value;
      first, s' := [Unlock(u)], Apply(s, Unlock(u));
      InvIsInductive(s, Unlock(u));
      forall rest | Drains(s', rest)
        ensures Drains(s, first + rest)
      {
        ThenDrains(s, Unlock(u), rest);
      }
    }
  }

  lemma FromRegistering<B>(s: State<B>, t: nat) returns (steps: seq<Step<B>>)
    requires Live(s) && PcOf(s, t).Registering? && LockFree(s, t)
    ensures Drains(s, steps)
  {
    hide Runs, End, Drains, Inv;
    var s1 := Apply(s, DrainStep(t));
    InvIsInductive(s, DrainStep(t));
    var s2 := Apply(s1, PostAccepted(t));
    InvIsInductive(s1, PostAccepted(t));
    OnlyOwner(s2, t);
    AlreadyDrained(s2);
    ThenDrains(s1, PostAccepted(t), []);
    steps := [PostAccepted(t)] + [];
    ThenDrains(s, DrainStep(t), steps);
    steps := [DrainStep(t)] + steps;
  }

  lemma FromEntering<B>(s: State<B>, t: nat) returns (steps: seq<Step<B>>)
    requires Live(s) && PcOf(s, t).Entering? && LockFree(s, t)
    ensures Drains(s, steps)
  {
    hide Runs, End, Drains, Inv;
    InvIsInductive(s, Enter(t));
    steps := FromRegistering(Apply(s, Enter(t)), t);
    ThenDrains(s, Enter(t), steps);
    steps := [Enter(t)] + steps;
  }

  lemma FromDeciding<B>(s: State<B>, t: nat) returns (steps: seq<Step<B>>)
    requires Live(s) && PcOf(s, t).Deciding?
    ensures Drains(s, steps)
  {
    hide Runs, End, Drains, Inv;
    if s.shared.queue == [] {
      OnlyOwner(s, t);
      AlreadyDrained(s);
      steps := [];
    } else {
      LockHolder(s, t);
      InvIsInductive(s, Decide(t));
      steps := FromEntering(Apply(s, Decide(t)), t);
      ThenDrains(s, Decide(t), steps);
      steps := [Decide(t)] + steps;
    }
  }

  lemma FromLocking<B>(s: State<B>, t: nat) returns (steps: seq<Step<B>>)
    requires Live(s) && PcOf(s, t).Locking? && LockFree(s, t)
    ensures Drains(s, steps)
  {
    hide Runs, End, Drains, Inv;
    LockHolder(s, t);
    InvIsInductive(s, Step.Lock(t));
    steps := FromDeciding(Apply(s, Step.Lock(t)), t);
    ThenDrains(s, Step.Lock(t), steps);
    steps := [Step.Lock(t)] + steps;
  }

  lemma FromCompleting<B>(s: State<B>, t: nat) returns (steps: seq<Step<B>>)
    requires Live(s) && PcOf(s, t).Completing? && PcOf(s, t).bytes != 0
    ensures Drains(s, steps)
  {
    hide Runs, End, Drains, Inv;
    var s1 := Apply(s, ClearDone(t));
    InvIsInductive(s, ClearDone(t));
    var first, s2 := AfterUnlock(s1, t);
    steps := FromLocking(s2, t);
    ThenDrains(s, ClearDone(t), first + steps);
    steps := [ClearDone(t)] + (first + steps);
  }

  lemma IdleThread<B>(s: State<B>) returns (t: nat)
    ensures PcOf(s, t).Idle?
  {
    t := AboveAll(s.pcs.Keys);
  }

  lemma {:induction false} AboveAll(ts: set<nat>) returns (t: nat)
    ensures forall u <- ts :: u < t
  {
    if ts == {} {
      t := 0;
    } else {
      var u :| u in ts;
      t := AboveAll(ts - {u});
      t := if u < t then t else u + 1;
      assert ts == ts - {u} + {u};
    }
  }

  lemma FromPending<B>(s: State<B>) returns (steps: seq<Step<B>>)
    requires Live(s) && s.pending
    ensures Drains(s, steps)
  {
    hide Runs, End, Drains, Inv;
    var t := IdleThread(s);
    InvIsInductive(s, Dispatch(t, 1));
    steps := FromCompleting(Apply(s, Dispatch(t, 1)), t);
    ThenDrains(s, Dispatch(t, 1), steps);
    steps := [Dispatch(t, 1)] + steps;
  }

  /** The owner neither handles a failed call nor a completion of zero bytes. */
  ghost predicate Healthy<B>(s: State<B>) {
    forall t: nat :: var pc := PcOf(s, t);
      !InFailurePath(pc) && !pc.Closing? && (pc.Completing? ==> pc.bytes != 0)
  }

  /**
   * No deadlock: from any reachable state of a connected session whose queue is attended, and whose
   * owner is not handling a failure, everything queued can reach WSASend without another Send call.
   */
  lemma AttendedQueueDrains<B>(before: seq<Step<B>>) returns (steps: seq<Step<B>>)
    requires Runs(Init<B>(), before)
    requires var s := End(Init<B>(), before); s.shared.connected && Attended(s) && Healthy(s)
    ensures Drains(End(Init<B>(), before), steps)
  {
    hide Runs, End, Drains, Inv;
    var s := End(Init<B>(), before);
    ReachableInv(before);
    if s.pending {
      steps := FromPending(s);
    } else if t: nat :| Owns(PcOf(s, t)) {
      steps := FromOwner(s, t);
    } else {
      AlreadyDrained(s);
      steps := [];
    }
  }

  lemma FromOwner<B>(s: State<B>, t: nat) returns (steps: seq<Step<B>>)
    requires Live(s) && Healthy(s) && Owns(PcOf(s, t))
    ensures Drains(s, steps)
  {
    hide Runs, End, Drains, Inv;
    var pc := PcOf(s, t);
    if pc.Posting? {
      InvIsInductive(s, PostAccepted(t));
      steps := FromPending(Apply(s, PostAccepted(t)));
      ThenDrains(s, PostAccepted(t), steps);
      steps := [PostAccepted(t)] + steps;
    } else if pc.Completing? {
      steps := FromCompleting(s, t);
    } else if pc.Deciding? {
      steps := FromDeciding(s, t);
    } else {
      var first, s1 := AfterUnlock(s, t);
      if pc.Entering? {
        steps := FromEntering(s1, t);
      } else if pc.Registering? {
        steps := FromRegistering(s1, t);
      } else {
        steps := FromLocking(s1, t);
      }
      steps := first + steps;
    }
  }
}
