/**
 * The send half of Session as an object whose fields its methods update.
 *
 * Each method is one uninterrupted call.  Its contract says that the call is a run of the step
 * machine of SendProtocol, so everything proved there for all interleavings covers these bodies.
 * What the kernel answers to WSASend is a parameter.
 */
module SendSession {
  import opened SendProtocol
  import opened Wrappers

  /** What WSASend answers; a failure may be one that HandleError turns into a disconnect. */
  datatype Answer = Pending | Failure(connectionLost: bool)

  class Session<B> {
    var connected: bool
    var sendQueue: seq<B>
    var sendRegistered: bool
    var sendBuffers: seq<B>

    constructor ()
      ensures View() == Init<B>().shared
    {
      connected, sendQueue, sendRegistered, sendBuffers := false, [], false, [];
    }

    function View(): Shared<B>
      reads this
    {
      Shared(connected, sendQueue, sendRegistered, sendBuffers)
    }

    /** The run `steps` of thread `t` explains how the object got from `g` to its present state. */
    ghost predicate Explains(g: State<B>, steps: seq<Step<B>>, t: nat, pc: Pc<B>)
      reads this
    {
      Runs(g, steps) && End(g, steps).shared == View() && PcOf(End(g, steps), t) == pc
    }

    /** The lock section of RegisterSend: move the queue behind the event's buffers. */
    method DrainQueue()
      modifies this
      ensures View() == Drain(old(View()))
    {
      ghost var all := sendBuffers + sendQueue;
      while sendQueue != []
        invariant sendBuffers + sendQueue == all
        invariant connected == old(connected) && sendRegistered == old(sendRegistered)
        decreases |sendQueue|
      {
        var sendBuffer := sendQueue[0];
        sendQueue := sendQueue[1..];
        sendBuffers := sendBuffers + [sendBuffer];
      }
    }

    /** The scatter-gather list of the event. */
    method Gather() returns (wsaBufs: seq<B>)
      ensures wsaBufs == sendBuffers
    {
      wsaBufs := [];
      var i := 0;
      while i < |sendBuffers|
        invariant 0 <= i <= |sendBuffers| && wsaBufs == sendBuffers[..i]
      {
        wsaBufs := wsaBufs + [sendBuffers[i]];
        i := i + 1;
      }
    }

    /** RegisterSend: drain the queue into the event, gather its buffers and post them. */
    method RegisterSend(answer: Answer, ghost g: State<B>, ghost before: seq<Step<B>>, ghost t: nat, ghost locked: bool)
      returns (wsaBufs: seq<B>, ghost steps: seq<Step<B>>)
      requires Explains(g, before, t, Entering(locked)) && LockFree(End(g, before), t)
      modifies this
      ensures Explains(g, steps, t, Return(locked))
      ensures End(g, steps).pushed == End(g, before).pushed
      ensures !old(connected) ==> wsaBufs == [] && View() == old(View())
      ensures !old(connected) ==> End(g, steps).calls == End(g, before).calls
      ensures old(connected) ==> wsaBufs == old(sendBuffers + sendQueue)
      ensures old(connected) && answer.Pending? ==>
                && View() == Shared(true, [], old(sendRegistered), wsaBufs)
                && End(g, steps).pending && End(g, steps).calls == End(g, before).calls + [Call(wsaBufs, true)]
      ensures old(connected) && answer.Failure? ==>
                && View() == Shared(!answer.connectionLost, [], false, [])
                && End(g, steps).calls == End(g, before).calls + [Call(wsaBufs, false)]
      ensures !(old(connected) && answer.Pending?) ==> End(g, steps).pending == End(g, before).pending
    {
      hide Runs, End;
      wsaBufs := [];
      OneMore(g, before, Enter(t));
      steps := before + [Enter(t)];
      if !connected {
        return;
      }
      DrainQueue();
      OneMore(g, steps, DrainStep(t));
      steps := steps + [DrainStep(t)];
      wsaBufs := Gather();
      if answer.Pending? {
        OneMore(g, steps, PostAccepted(t));
        steps := steps + [PostAccepted(t)];
      } else {
        OneMore(g, steps, PostFailed(t));
        steps := steps + [PostFailed(t)];
        steps := FailSend(answer.connectionLost, g, steps, t, locked);
      }
    }

    /** What follows a WSASend call that failed at once. */
    method FailSend(
        connectionLost: bool, ghost g: State<B>, ghost before: seq<Step<B>>, ghost t: nat, ghost locked: bool)
      returns (ghost steps: seq<Step<B>>)
      requires Explains(g, before, t, Failing(locked))
      modifies this
      ensures Explains(g, steps, t, Return(locked))
      ensures End(g, steps).calls == End(g, before).calls && End(g, steps).pushed == End(g, before).pushed
      ensures End(g, steps).pending == End(g, before).pending
      ensures !sendRegistered && sendBuffers == [] && sendQueue == old(sendQueue)
      ensures connected == (old(connected) && !connectionLost)
    {
      hide Runs, End;
      if connectionLost {
        var first := Disconnect();
      }
      OneMore(g, before, HandleError(t, connectionLost));
      steps := before + [HandleError(t, connectionLost)];
      sendBuffers := [];
      OneMore(g, steps, ClearFailed(t));
      steps := steps + [ClearFailed(t)];
      sendRegistered := false;
      OneMore(g, steps, Reset(t));
      steps := steps + [Reset(t)];
    }

    /**
     * Send: queue the buffer and post it unless another thread owns the event.  A session that is
     * not connected ignores the call; otherwise a null buffer is the failed assertion.
     */
    method Send(sendBuffer: Option<B>, answer: Answer, ghost g: State<B>, ghost t: nat)
      returns (crashed: bool, wsaBufs: seq<B>, ghost steps: seq<Step<B>>)
      requires g.shared == View() && PcOf(g, t).Idle? && g.lock == None
      modifies this
      ensures crashed <==> old(connected) && sendBuffer.None?
      ensures crashed ==> View() == old(View())
      ensures Explains(g, steps, t, Idle)
      ensures End(g, steps).pushed == g.pushed + if old(connected) && !crashed then [sendBuffer.value] else []
      ensures wsaBufs != [] <==> old(connected && !sendRegistered) && !crashed
      ensures wsaBufs != [] ==> wsaBufs == old(sendBuffers + sendQueue) + [sendBuffer.value]
      ensures wsaBufs != [] && answer.Pending? ==>
                && View() == Shared(true, [], true, wsaBufs)
                && End(g, steps).pending && End(g, steps).calls == g.calls + [Call(wsaBufs, true)]
      ensures wsaBufs != [] && answer.Failure? ==>
                && View() == Shared(!answer.connectionLost, [], false, [])
                && End(g, steps).pending == g.pending && End(g, steps).calls == g.calls + [Call(wsaBufs, false)]
      ensures wsaBufs == [] && old(connected) && !crashed ==>
                View() == Shared(true, old(sendQueue) + [sendBuffer.value], true, old(sendBuffers))
      ensures !old(connected) ==> View() == old(View())
      ensures wsaBufs == [] ==> End(g, steps).pending == g.pending && End(g, steps).calls == g.calls
    {
      hide Runs, End;
      NoSteps(g);
      crashed, steps, wsaBufs := false, [], [];
      assert g.pushed + [] == g.pushed;
      if !connected {
        return;
      }
      if sendBuffer.None? {
        crashed := true;
        return;
      }
      var buffer := sendBuffer.value;
      OneMore(g, steps, StartSend(t, buffer));
      steps := steps + [StartSend(t, buffer)];
      var registerSend := false;
      sendQueue := sendQueue + [buffer];
      var was := sendRegistered;
      sendRegistered := true;
      if !was {
        registerSend := true;
      }
      OneMore(g, steps, PushStep(t));
      steps := steps + [PushStep(t)];
      if registerSend {
        wsaBufs, steps := RegisterSend(answer, g, steps, t, false);
      }
    }

    /** The lock section of ProcessSend: post what was queued meanwhile or give the event up. */
    method SendNext(answer: Answer, ghost g: State<B>, ghost before: seq<Step<B>>, ghost t: nat)
      returns (wsaBufs: seq<B>, ghost steps: seq<Step<B>>)
      requires Explains(g, before, t, Locking) && End(g, before).lock == None && sendBuffers == []
      modifies this
      ensures Explains(g, steps, t, Idle)
      ensures wsaBufs == if !old(connected) then [] else old(sendQueue)
      ensures old(sendQueue) == [] ==> View() == Shared(old(connected), [], false, [])
      ensures old(sendQueue) != [] && !old(connected) ==> View() == old(View())
      ensures wsaBufs == [] ==>
                End(g, steps).pending == End(g, before).pending && End(g, steps).calls == End(g, before).calls
      ensures wsaBufs != [] && answer.Pending? ==>
                && View() == Shared(true, [], old(sendRegistered), wsaBufs)
                && End(g, steps).pending && End(g, steps).calls == End(g, before).calls + [Call(wsaBufs, true)]
      ensures wsaBufs != [] && answer.Failure? ==>
                && View() == Shared(!answer.connectionLost, [], false, [])
                && End(g, steps).pending == End(g, before).pending
                && End(g, steps).calls == End(g, before).calls + [Call(wsaBufs, false)]
    {
      hide Runs, End;
      wsaBufs := [];
      OneMore(g, before, Step.Lock(t));
      steps := before + [Step.Lock(t)];
      OneMore(g, steps, Decide(t));
      steps := steps + [Decide(t)];
      if sendQueue == [] {
        sendRegistered := false;
      } else {
        wsaBufs, steps := RegisterSend(answer, g, steps, t, true);
      }
      OneMore(g, steps, Unlock(t));
      steps := steps + [Unlock(t)];
    }

    /** ProcessSend: the posted call completed. */
    method ProcessSend(numOfBytes: nat, answer: Answer, ghost g: State<B>, ghost t: nat)
      returns (wsaBufs: seq<B>, ghost steps: seq<Step<B>>)
      requires g.shared == View() && PcOf(g, t).Idle? && g.lock == None && g.pending
      modifies this
      ensures Explains(g, steps, t, Idle)
      ensures wsaBufs == if numOfBytes == 0 || !old(connected) then [] else old(sendQueue)
      ensures numOfBytes == 0 ==> View() == Shared(false, old(sendQueue), old(sendRegistered), [])
      ensures numOfBytes != 0 && old(sendQueue) == [] ==> View() == Shared(old(connected), [], false, [])
      ensures numOfBytes != 0 && old(sendQueue) != [] && !old(connected) ==>
                View() == Shared(false, old(sendQueue), old(sendRegistered), [])
      ensures wsaBufs == [] ==> !End(g, steps).pending && End(g, steps).calls == g.calls
      ensures wsaBufs != [] && answer.Pending? ==>
                && View() == Shared(true, [], old(sendRegistered), wsaBufs)
                && End(g, steps).pending && End(g, steps).calls == g.calls + [Call(wsaBufs, true)]
      ensures wsaBufs != [] && answer.Failure? ==>
                && View() == Shared(!answer.connectionLost, [], false, [])
                && !End(g, steps).pending && End(g, steps).calls == g.calls + [Call(wsaBufs, false)]
    {
      hide Runs, End;
      NoSteps(g);
      wsaBufs := [];
      OneMore(g, [], Dispatch(t, numOfBytes));
      steps := [] + [Dispatch(t, numOfBytes)];
      sendBuffers := [];
      OneMore(g, steps, ClearDone(t));
      steps := steps + [ClearDone(t)];
      if numOfBytes == 0 {
        var first := Disconnect();
        OneMore(g, steps, Close(t));
        steps := steps + [Close(t)];
      } else {
        wsaBufs, steps := SendNext(answer, g, steps, t);
      }
    }

    /** Disconnect: only the call that turns the flag off goes on to RegisterDisconnect. */
    method Disconnect() returns (registers: bool)
      modifies `connected
      ensures !connected && registers == old(connected)
    {
      registers := connected;
      connected := false;
    }
  }
}
