/**
 * Sessions coming and going: ProcessConnect, any number of racing Disconnect calls, the completion
 * of DisconnectEx, and the service's set of sessions with its separate counter.
 */
module Lifecycle {
  /** How far ProcessConnect has got; between Up and Added the session is connected but not in the set. */
  datatype Phase = Fresh | Failed | Up | Added

  /** `registers` counts the calls of RegisterDisconnect, `pending` its posted and not yet completed ones. */
  datatype Session = Session(phase: Phase, connected: bool, registers: nat, pending: nat)

  datatype State = State(all: map<nat, Session>, sessions: set<nat>, count: int, crashed: bool)

  const START := State(map[], {}, 0, false)

  datatype Step =
    | ConnectFailed(x: nat)
    | ConnectStored(x: nat)
    | AddSession(x: nat)
    | Disconnect(x: nat, posted: bool)
    | ProcessDisconnect(x: nat)

  function Of(s: State, x: nat): Session {
    if x in s.all then s.all[x] else Session(Fresh, false, 0, 0)
  }

  /** A failed assertion ends the process; ProcessConnect runs once for each session. */
  predicate Enabled(s: State, step: Step) {
    !s.crashed &&
    match step
    case ConnectFailed(x) => Of(s, x).phase.Fresh?
    case ConnectStored(x) => Of(s, x).phase.Fresh?
    case AddSession(x) => Of(s, x).phase.Up?
    case Disconnect(_, _) => true
    case ProcessDisconnect(x) => Of(s, x).pending > 0
  }

  function Put(s: State, x: nat, session: Session): State {
    s.(all := s.all[x := session])
  }

  /** Service::AddSession. */
  function Insert(s: State, x: nat): State {
    s.(sessions := s.sessions + {x}, count := s.count + 1)
  }

  /** Service::ReleaseSession: the assertion is that something was erased. */
  function Release(s: State, x: nat): State {
    if x in s.sessions then s.(sessions := s.sessions - {x}, count := s.count - 1) else s.(crashed := true)
  }

  function Apply(s: State, step: Step): State
    requires Enabled(s, step)
  {
    var session := Of(s, step.x);
    match step
    case ConnectFailed(x) => Put(s, x, session.(phase := Failed, connected := false))
    case ConnectStored(x) => Put(s, x, session.(phase := Up, connected := true))
    case AddSession(x) => Insert(Put(s, x, session.(phase := Added)), x)
    case Disconnect(x, posted) =>
      if !session.connected then s
      else Put(s, x, session.(connected := false,
                              registers := session.registers + 1,
                              pending := session.pending + if posted then 1 else 0))
    case ProcessDisconnect(x) => Release(Put(s, x, session.(pending := session.pending - 1)), x)
  }

  ghost predicate SessionOk(s: State, x: nat) {
    var session := Of(s, x);
    && session.registers <= 1 && session.pending <= session.registers
    && (session.connected ==> session.registers == 0 && (session.phase.Up? || session.phase.Added?))
    && (session.phase.Fresh? || session.phase.Failed? ==> session.registers == 0)
    && (x in s.sessions ==> session.phase.Added?)
    && (session.phase.Added? && x !in s.sessions ==> session.pending == 0 && !session.connected)
  }

  ghost predicate Inv(s: State) {
    !s.crashed ==> s.count == |s.sessions| && forall x: nat :: SessionOk(s, x)
  }

  /** The completion of a disconnect that overtook AddSession. */
  predicate Overtakes(s: State, step: Step) {
    step.ProcessDisconnect? && Of(s, step.x).phase.Up?
  }

  lemma KeepsInv(s: State, step: Step)
    requires Inv(s) && Enabled(s, step)
    ensures Inv(Apply(s, step))
    ensures Apply(s, step).crashed <==> Overtakes(s, step)
  {
    var s' := Apply(s, step);
    assert SessionOk(s, step.x);
    if !s'.crashed {
      forall x: nat
        ensures SessionOk(s', x)
      {
        assert SessionOk(s, x);
      }
    }
  }

  predicate Runs(s: State, steps: seq<Step>)
    decreases |steps|
  {
    steps == [] || (Enabled(s, steps[0]) && Runs(Apply(s, steps[0]), steps[1..]))
  }

  function End(s: State, steps: seq<Step>): State
    requires Runs(s, steps)
    decreases |steps|
  {
    if steps == [] then s else End(Apply(s, steps[0]), steps[1..])
  }

  predicate NoOvertaking(s: State, steps: seq<Step>)
    requires Runs(s, steps)
    decreases |steps|
  {
    steps != [] ==> !Overtakes(s, steps[0]) && NoOvertaking(Apply(s, steps[0]), steps[1..])
  }

  lemma {:induction false} SafeFrom(s: State, steps: seq<Step>)
    requires Inv(s) && !s.crashed && Runs(s, steps)
    ensures Inv(End(s, steps))
    ensures End(s, steps).crashed <==> !NoOvertaking(s, steps)
    decreases |steps|
  {
    hide Inv, Overtakes;
    if steps != [] {
      var next := Apply(s, steps[0]);
      KeepsInv(s, steps[0]);
      if next.crashed {
        assert steps[1..] == [];
      } else {
        SafeFrom(next, steps[1..]);
      }
    }
  }

  /**
   * In every run, however disconnects race: RegisterDisconnect runs at most once for a session, and
   * between lock sections the counter is the size of the set.  The assertion in ReleaseSession
   * fails exactly when some session's disconnect completes before its AddSession.
   */
  lemma SessionLifecycle(steps: seq<Step>, x: nat)
    requires Runs(START, steps)
    ensures var s := End(START, steps);
            && (s.crashed <==> !NoOvertaking(START, steps))
            && (!s.crashed ==> s.count == |s.sessions| && Of(s, x).registers <= 1)
            && (!s.crashed && x in s.sessions ==> Of(s, x).phase.Added?)
  {
    SafeFrom(START, steps);
    var s := End(START, steps);
    if !s.crashed {
      assert SessionOk(s, x);
    }
  }

  // ---------------------------------------------------------------- who is in the set, who was disconnected

  lemma NoSecondAdd(s: State, steps: seq<Step>, x: nat)
    requires Inv(s) && !s.crashed && Runs(s, steps) && Of(s, x).phase.Added?
    ensures AddSession(x) !in steps
    decreases |steps|
  {
    if steps != [] {
      var next := Apply(s, steps[0]);
      KeepsInv(s, steps[0]);
      if next.crashed {
        assert steps[1..] == [];
      } else {
        assert Of(next, x).phase.Added?;
        NoSecondAdd(next, steps[1..], x);
      }
    }
  }

  lemma {:induction false} SetFrom(s: State, steps: seq<Step>, x: nat)
    requires Inv(s) && !s.crashed && Runs(s, steps) && !End(s, steps).crashed
    ensures x in End(s, steps).sessions <==>
              (x in s.sessions || AddSession(x) in steps) && ProcessDisconnect(x) !in steps
    decreases |steps|
  {
    hide Inv;
    if steps != [] {
      var next := Apply(s, steps[0]);
      KeepsInv(s, steps[0]);
      assert steps == [steps[0]] + steps[1..];
      if !next.crashed {
        SetFrom(next, steps[1..], x);
        if steps[0] == ProcessDisconnect(x) {
          AddedWhenErased(s, x);
          NoSecondAdd(next, steps[1..], x);
        }
      }
    }
  }

  lemma AddedWhenErased(s: State, x: nat)
    requires Inv(s) && !s.crashed && x in s.sessions
    ensures Of(s, x).phase.Added?
  {
    assert SessionOk(s, x);
  }

  /** The set holds exactly the sessions that were added and whose disconnect has not completed. */
  lemma SetHoldsTheLive(steps: seq<Step>, x: nat)
    requires Runs(START, steps) && !End(START, steps).crashed
    ensures x in End(START, steps).sessions <==> AddSession(x) in steps && ProcessDisconnect(x) !in steps
  {
    SetFrom(START, steps, x);
  }

  /** The step is a Disconnect call for the session. */
  predicate Disconnects(step: Step, x: nat) {
    step.Disconnect? && step.x == x
  }

  /** Some Disconnect call for the session comes behind its connecting. */
  ghost predicate DisconnectedIn(steps: seq<Step>, x: nat, connected: bool)
    decreases |steps|
  {
    && steps != []
    && ((connected && Disconnects(steps[0], x))
        || DisconnectedIn(steps[1..], x, connected || steps[0] == ConnectStored(x)))
  }

  lemma {:induction false} RegistersFrom(s: State, steps: seq<Step>, x: nat)
    requires Inv(s) && !s.crashed && Runs(s, steps)
    ensures End(s, steps).crashed ||
            (Of(End(s, steps), x).registers == 1 <==>
               Of(s, x).registers == 1 || DisconnectedIn(steps, x, Of(s, x).connected))
    decreases |steps|
  {
    assert SessionOk(s, x);
    if steps != [] {
      var next := Apply(s, steps[0]);
      KeepsInv(s, steps[0]);
      if next.crashed {
        assert steps[1..] == [];
      } else {
        RegistersFrom(next, steps[1..], x);
        assert SessionOk(next, x);
      }
    }
  }

  /** RegisterDisconnect runs exactly when some Disconnect call comes behind the session's connecting. */
  lemma FirstDisconnectRegisters(steps: seq<Step>, x: nat)
    requires Runs(START, steps) && !End(START, steps).crashed
    ensures Of(End(START, steps), x).registers == if DisconnectedIn(steps, x, false) then 1 else 0
  {
    RegistersFrom(START, steps, x);
    SessionLifecycle(steps, x);
  }

  /** No Disconnect call comes between the store to `_connected` and AddSession. */
  predicate NoEarlyDisconnect(s: State, steps: seq<Step>)
    requires Runs(s, steps)
    decreases |steps|
  {
    steps != [] ==>
      && !(steps[0].Disconnect? && Of(s, steps[0].x).phase.Up?)
      && NoEarlyDisconnect(Apply(s, steps[0]), steps[1..])
  }

  lemma {:induction false} NoEarlyDisconnectIsSafe(s: State, steps: seq<Step>)
    requires Inv(s) && !s.crashed && Runs(s, steps) && NoEarlyDisconnect(s, steps)
    requires forall x: nat :: Of(s, x).phase.Up? ==> Of(s, x).pending == 0
    ensures !End(s, steps).crashed
    decreases |steps|
  {
    if steps != [] {
      var next := Apply(s, steps[0]);
      KeepsInv(s, steps[0]);
      assert SessionOk(s, steps[0].x);
      forall x: nat | Of(next, x).phase.Up?
        ensures Of(next, x).pending == 0
      {
        assert x != steps[0].x ==> Of(next, x) == Of(s, x);
      }
      NoEarlyDisconnectIsSafe(next, steps[1..]);
    }
  }

  /** While no Disconnect comes between the store and AddSession, the assertion never fails. */
  lemma AssertionHolds(steps: seq<Step>)
    requires Runs(START, steps) && NoEarlyDisconnect(START, steps)
    ensures !End(START, steps).crashed
  {
    NoEarlyDisconnectIsSafe(START, steps);
  }

  /** One early disconnect is enough to make it fail. */
  lemma EarlyDisconnectCrashes(x: nat)
    ensures var steps := [ConnectStored(x), Disconnect(x, true), ProcessDisconnect(x)];
            Runs(START, steps) && End(START, steps).crashed
  {
    var s1 := Apply(START, ConnectStored(x));
    var s2 := Apply(s1, Disconnect(x, true));
    var s3 := Apply(s2, ProcessDisconnect(x));
    assert Runs(s3, []) && End(s3, []).crashed;
    assert [ProcessDisconnect(x)][1..] == [];
    assert Runs(s2, [ProcessDisconnect(x)]) && End(s2, [ProcessDisconnect(x)]) == s3;
    assert [Disconnect(x, true), ProcessDisconnect(x)][1..] == [ProcessDisconnect(x)];
    assert Runs(s1, [Disconnect(x, true), ProcessDisconnect(x)]);
    assert End(s1, [Disconnect(x, true), ProcessDisconnect(x)]) == s3;
  }

  // ---------------------------------------------------------------- the service object

  class Service {
    var sessions: set<nat>
    var sessionCount: int

    constructor ()
      ensures sessions == {} && sessionCount == 0
    {
      sessions, sessionCount := {}, 0;
    }

    /** The part of the state the service owns. */
    ghost predicate Holds(s: State)
      reads this
    {
      sessions == s.sessions && sessionCount == s.count
    }

    /** AddSession: the counter stays right exactly when the session is a new one. */
    method AddSession(x: nat, ghost s: State)
      requires Holds(s)
      modifies this
      ensures Holds(Insert(s, x))
      ensures sessions == old(sessions) + {x} && sessionCount == old(sessionCount) + 1
      ensures old(sessionCount == |sessions|) ==> (sessionCount == |sessions| <==> x !in old(sessions))
    {
      if x in sessions {
        assert sessions + {x} == sessions;
      }
      sessionCount := sessionCount + 1;
      sessions := sessions + {x};
    }

    /** ReleaseSession; false is the failed assertion. */
    method ReleaseSession(x: nat, ghost s: State) returns (ok: bool)
      requires Holds(s) && !s.crashed
      modifies this
      ensures ok <==> x in old(sessions)
      ensures ok <==> !Release(s, x).crashed
      ensures ok ==> sessions == old(sessions) - {x} && x !in sessions && sessionCount == old(sessionCount) - 1
      ensures !ok ==> sessions == old(sessions) && sessionCount == old(sessionCount)
      ensures Holds(Release(s, x))
      ensures ok && old(sessionCount == |sessions|) ==> sessionCount == |sessions|
    {
      if x !in sessions {
        return false;
      }
      sessions := sessions - {x};
      sessionCount := sessionCount - 1;
      return true;
    }
  }
}
