/** `terminate_process`: the two-phase shutdown of one process. The calls
    into the operating system are not modelled; instead the answers of the
    existence check are an oracle (`alive(k)` is the answer to the k-th
    check), an exception raised by a signalling step is a `Fault`, and the
    sleeps become `Wait` events. The result is the trace of what the
    function does, and the boolean it returns. */
module Termination {
  import opened Seqs
  import opened Listing

  /** The termination requests the function issues. */
  datatype Signal =
    | SigTerm        // os.kill(pid, SIGTERM)
    | SigKill        // os.kill(pid, SIGKILL)
    | Taskkill       // taskkill /PID pid
    | TaskkillForce  // taskkill /F /PID pid

  /** The request a process may intercept, per platform. */
  function GracefulSignal(platform: Platform): Signal {
    if platform == Windows then Taskkill else SigTerm
  }

  /** The request a process cannot intercept, per platform. */
  function ForcefulSignal(platform: Platform): Signal {
    if platform == Windows then TaskkillForce else SigKill
  }

  /** One observable step. */
  datatype Event =
    | Check(alive: bool)   // process_exists(pid), and what it answered
    | Send(signal: Signal)
    | Wait(seconds: nat)   // time.sleep(seconds)
    | Raised               // the step before raised an exception

  /** Where an exception interrupts the protocol, if anywhere. */
  datatype Fault = NoFault | AtGraceful | AtForceful

  datatype Outcome = Outcome(trace: seq<Event>, dead: bool)

  /** Seconds waited after the graceful request. */
  const GraceSeconds: nat := 2

  /** Seconds waited after the forceful request. */
  const ForceSeconds: nat := 1

  /** The closing existence check, whose negation is returned. */
  function Finish(trace: seq<Event>, alive: bool): Outcome {
    Outcome(trace + [Check(alive)], !alive)
  }

  /** `terminate_process(pid)`. `pid` is `int(pid)`, or `None` when that
      conversion raised; `fault` says which signalling step raised, if any;
      `alive(k)` answers the k-th existence check. Whatever the path, the
      trace ends with an existence check and the result is its negation. */
  function Terminate(platform: Platform, pid: Option<int>, fault: Fault, alive: nat -> bool): (o: Outcome)
    ensures o.trace != [] && o.trace[|o.trace| - 1].Check?
    ensures o.dead == !o.trace[|o.trace| - 1].alive
  {
    if pid.None? then
      // int(pid) raised: the handler checks the unconverted string once. On
      // Unix os.kill rejects a string, so that check always answers absent.
      Finish([Raised], platform == Windows && alive(0))
    else if !alive(0) then
      Finish([], false)
    else if fault == AtGraceful then
      Finish([Check(true), Send(GracefulSignal(platform)), Raised], alive(1))
    else if !alive(1) then
      Finish([Check(true), Send(GracefulSignal(platform)), Wait(GraceSeconds)], false)
    else if fault == AtForceful then
      Finish([Check(true), Send(GracefulSignal(platform)), Wait(GraceSeconds),
              Check(true), Send(ForcefulSignal(platform)), Raised], alive(2))
    else
      Finish([Check(true), Send(GracefulSignal(platform)), Wait(GraceSeconds),
              Check(true), Send(ForcefulSignal(platform)), Wait(ForceSeconds)], alive(2))
  }

  /** A process the first check finds gone is reported dead at once: no
      request is sent and nothing is waited for. */
  lemma AlreadyGone(platform: Platform, pid: int, fault: Fault, alive: nat -> bool)
    requires !alive(0)
    ensures Terminate(platform, Some(pid), fault, alive) == Outcome([Check(false)], true)
  {
  }

  /** A pid that does not convert to an integer sends nothing; on Unix it is
      reported dead, because the check that follows cannot fail to answer
      absent. */
  lemma Unconverted(platform: Platform, fault: Fault, alive: nat -> bool)
    ensures var o := Terminate(platform, None, fault, alive);
      && (forall e :: e in o.trace ==> !e.Send? && !e.Wait?)
      && (platform == Unix ==> o.dead)
      && (platform == Windows ==> (o.dead <==> !alive(0)))
  {
  }

  /** The trace sends `signal` at position `i`. */
  predicate SendsAt(trace: seq<Event>, i: int, signal: Signal) {
    0 <= i < |trace| && trace[i] == Send(signal)
  }

  /** Escalation order: the forceful request is only ever sent after the
      graceful one, each at most once, and right after an existence check
      that found the process still there. */
  lemma EscalationOrder(platform: Platform, pid: Option<int>, fault: Fault, alive: nat -> bool)
    ensures var t := Terminate(platform, pid, fault, alive).trace;
      forall j :: SendsAt(t, j, ForcefulSignal(platform)) ==>
        && j >= 2 && t[j - 1] == Check(true)
        && (exists i :: i < j && SendsAt(t, i, GracefulSignal(platform)))
    ensures var t := Terminate(platform, pid, fault, alive).trace;
      forall i, j :: SendsAt(t, i, GracefulSignal(platform)) && SendsAt(t, j, GracefulSignal(platform)) ==> i == j
    ensures var t := Terminate(platform, pid, fault, alive).trace;
      forall i, j :: SendsAt(t, i, ForcefulSignal(platform)) && SendsAt(t, j, ForcefulSignal(platform)) ==> i == j
  {
    var t := Terminate(platform, pid, fault, alive).trace;
    SendPositions(platform, pid, fault, alive);
    forall j | SendsAt(t, j, ForcefulSignal(platform))
      ensures exists i :: i < j && SendsAt(t, i, GracefulSignal(platform))
    {
      assert SendsAt(t, 1, GracefulSignal(platform));
    }
  }

  /** The graceful request can only be the second event, and the forceful
      one only the fifth, after a graceful request and a check that found
      the process. */
  lemma SendPositions(platform: Platform, pid: Option<int>, fault: Fault, alive: nat -> bool)
    ensures var t := Terminate(platform, pid, fault, alive).trace;
      forall j :: SendsAt(t, j, GracefulSignal(platform)) ==> j == 1
    ensures var t := Terminate(platform, pid, fault, alive).trace;
      forall j :: SendsAt(t, j, ForcefulSignal(platform)) ==>
        j == 4 && t[3] == Check(true) && t[1] == Send(GracefulSignal(platform))
  {
    assert GracefulSignal(platform) != ForcefulSignal(platform);
  }

  /** When the forceful request goes out: exactly when the pid converted,
      the process was there at the first check, the graceful request did
      not raise, and the process was still there after the grace period. */
  lemma ForcefulIff(platform: Platform, pid: Option<int>, fault: Fault, alive: nat -> bool)
    ensures Send(ForcefulSignal(platform)) in Terminate(platform, pid, fault, alive).trace <==>
      pid.Some? && alive(0) && fault != AtGraceful && alive(1)
  {
    var t := Terminate(platform, pid, fault, alive).trace;
    assert GracefulSignal(platform) != ForcefulSignal(platform);
    if pid.Some? && alive(0) && fault != AtGraceful && alive(1) {
      assert t[4] == Send(ForcefulSignal(platform));
    }
  }

  /** A process gone after the grace period is reported dead, and the
      forceful request is never sent, whether or not that request would
      have raised. */
  lemma GoneAfterGrace(platform: Platform, pid: int, fault: Fault, alive: nat -> bool)
    requires alive(0) && !alive(1) && fault != AtGraceful
    ensures Terminate(platform, Some(pid), fault, alive) ==
      Outcome([Check(true), Send(GracefulSignal(platform)), Wait(GraceSeconds), Check(false)], true)
  {
  }

  /** The full escalation, when no check ever finds the process gone. */
  function FullRun(platform: Platform): seq<Event> {
    [Check(true), Send(GracefulSignal(platform)), Wait(GraceSeconds),
     Check(true), Send(ForcefulSignal(platform)), Wait(ForceSeconds), Check(true)]
  }

  /** Without exceptions the run follows the full escalation and stops at
      the first check that finds the process gone: the trace is a prefix of
      the full run (with that check's answer), every check but the last
      found the process alive, and the result is whether the last did not. */
  lemma NormalRunIsPrefix(platform: Platform, pid: int, alive: nat -> bool)
    ensures var o := Terminate(platform, Some(pid), NoFault, alive);
      var n := |o.trace|;
      && n in {1, 4, 7}
      && o.trace[..n - 1] == FullRun(platform)[..n - 1]
      && o.trace[n - 1] == Check(!o.dead)
      && (o.dead <==> n < 7 || !alive(2))
  {
  }

  /** The existence check runs one to three times, and the oracle is
      consulted in order, from its first answer, never skipping one; the one
      exception is an unconverted pid on Unix, whose single check answers
      absent whatever the oracle says. */
  lemma ChecksInOrder(platform: Platform, pid: Option<int>, fault: Fault, alive: nat -> bool)
    ensures var answers := Answers(Terminate(platform, pid, fault, alive).trace);
      && 1 <= |answers| <= 3
      && if pid.None? && platform == Unix then answers == [false]
         else forall k :: 0 <= k < |answers| ==> answers[k] == alive(k)
  {
    var answers := Answers(Terminate(platform, pid, fault, alive).trace);
    Tally(platform, pid, fault, alive);
    if pid.Some? && alive(0) && fault != AtGraceful && alive(1) {
      assert answers == [true, true, alive(2)];
    }
  }

  /** The protocol sleeps at most the grace period plus the force period. */
  lemma WaitBound(platform: Platform, pid: Option<int>, fault: Fault, alive: nat -> bool)
    ensures WaitTotal(Terminate(platform, pid, fault, alive).trace) <= GraceSeconds + ForceSeconds
  {
    Tally(platform, pid, fault, alive);
  }

  /** Answers and total wait of every path, computed event by event. */
  lemma Tally(platform: Platform, pid: Option<int>, fault: Fault, alive: nat -> bool)
    ensures var t := Terminate(platform, pid, fault, alive).trace;
      && Answers(t) == (if pid.None? then [platform == Windows && alive(0)]
                        else if !alive(0) then [false]
                        else if fault == AtGraceful || !alive(1) then [true, alive(1)]
                        else [true, true, alive(2)])
      && WaitTotal(t) == (if pid.None? || !alive(0) || fault == AtGraceful then 0
                          else if !alive(1) || fault == AtForceful then GraceSeconds
                          else GraceSeconds + ForceSeconds)
  {
    var t := Terminate(platform, pid, fault, alive).trace;
    if pid.None? {
      Step([], Raised);
      Step([Raised], Check(platform == Windows && alive(0)));
    } else if !alive(0) {
      Step([], Check(false));
    } else {
      if fault == AtGraceful {
        Graced(platform, Raised, alive(1));
      } else if !alive(1) {
        Graced(platform, Wait(GraceSeconds), false);
      } else {
        Escalated(platform, if fault == AtForceful then Raised else Wait(ForceSeconds), alive(2));
      }
    }
  }

  /** The tallies of a run that stops after the graceful request, at a
      raise or at the end of the grace period. */
  lemma Graced(platform: Platform, e: Event, a: bool)
    requires e == Raised || e == Wait(GraceSeconds)
    ensures var t := [Check(true), Send(GracefulSignal(platform)), e] + [Check(a)];
      && Answers(t) == [true, a]
      && WaitTotal(t) == (if e.Wait? then GraceSeconds else 0)
  {
    var g := [Check(true), Send(GracefulSignal(platform))];
    Step([], Check(true));
    Step([Check(true)], Send(GracefulSignal(platform)));
    Step(g, e);
    Step(g + [e], Check(a));
    assert g + [e] == [Check(true), Send(GracefulSignal(platform)), e];
  }

  /** The tallies of a run that reaches the forceful request. */
  lemma Escalated(platform: Platform, last: Event, a: bool)
    requires last == Raised || last == Wait(ForceSeconds)
    ensures var t := [Check(true), Send(GracefulSignal(platform)), Wait(GraceSeconds),
                      Check(true), Send(ForcefulSignal(platform)), last] + [Check(a)];
      && Answers(t) == [true, true, a]
      && WaitTotal(t) == GraceSeconds + (if last.Wait? then ForceSeconds else 0)
  {
    var g := [Check(true), Send(GracefulSignal(platform))];
    Step([], Check(true));
    Step([Check(true)], Send(GracefulSignal(platform)));
    var w := g + [Wait(GraceSeconds)];
    Step(g, Wait(GraceSeconds));
    var c := w + [Check(true)];
    Step(w, Check(true));
    var f := c + [Send(ForcefulSignal(platform))];
    Step(c, Send(ForcefulSignal(platform)));
    Step(f, last);
    Step(f + [last], Check(a));
    assert f + [last] == [Check(true), Send(GracefulSignal(platform)), Wait(GraceSeconds),
                          Check(true), Send(ForcefulSignal(platform)), last];
  }

  /** Appending one event adds its answer, or its wait, and nothing else. */
  lemma Step(a: seq<Event>, e: Event)
    ensures Answers(a + [e]) == Answers(a) + (if e.Check? then [e.alive] else [])
    ensures WaitTotal(a + [e]) == WaitTotal(a) + (if e.Wait? then e.seconds else 0)
  {
    AnswersStep(a, e);
    WaitStep(a, e);
  }

  lemma {:induction false} AnswersStep(a: seq<Event>, e: Event)
    ensures Answers(a + [e]) == Answers(a) + (if e.Check? then [e.alive] else [])
    decreases |a|
  {
    var ae := a + [e];
    if a == [] {
      assert ae[1..] == [];
    } else {
      assert ae[0] == a[0];
      assert ae[1..] == a[1..] + [e];
      AnswersStep(a[1..], e);
    }
  }

  lemma {:induction false} WaitStep(a: seq<Event>, e: Event)
    ensures WaitTotal(a + [e]) == WaitTotal(a) + (if e.Wait? then e.seconds else 0)
    decreases |a|
  {
    var ae := a + [e];
    if a == [] {
      assert ae[1..] == [];
    } else {
      assert ae[0] == a[0];
      assert ae[1..] == a[1..] + [e];
      WaitStep(a[1..], e);
    }
  }

  /** The existence answers in the order the trace consulted them. */
  function Answers(trace: seq<Event>): seq<bool>
    decreases |trace|
  {
    if trace == [] then []
    else (if trace[0].Check? then [trace[0].alive] else []) + Answers(trace[1..])
  }

  /** Seconds the trace spends sleeping. */
  function WaitTotal(trace: seq<Event>): nat
    decreases |trace|
  {
    if trace == [] then 0
    else (if trace[0].Wait? then trace[0].seconds else 0) + WaitTotal(trace[1..])
  }
}
