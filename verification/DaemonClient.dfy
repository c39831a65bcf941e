/**
  The daemon client: calls served one at a time over a session that may die at
  any moment.  Each method is one uninterrupted piece of the client's code: the
  start of a task, the continuation after an awaited promise, or an event
  handler.  Any order of them is a run, and every one keeps `Valid`.
 */
module DaemonClient {
  import opened Wrappers

  const BACKOFF_INITIAL_MS: nat := 250
  const BACKOFF_MAX_MS: nat := 8000
  const MAX_SAFE_INTEGER: nat := 9007199254740991

  /** One spawned daemon process. */
  datatype Session = Session(ready: bool, pending: Option<nat>, closing: bool, dead: bool, failed: bool)

  datatype TaskKind = Request | Shutdown

  /** A call that was accepted: its number, in the order the calls were made, and its kind. */
  datatype Task = Task(call: nat, kind: TaskKind)

  datatype DaemonError = UnsupportedProtocolVersion | Internal | Other

  /** How a request promise settled. */
  datatype Settlement = Resolved | Answered(error: DaemonError) | Lost

  datatype Refusal = Closed | Overlapping | IdsExhausted

  /** Where the task at the head of the chain awaits. */
  datatype Phase =
    | Idle
    | Delaying(until: nat)
    | Initializing(session: nat, id: nat)
    | Ensured(session: nat)
    | Requesting(session: nat, id: nat)
    | Stopping(session: nat)

  /** What a call's promise settled with. */
  datatype CallOutcome = Delivered(settlement: Settlement) | Refused(refusal: Refusal) | FatalVersion | Stopped

  datatype Ended = Ended(task: Task, outcome: CallOutcome)

  /** The call ended with a health signal. */
  predicate HealthyEnd(ended: Ended) {
    ended.outcome.Delivered? && Healthy(ended.outcome.settlement)
  }

  datatype Reply = Malformed | Reply(id: nat, settlement: Settlement)

  /** 250 ms doubled some number of times, at most 8 s. */
  predicate OnLadder(ms: nat) {
    ms in {250, 500, 1000, 2000, 4000, 8000}
  }

  function Next(ms: nat): nat {
    if ms * 2 <= BACKOFF_MAX_MS then ms * 2 else BACKOFF_MAX_MS
  }

  /** A result, or an error response that is not an internal error: the daemon is responsive. */
  predicate Healthy(settlement: Settlement) {
    settlement.Resolved? || (settlement.Answered? && !settlement.error.Internal?)
  }

  /**
    The calls settle one by one in the order they were made: those that ended, the
    one running, and those queued are the calls in order.  Exactly the shutdowns
    end stopped.
   */
  predicate InOrder(calls: seq<TaskKind>, ended: seq<Ended>, running: Option<Task>, queue: seq<Task>) {
    && |calls| == |ended| + (if running.Some? then 1 else 0) + |queue|
    && (forall k :: 0 <= k < |ended| ==>
        ended[k].task == Task(k, calls[k]) && (ended[k].outcome.Stopped? <==> calls[k].Shutdown?))
    && (running.Some? ==> running.value == Task(|ended|, calls[|ended|]))
    && forall j :: 0 <= j < |queue| ==> queue[j] == Task(|calls| - |queue| + j, calls[|calls| - |queue| + j])
  }

  lemma CallQueued(calls: seq<TaskKind>, ended: seq<Ended>, running: Option<Task>, queue: seq<Task>, kind: TaskKind)
    requires InOrder(calls, ended, running, queue)
    ensures InOrder(calls + [kind], ended, running, queue + [Task(|calls|, kind)])
  {
  }

  lemma CallStarted(calls: seq<TaskKind>, ended: seq<Ended>, queue: seq<Task>)
    requires InOrder(calls, ended, None, queue) && queue != []
    ensures InOrder(calls, ended, Some(queue[0]), queue[1..])
  {
  }

  lemma CallEnded(calls: seq<TaskKind>, ended: seq<Ended>, running: Task, queue: seq<Task>, outcome: CallOutcome)
    requires InOrder(calls, ended, Some(running), queue) && (outcome.Stopped? <==> running.kind.Shutdown?)
    ensures InOrder(calls, ended + [Ended(running, outcome)], None, queue)
  {
  }

  /** A session invalidates the caches at most once, and only when it failed; a failed session is dead. */
  ghost predicate FailuresCounted(sessions: seq<Session>, invalidations: seq<nat>) {
    && |invalidations| == |sessions|
    && forall s :: 0 <= s < |sessions| ==>
         invalidations[s] <= (if sessions[s].failed then 1 else 0) && (sessions[s].failed ==> sessions[s].dead)
  }

  /** A pending request is unsettled, and it is the awaited one unless its session is closing. */
  ghost predicate PendingAwaited(sessions: seq<Session>, settled: set<nat>, nextId: nat, awaited: Option<(nat, nat)>) {
    forall s :: 0 <= s < |sessions| && sessions[s].pending.Some? ==>
      var id := sessions[s].pending.value;
      id < nextId && id !in settled && (sessions[s].closing || awaited == Some((s, id)))
  }

  ghost predicate PendingDiffer(sessions: seq<Session>) {
    forall s, t :: 0 <= s < t < |sessions| && sessions[s].pending.Some? ==> sessions[s].pending != sessions[t].pending
  }

  predicate Ascending(ids: seq<nat>) {
    forall i, j :: 0 <= i < j < |ids| ==> ids[i] < ids[j]
  }

  lemma AscendingExtends(ids: seq<nat>, id: nat)
    requires Ascending(ids) && forall other :: other in ids ==> other < id
    ensures Ascending(ids + [id])
  {
    forall i, j | 0 <= i < j < |ids + [id]| ensures (ids + [id])[i] < (ids + [id])[j] {
      assert ids[i] in ids;
    }
  }

  class DaemonClient {
    var sessions: seq<Session>
    var current: Option<nat>
    var fatal: bool
    var closing: bool
    var nextId: nat
    var backoff: nat
    var restartNotBefore: nat
    var queue: seq<Task>
    var running: Option<Task>
    var phase: Phase
    /** Settled request promises. */
    var settled: map<nat, Settlement>
    /** The settled calls, in the order they settled. */
    var outcomes: seq<Ended>
    /** The calls accepted so far; a call's number is its position. */
    var calls: seq<TaskKind>
    /** History: ids sent, sends refused for overlapping, and cache invalidations by session. */
    ghost var sent: seq<nat>
    ghost var overlaps: nat
    ghost var invalidations: seq<nat>

    constructor ()
      ensures Valid() && Between() && calls == [] && outcomes == [] && backoff == BACKOFF_INITIAL_MS
    {
      sessions, current, fatal, closing, nextId := [], None, false, false, 1;
      backoff, restartNotBefore, phase, settled := BACKOFF_INITIAL_MS, 0, Idle, map[];
      queue, running, outcomes, calls := [], None, [], [];
      sent, overlaps, invalidations := [], 0, [];
    }

    /** The promise the head task awaits, if any. */
    function Awaited(): Option<(nat, nat)>
      reads this
    {
      match phase
      case Initializing(session, id) => Some((session, id))
      case Requesting(session, id) => Some((session, id))
      case _ => None
    }

    ghost predicate SessionsValid()
      reads this
    {
      && FailuresCounted(sessions, invalidations) && PendingAwaited(sessions, settled.Keys, nextId, Awaited())
         && PendingDiffer(sessions)
      && (current.Some? ==> current.value < |sessions| && !sessions[current.value].closing)
    }

    ghost predicate PhaseValid()
      reads this
    {
      && (running.None? ==> phase.Idle?)
      && (!phase.Idle? && running.Some? ==> (phase.Stopping? <==> running.value.kind.Shutdown?))
      && match phase
      case Initializing(s, id) =>
          s < |sessions| && !sessions[s].closing && id < nextId && (id in settled || sessions[s].pending == Some(id))
      case Requesting(s, id) =>
          s < |sessions| && !sessions[s].closing && id < nextId && (id in settled || sessions[s].pending == Some(id))
      case Ensured(s) => s < |sessions| && !sessions[s].closing
      case Stopping(s) => s < |sessions| && current.None?
      case _ => true
    }

    ghost predicate Valid()
      reads this
    {
      && SessionsValid() && PhaseValid() && InOrder(calls, outcomes, running, queue)
      && OnLadder(backoff) && overlaps == 0
      && Ascending(sent) && (forall id :: id in sent ==> id < nextId) && (forall id :: id in settled ==> id < nextId)
    }

    /** Between two pieces of code a call is running exactly while its task awaits something. */
    predicate Between()
      reads this
    {
      running.Some? <==> !phase.Idle?
    }

    /** History only grows: sent ids, call outcomes, settled promises, failed sessions. */
    twostate predicate Grows()
      reads this
    {
      && old(sent) <= sent && old(outcomes) <= outcomes && old(calls) <= calls
      && (forall id :: id in old(settled) ==> id in settled && settled[id] == old(settled)[id])
      && old(|sessions|) <= |sessions| && old(|invalidations|) <= |invalidations|
      && (forall s :: 0 <= s < old(|sessions|) ==> (old(sessions[s].failed) ==> sessions[s].failed))
    }

    twostate predicate SameCalls()
      reads this
    {
      calls == old(calls) && queue == old(queue) && running == old(running) && outcomes == old(outcomes)
    }

    /* ---- sending ---- */

    method Send(s: nat) returns (r: Result<nat, Refusal>)
      requires s < |sessions| && SessionsValid() && Ascending(sent) && forall id :: id in sent ==> id < nextId
      modifies `sessions, `nextId, `sent, `overlaps
      ensures Ascending(sent) && (forall id :: id in sent ==> id < nextId)
      ensures match r
              case Err(refusal) => sessions == old(sessions) && nextId == old(nextId) && sent == old(sent)
                                   && overlaps == old(overlaps) + (if refusal.Overlapping? then 1 else 0)
                                   && (refusal.Overlapping? ==> sessions[s].pending.Some?)
              case Ok(id) =>
                  id == old(nextId) && nextId == id + 1 && sent == old(sent) + [id] && overlaps == old(overlaps)
                             && old(sessions[s]).pending.None? && !old(sessions[s]).dead
                             && sessions == old(sessions)[s := old(sessions[s]).(pending := Some(id))]
    {
      if sessions[s].dead {
        return Err(Closed);
      }
      if sessions[s].pending.Some? {
        overlaps := overlaps + 1;
        return Err(Overlapping);
      }
      if nextId >= MAX_SAFE_INTEGER {
        return Err(IdsExhausted);
      }
      var id := nextId;
      AscendingExtends(sent, id);
      nextId, sent := nextId + 1, sent + [id];
      sessions := sessions[s := sessions[s].(pending := Some(id))];
      return Ok(id);
    }

    method ScheduleBackoff(now: nat)
      requires OnLadder(backoff)
      modifies `backoff, `restartNotBefore
      ensures backoff == Next(old(backoff)) && OnLadder(backoff) && restartNotBefore == now + old(backoff)
    {
      restartNotBefore := now + backoff;
      backoff := if backoff * 2 <= BACKOFF_MAX_MS then backoff * 2 else BACKOFF_MAX_MS;
    }

    /** The head task ends and its call settles. */
    method Finish(outcome: CallOutcome)
      requires running.Some? && InOrder(calls, outcomes, running, queue)
               && (outcome.Stopped? <==> running.value.kind.Shutdown?)
      modifies `phase, `running, `outcomes
      ensures phase == Idle && running.None? && outcomes == old(outcomes) + [Ended(old(running).value, outcome)]
      ensures InOrder(calls, outcomes, running, queue)
    {
      CallEnded(calls, outcomes, running.value, queue, outcome);
      phase, running, outcomes := Idle, None, outcomes + [Ended(running.value, outcome)];
    }

    /* ---- callers ---- */

    /** `compile` and `filesChanged`: refused once shut down, else queued in call order. */
    method Call() returns (r: Result<nat, Refusal>)
      requires Valid()
      modifies `queue, `calls
      ensures Valid() && Grows()
      ensures r == (if closing then Err(Closed) else Ok(|old(calls)|))
      ensures calls == if closing then old(calls) else old(calls) + [Request]
      ensures queue == if closing then old(queue) else old(queue) + [Task(|old(calls)|, Request)]
    {
      if closing {
        return Err(Closed);
      }
      r := Ok(|calls|);
      CallQueued(calls, outcomes, running, queue, Request);
      calls, queue := calls + [Request], queue + [Task(|calls|, Request)];
    }

    method CallShutdown() returns (call: nat)
      requires Valid()
      modifies `queue, `calls, `closing
      ensures Valid() && Grows() && closing && call == |old(calls)|
      ensures calls == old(calls) + [Shutdown] && queue == old(queue) + [Task(call, Shutdown)]
    {
      call := |calls|;
      CallQueued(calls, outcomes, running, queue, Shutdown);
      closing, calls, queue := true, calls + [Shutdown], queue + [Task(call, Shutdown)];
    }

    /** The rest of `restart`, once its shutdown has settled. */
    method FinishRestart(call: nat)
      requires Valid() && call < |outcomes| && calls[call].Shutdown?
      modifies `closing, `restartNotBefore, `backoff
      ensures Valid() && Grows() && !closing && restartNotBefore == 0 && backoff == BACKOFF_INITIAL_MS
    {
      closing, restartNotBefore, backoff := false, 0, BACKOFF_INITIAL_MS;
    }

    /* ---- the head task ---- */

    /** The next task leaves the queue; a request ensures a session, a shutdown closes the current one. */
    method StartTask(now: nat)
      requires Valid() && running.None? && queue != []
      modifies this
      ensures Valid() && Between() && Grows() && calls == old(calls) && queue == old(queue)[1..]
      ensures running == Some(old(queue)[0]) || (running.None? && |outcomes| == |old(outcomes)| + 1)
      ensures backoff == old(backoff) || backoff == Next(old(backoff))
    {
      CallStarted(calls, outcomes, queue);
      running, queue := Some(queue[0]), queue[1..];
      if running.value.kind == Shutdown {
        StartShutdown();
      } else if fatal {
        Finish(FatalVersion);
      } else if current.Some? && !sessions[current.value].dead {
        phase := Ensured(current.value);
      } else {
        current := None;
        if restartNotBefore > now {
          phase := Delaying(restartNotBefore);
        } else {
          Spawn(now);
        }
      }
    }

    method DelayElapsed(now: nat)
      requires Valid() && Between() && phase.Delaying? && phase.until <= now
      modifies this
      ensures Valid() && Between() && Grows() && calls == old(calls) && queue == old(queue)
      ensures backoff == old(backoff) || backoff == Next(old(backoff))
    {
      phase := Idle;
      Spawn(now);
    }

    method AddSession() returns (s: nat)
      requires Valid() && phase.Idle?
      modifies `sessions, `invalidations, `current
      ensures Valid() && Grows() && s == old(|sessions|) && current == Some(s)
      ensures sessions == old(sessions) + [Session(false, None, false, false, false)]
              && invalidations == old(invalidations) + [0]
    {
      s := |sessions|;
      sessions, invalidations := sessions + [Session(false, None, false, false, false)], invalidations + [0];
      current := Some(s);
    }

    /** A new process, and `initialize` sent to it. */
    method Spawn(now: nat)
      requires Valid() && phase.Idle? && running.Some? && running.value.kind.Request?
      modifies this
      ensures Valid() && Between() && Grows() && queue == old(queue) && calls == old(calls)
      ensures running == old(running) || (running.None? && |outcomes| == |old(outcomes)| + 1)
      ensures backoff == old(backoff) || backoff == Next(old(backoff))
    {
      var s := AddSession();
      var sentId := Send(s);
      if sentId.Ok? {
        phase := Initializing(s, sentId.value);
      } else {
        DropUninitialized(s, now, Refused(sentId.error));
      }
    }

    /** A session that did not initialize is dropped, and backs off unless its failure already did. */
    method DropUninitialized(s: nat, now: nat, outcome: CallOutcome)
      requires Valid() && phase.Idle? && running.Some? && running.value.kind.Request? && !outcome.Stopped?
      requires s < |sessions| && sessions[s].pending.None?
      modifies `sessions, `current, `phase, `running, `outcomes, `backoff, `restartNotBefore
      ensures Valid() && Between() && Grows() && phase.Idle?
              && outcomes == old(outcomes) + [Ended(old(running).value, outcome)]
      ensures backoff == if old(sessions[s].failed) then old(backoff) else Next(old(backoff))
      ensures sessions == old(sessions)[s := old(sessions[s]).(closing := true)] && current != Some(s)
    {
      if !sessions[s].failed {
        ScheduleBackoff(now);
      }
      Abandon(s);
      Finish(outcome);
    }

    method Abandon(s: nat)
      requires Valid() && phase.Idle? && s < |sessions| && sessions[s].pending.None?
      modifies `sessions, `current
      ensures Valid() && Grows() && current == if old(current) == Some(s) then None else old(current)
      ensures sessions == old(sessions)[s := old(sessions[s]).(closing := true)]
    {
      sessions := sessions[s := sessions[s].(closing := true)];
      if current == Some(s) {
        current := None;
      }
    }

    /** After the `initialize` promise settled. */
    method ContinueInitialize(now: nat)
      requires Valid() && Between() && phase.Initializing? && phase.id in settled
      modifies this
      ensures Valid() && Between() && Grows() && calls == old(calls) && queue == old(queue)
      ensures fatal == (old(fatal) || old(settled[phase.id]) == Answered(UnsupportedProtocolVersion))
      ensures phase == if old(settled[phase.id]).Resolved? then Ensured(old(phase.session)) else Idle
      ensures backoff ==
                if old(settled[phase.id]).Resolved? || old(sessions[phase.session].failed) then old(backoff)
                else Next(old(backoff))
    {
      var s, settlement := phase.session, settled[phase.id];
      if settlement.Resolved? {
        sessions := sessions[s := sessions[s].(ready := true)];
        phase := Ensured(s);
      } else {
        if settlement == Answered(UnsupportedProtocolVersion) {
          fatal := true;
        }
        phase := Idle;
        DropUninitialized(s, now, Delivered(settlement));
      }
    }

    /** Once a session is ensured, the request is sent; it never overlaps another. */
    method SendRequest()
      requires Valid() && Between() && phase.Ensured?
      modifies this
      ensures Valid() && Between() && Grows() && calls == old(calls) && queue == old(queue) && backoff == old(backoff)
      ensures phase.Requesting?
              || (phase.Idle? && |outcomes| == |old(outcomes)| + 1
                  && outcomes[|old(outcomes)|].outcome in {Refused(Closed), Refused(IdsExhausted)})
    {
      var s := phase.session;
      var sentId := Send(s);
      if sentId.Ok? {
        phase := Requesting(s, sentId.value);
      } else {
        Finish(Refused(sentId.error));
      }
    }

    /** After the request's promise settled: a result or an ordinary error response is a health signal. */
    method ContinueRequest()
      requires Valid() && Between() && phase.Requesting? && phase.id in settled
      modifies this
      ensures Valid() && Between() && Grows() && calls == old(calls) && queue == old(queue) && phase.Idle?
      ensures outcomes == old(outcomes) + [Ended(old(running).value, Delivered(old(settled[phase.id])))]
      ensures backoff == if Healthy(old(settled[phase.id])) then BACKOFF_INITIAL_MS else old(backoff)
    {
      var settlement := settled[phase.id];
      if settlement.Resolved? || (settlement.Answered? && !settlement.error.Internal?) {
        backoff := BACKOFF_INITIAL_MS;
      }
      Finish(Delivered(settlement));
    }

    method StartShutdown()
      requires Valid() && phase.Idle? && running.Some? && running.value.kind.Shutdown?
      modifies this
      ensures Valid() && Between() && Grows() && queue == old(queue) && calls == old(calls) && current.None?
              && backoff == old(backoff)
      ensures running == old(running) || (running.None? && |outcomes| == |old(outcomes)| + 1)
    {
      var session := current;
      current := None;
      if session.None? || sessions[session.value].dead {
        Finish(Stopped);
      } else {
        Stop(session.value);
      }
    }

    method Stop(s: nat)
      requires Valid() && phase.Idle? && running.Some? && running.value.kind.Shutdown?
      requires current.None? && s < |sessions| && sessions[s].pending.None?
      modifies `sessions, `nextId, `sent, `overlaps, `phase
      ensures Valid() && Grows() && phase == Stopping(s)
    {
      sessions := sessions[s := sessions[s].(closing := true)];
      var ignored := Send(s);
      phase := Stopping(s);
    }

    /** The shutdown was answered, refused, or timed out. */
    method FinishShutdown()
      requires Valid() && Between() && phase.Stopping?
      modifies this
      ensures Valid() && Between() && Grows() && calls == old(calls) && queue == old(queue) && phase.Idle?
              && backoff == old(backoff)
      ensures outcomes == old(outcomes) + [Ended(old(running).value, Stopped)]
    {
      Finish(Stopped);
    }

    /* ---- session events ---- */

    /** The pending promise of a session settles, once. */
    method Settle(s: nat, settlement: Settlement)
      requires Valid() && s < |sessions| && sessions[s].pending.Some?
      modifies `sessions, `settled
      ensures Valid() && Grows()
      ensures sessions == old(sessions)[s := old(sessions[s]).(pending := None)]
      ensures old(sessions[s].pending.value) !in old(settled)
              && settled == old(settled)[old(sessions[s].pending.value) := settlement]
    {
      settled := settled[sessions[s].pending.value := settlement];
      sessions := sessions[s := sessions[s].(pending := None)];
    }

    /** Rejects the pending request, drops the session and invalidates caches, at most once per session. */
    method Fail(s: nat, now: nat)
      requires Valid() && s < |sessions|
      modifies this
      ensures Valid() && Grows() && SameCalls() && phase == old(phase)
      ensures nextId == old(nextId) && sent == old(sent)
      ensures old(sessions[s].failed) ==>
                sessions == old(sessions) && invalidations == old(invalidations) && settled == old(settled)
                    && backoff == old(backoff) && current == old(current)
      ensures !old(sessions[s].failed) ==>
                && sessions == old(sessions)[s := old(sessions[s]).(failed := true, dead := true, pending := None)]
                && invalidations == old(invalidations)[s := if old(sessions[s].closing) then 0 else 1]
                && settled ==
                     (if old(sessions[s].pending.Some?) then old(settled)[old(sessions[s].pending.value) := Lost]
                      else old(settled))
                && backoff == Next(old(backoff)) && current != Some(s)
    {
      if sessions[s].failed {
        return;
      }
      ScheduleBackoff(now);
      RejectPending(s);
      MarkFailed(s);
    }

    method RejectPending(s: nat)
      requires Valid() && s < |sessions|
      modifies `sessions, `settled
      ensures Valid() && Grows()
      ensures sessions == old(sessions)[s := old(sessions[s]).(pending := None)]
      ensures settled ==
                if old(sessions[s].pending.Some?) then old(settled)[old(sessions[s].pending.value) := Lost]
                else old(settled)
    {
      if sessions[s].pending.Some? {
        Settle(s, Lost);
      }
    }

    method MarkFailed(s: nat)
      requires Valid() && s < |sessions| && sessions[s].pending.None? && !sessions[s].failed
      modifies `sessions, `current, `invalidations
      ensures Valid() && Grows() && current == if old(current) == Some(s) then None else old(current)
      ensures sessions == old(sessions)[s := old(sessions[s]).(failed := true, dead := true)]
      ensures invalidations == old(invalidations)[s := if old(sessions[s].closing) then 0 else 1]
    {
      sessions := sessions[s := sessions[s].(failed := true, dead := true)];
      if current == Some(s) {
        current := None;
      }
      if !sessions[s].closing {
        invalidations := invalidations[s := invalidations[s] + 1];
      }
    }

    /** One line from the daemon. */
    method Receive(s: nat, reply: Reply, now: nat)
      requires Valid() && s < |sessions|
      modifies this
      ensures Valid() && Grows() && SameCalls() && phase == old(phase)
      ensures nextId == old(nextId) && sent == old(sent) && (backoff == old(backoff) || backoff == Next(old(backoff)))
      ensures old(sessions[s].dead) ==> sessions == old(sessions) && settled == old(settled) && backoff == old(backoff)
      ensures !old(sessions[s].dead) ==>
                if reply.Malformed? || old(sessions[s].pending) != Some(reply.id)
                    || reply.settlement == Answered(Internal) then sessions[s].failed
                else sessions == old(sessions)[s := old(sessions[s]).(pending := None)] && backoff == old(backoff)
                     && current == old(current)
      ensures !old(sessions[s].dead) && reply.Reply? && old(sessions[s].pending) == Some(reply.id) ==>
                settled == old(settled)[reply.id := reply.settlement]
    {
      if sessions[s].dead {
        return;
      }
      if reply.Malformed? {
        Fail(s, now);
        return;
      }
      if sessions[s].pending != Some(reply.id) {
        Fail(s, now);
        return;
      }
      Settle(s, reply.settlement);
      if reply.settlement == Answered(Internal) {
        Fail(s, now);
      }
    }

    /** The process exited. */
    method Exit(s: nat, now: nat)
      requires Valid() && s < |sessions|
      modifies this
      ensures Valid() && Grows() && SameCalls() && phase == old(phase)
      ensures nextId == old(nextId) && sent == old(sent) && sessions[s].dead
      ensures backoff == old(backoff) || backoff == Next(old(backoff))
      ensures old(sessions[s].closing) ==>
                settled == old(settled) && backoff == old(backoff) && invalidations == old(invalidations)
      ensures !old(sessions[s].closing) ==> sessions[s].failed
    {
      sessions := sessions[s := sessions[s].(dead := true)];
      if sessions[s].closing {
        return;
      }
      Fail(s, now);
    }

    /** The daemon closed its output. */
    method OutputClosed(s: nat, now: nat)
      requires Valid() && s < |sessions|
      modifies this
      ensures Valid() && Grows() && SameCalls() && phase == old(phase)
      ensures nextId == old(nextId) && sent == old(sent) && (backoff == old(backoff) || backoff == Next(old(backoff)))
      ensures !old(sessions[s].dead) && !old(sessions[s].closing) ==> sessions[s].failed
    {
      if !sessions[s].dead && !sessions[s].closing {
        Fail(s, now);
      }
    }

    /** Writing a request failed; a promise that already settled is left alone. */
    method WriteFailed(s: nat, id: nat)
      requires Valid() && s < |sessions|
      modifies `sessions, `settled
      ensures Valid() && Grows()
      ensures settled == if old(sessions[s].pending) == Some(id) then old(settled)[id := Lost] else old(settled)
    {
      if sessions[s].pending == Some(id) {
        Settle(s, Lost);
      }
    }

    /** The chain of tasks goes on: a task starts, its delay has elapsed, or its session has answered `initialize`. */
    method ContinueChain(now: nat)
      requires Valid() && Between()
      modifies this
      ensures Valid() && Between() && Grows() && calls == old(calls)
      ensures backoff == old(backoff) || backoff == Next(old(backoff))
    {
      if running.None? && queue != [] {
        StartTask(now);
      } else if phase.Delaying? && phase.until <= now {
        DelayElapsed(now);
      } else if phase.Initializing? && phase.id in settled {
        ContinueInitialize(now);
      }
    }

    /**
      The head task goes on with its request or shutdown; the backoff is reset exactly when
      this ends a call healthy.
     */
    method ContinueTask()
      requires Valid() && Between()
      modifies this
      ensures Valid() && Between() && Grows() && calls == old(calls)
      ensures |outcomes| <= |old(outcomes)| + 1
      ensures backoff ==
                if |outcomes| > |old(outcomes)| && HealthyEnd(outcomes[|old(outcomes)|]) then BACKOFF_INITIAL_MS
                else old(backoff)
    {
      if phase.Ensured? {
        SendRequest();
      } else if phase.Requesting? && phase.id in settled {
        ContinueRequest();
      } else if phase.Stopping? {
        FinishShutdown();
      }
    }

    /** One piece of the client's code, if it can run now. */
    method Step(event: Event)
      requires Valid() && Between()
      modifies this
      ensures Valid() && Between() && Grows()
      ensures calls == old(calls) + (if event.ShutdownCalled? then [Shutdown]
                                     else if event.Called? && !old(closing) then [Request]
                                     else [])
      ensures Paces(old(backoff), backoff, ResetAt(event, calls, outcomes, |old(outcomes)|, |outcomes|))
    {
      match event {
        case Called => var call := Call();
        case ShutdownCalled => var call := CallShutdown();
        case Restarted(call) =>
          if call < |outcomes| && calls[call].Shutdown? {
            FinishRestart(call);
          }
        case TaskDue(now) => ContinueChain(now);
        case PromiseDue => ContinueTask();
        case Line(s, reply, now) => if s < |sessions| { Receive(s, reply, now); }
        case ProcessExited(s, now) => if s < |sessions| { Exit(s, now); }
        case SpawnFailed(s, now) => if s < |sessions| { Fail(s, now); }
        case OutputEnded(s, now) => if s < |sessions| { OutputClosed(s, now); }
        case WriteError(s, id) => if s < |sessions| { WriteFailed(s, id); }
      }
    }
  }

  datatype Event =
    | Called
    | ShutdownCalled
    | Restarted(call: nat)
    | TaskDue(now: nat)
    | PromiseDue
    | Line(session: nat, reply: Reply, now: nat)
    | ProcessExited(session: nat, now: nat)
    | SpawnFailed(session: nat, now: nat)
    | OutputEnded(session: nat, now: nat)
    | WriteError(session: nat, id: nat)

  /**
    The event resets the backoff: it ends a restart whose shutdown was settled, or the
    call that settles at it ends healthy.
   */
  predicate ResetAt(event: Event, calls: seq<TaskKind>, outcomes: seq<Ended>, before: nat, after: nat) {
    && before <= after <= |outcomes| <= |calls|
    && if event.Restarted? then event.call < before && calls[event.call].Shutdown?
       else event.PromiseDue? && after == before + 1 && HealthyEnd(outcomes[before])
  }

  /** The backoff goes back to its start at a reset, and otherwise stays or doubles up to its cap. */
  predicate Paces(before: nat, after: nat, reset: bool) {
    if reset then after == BACKOFF_INITIAL_MS else after == before || after == Next(before)
  }

  /** Event by event; `counts` are the numbers of calls settled so far. */
  ghost predicate Paced(events: seq<Event>, calls: seq<TaskKind>, outcomes: seq<Ended>, backoffs: seq<nat>,
                        counts: seq<nat>, n: nat)
  {
    && n <= |events| && |backoffs| == n + 1 && |counts| == n + 1 && |outcomes| <= |calls|
    && (forall i :: 0 <= i <= n ==> counts[i] <= |outcomes|)
    && forall i :: 0 <= i < n ==>
         Paces(backoffs[i], backoffs[i + 1], ResetAt(events[i], calls, outcomes, counts[i], counts[i + 1]))
  }

  lemma PacedOn(events: seq<Event>, calls: seq<TaskKind>, outcomes: seq<Ended>, calls': seq<TaskKind>,
                outcomes': seq<Ended>,
                backoffs: seq<nat>, counts: seq<nat>, n: nat, backoff: nat)
    requires Paced(events, calls, outcomes, backoffs, counts, n) && n < |events|
    requires calls <= calls' && outcomes <= outcomes' && |outcomes'| <= |calls'|
    requires Paces(backoffs[n], backoff, ResetAt(events[n], calls', outcomes', counts[n], |outcomes'|))
    ensures Paced(events, calls', outcomes', backoffs + [backoff], counts + [|outcomes'|], n + 1)
  {
    forall i | 0 <= i < n
      ensures ResetAt(events[i], calls', outcomes', counts[i], counts[i + 1]) <==>
                ResetAt(events[i], calls, outcomes, counts[i], counts[i + 1])
    {
      assert counts[i + 1] <= |outcomes|;
    }
  }

  /**
    Any interleaving from a fresh client: requests never overlap, ids strictly
    increase, calls settle in the order they were made, caches are invalidated at
    most once per session, and the backoff is 250 ms doubled at most to 8 s, until
    a call that ends healthy or a restart resets it.
   */
  method Run(events: seq<Event>) returns (client: DaemonClient, ghost backoffs: seq<nat>, ghost counts: seq<nat>)
    ensures fresh(client) && client.Valid() && client.Between()
    ensures client.overlaps == 0 && Ascending(client.sent) && OnLadder(client.backoff)
    ensures forall s :: 0 <= s < |client.invalidations| ==> client.invalidations[s] <= 1
    ensures InOrder(client.calls, client.outcomes, client.running, client.queue)
    ensures Paced(events, client.calls, client.outcomes, backoffs, counts, |events|)
    ensures backoffs[0] == BACKOFF_INITIAL_MS && backoffs[|events|] == client.backoff
    ensures counts[0] == 0 && counts[|events|] == |client.outcomes|
  {
    client := new DaemonClient();
    backoffs, counts := [client.backoff], [0];
    for i := 0 to |events|
      invariant fresh(client) && client.Valid() && client.Between()
      invariant Paced(events, client.calls, client.outcomes, backoffs, counts, i)
      invariant backoffs[0] == BACKOFF_INITIAL_MS && backoffs[i] == client.backoff
      invariant counts[0] == 0 && counts[i] == |client.outcomes|
    {
      ghost var calls, outcomes := client.calls, client.outcomes;
      client.Step(events[i]);
      PacedOn(events, calls, outcomes, client.calls, client.outcomes, backoffs, counts, i, client.backoff);
      backoffs, counts := backoffs + [client.backoff], counts + [|client.outcomes|];
    }
  }
}
