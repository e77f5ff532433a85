/**
 What a long poll hands out (internal/agents/poll.go): what its claims take from the table, and over runs, how a poll
 that slept comes to return.
 */
module LongPollRuns {
  import opened Wrappers
  import opened Jobs
  import opened LongPoll
  import JobHistory

  /** The job waits to be handed out to the agent. */
  predicate WaitsFor(jobs: Table, agent: AgentId, id: JobId) {
    id in jobs && jobs[id].agent == agent && jobs[id].state == Queued
  }

  /**
   Jobs that waited for the agent are handed out, each once and the oldest first, and become dispatched; at most ten
   at a time, and one stays behind only when ten that are no younger go.
   */
  ghost predicate HandsOut(jobs: Table, agent: AgentId, ids: seq<JobId>, now: Time, jobs': Table) {
    && |ids| <= 10
    && (forall i, j :: 0 <= i < j < |ids| ==> ids[i] != ids[j])
    && (forall i :: 0 <= i < |ids| ==> WaitsFor(jobs, agent, ids[i]))
    && (forall i, j :: 0 <= i < j < |ids| ==> jobs[ids[i]].createdAt <= jobs[ids[j]].createdAt)
    && (forall id :: WaitsFor(jobs, agent, id) && id !in ids ==>
          |ids| == 10 && forall i :: 0 <= i < |ids| ==> jobs[ids[i]].createdAt <= jobs[id].createdAt)
    && jobs'.Keys == jobs.Keys
    && (forall id :: id in jobs ==>
          jobs'[id] == if id in ids then jobs[id].(state := Dispatched, dispatchedAt := Some(now)) else jobs[id])
  }

  lemma ClaimHandsOut(jobs: Table, agent: AgentId, ids: seq<JobId>, now: Time)
    requires IsClaim(jobs, agent, POLL_BATCH, ids)
    ensures HandsOut(jobs, agent, ids, now, Claimed(jobs, ids, now))
  {
    hide Claimed;
    JobHistory.ClaimWrites(jobs, ids, now);
    forall i | 0 <= i < |ids| ensures WaitsFor(jobs, agent, ids[i]) {
      assert ids[i] in ids;
    }
    forall id | WaitsFor(jobs, agent, id) && id !in ids
      ensures |ids| == 10 && forall i :: 0 <= i < |ids| ==> jobs[ids[i]].createdAt <= jobs[id].createdAt
    {
      assert QueuedFor(jobs, agent, id);
    }
    forall i, j | 0 <= i < j < |ids| ensures jobs[ids[i]].createdAt <= jobs[ids[j]].createdAt {
      assert ids[i] in jobs && ids[j] in jobs;
    }
  }

  // ---------- One step of a poll ----------

  /** A poll that is under way, in any of its phases, has its agent and its channel. */
  predicate Under(s: Sys, p: PollerId, agent: AgentId, ch: Chan) {
    PollerOf(s, p) in {Claiming(agent, ch), Blocked(agent, ch), Woken(agent, ch), Leaving(agent, ch)}
  }

  /**
   The phases a poll goes through: it claims; it blocks when that gave nothing and it is to wait; a value in its
   channel or its timer wakes it; then it claims again, and leaves. It leaves early when it is cancelled or a claim
   fails.
   */
  lemma PollStep(s: Sys, op: LongPoll.Op, s': Sys, p: PollerId, agent: AgentId, ch: Chan)
    requires LongPoll.Step(s, op, s') && Under(s, p, agent, ch) && PollerOf(s', p) != PollerOf(s, p)
    ensures match PollerOf(s, p)
            case Claiming(_, _) =>
              || (op.FirstClaim? && op.p == p && HandsOut(s.jobs, agent, op.ids, op.now, s'.jobs) &&
                  PollerOf(s', p) ==
                  if op.ids == [] && op.wait > 0 then Blocked(agent, ch) else Leaving(agent, ch))
              || (op == ClaimFails(p) && s'.jobs == s.jobs && PollerOf(s', p) == Leaving(agent, ch))
            case Blocked(_, _) =>
              || (op == Receive(p) && ch in s.full && ch !in s'.full && PollerOf(s', p) == Woken(agent, ch))
              || (op == TimeOut(p) && PollerOf(s', p) == Woken(agent, ch))
              || (op == Cancel(p) && s'.jobs == s.jobs && PollerOf(s', p) == Leaving(agent, ch))
            case Woken(_, _) =>
              || (op.SecondClaim? && op.p == p && HandsOut(s.jobs, agent, op.ids, op.now, s'.jobs) &&
                  PollerOf(s', p) == Leaving(agent, ch))
              || (op == ClaimFails(p) && s'.jobs == s.jobs && PollerOf(s', p) == Leaving(agent, ch))
            case Leaving(_, _) =>
              && op == Forget(p) && PollerOf(s', p) == Idle && s'.jobs == s.jobs
              && ch !in Registered(s'.waiters, agent)
            case Idle => false
  {
    hide IsClaim, HandsOut, Claimed, Expired, Listening;
    match op
    case FirstClaim(_, ids, now, _) => ClaimHandsOut(s.jobs, s.pollers[op.p].agent, ids, now);
    case SecondClaim(_, ids, now) => ClaimHandsOut(s.jobs, s.pollers[op.p].agent, ids, now);
    case _ =>
  }

  // ---------- Runs ----------

  ghost predicate IsHistory(ss: seq<Sys>, ops: seq<LongPoll.Op>) {
    && |ss| == |ops| + 1 && LongPoll.Initial(ss[0])
    && forall k :: 0 <= k < |ops| ==> LongPoll.Step(ss[k], ops[k], ss[k + 1])
  }

  /** The poll is blocked, or woken and about to claim again. */
  predicate Waiting(s: Sys, p: PollerId) {
    PollerOf(s, p).Blocked? || PollerOf(s, p).Woken?
  }

  /** How a poll that waited goes on: it claims again, unless it is cancelled or that claim fails. */
  ghost predicate GoesOn(s: Sys, op: LongPoll.Op, s': Sys, p: PollerId, agent: AgentId) {
    && Waiting(s, p)
    && if op.SecondClaim? then op.p == p && HandsOut(s.jobs, agent, op.ids, op.now, s'.jobs)
       else op == Cancel(p) || op == ClaimFails(p)
  }

  lemma WaitingStep(s: Sys, op: LongPoll.Op, s': Sys, p: PollerId)
    requires LongPoll.Step(s, op, s') && Waiting(s, p)
    ensures GoesOn(s, op, s', p, PollerOf(s, p).agent) ||
            (Waiting(s', p) && PollerOf(s', p).agent == PollerOf(s, p).agent)
  {
    hide LongPoll.Step, HandsOut;
    var poller := PollerOf(s, p);
    if PollerOf(s', p) != poller {
      PollStep(s, op, s', p, poller.agent, poller.ch);
    }
  }

  /**
   In every interleaving, a poll that was blocked and waits no more has claimed again in between, and handed out the
   jobs that were waiting for its agent then, the oldest ten if there were more; or else it was cancelled, or that
   claim failed.
   */
  lemma {:induction false} SleeperHandsOut(ss: seq<Sys>, ops: seq<LongPoll.Op>, k: nat, m: nat, p: PollerId)
    requires IsHistory(ss, ops) && k <= m <= |ops| && Waiting(ss[k], p) && !Waiting(ss[m], p)
    ensures exists i :: k <= i < m && GoesOn(ss[i], ops[i], ss[i + 1], p, PollerOf(ss[k], p).agent)
    decreases m - k
  {
    hide LongPoll.Step, LongPoll.Initial, GoesOn;
    assert LongPoll.Step(ss[k], ops[k], ss[k + 1]);
    WaitingStep(ss[k], ops[k], ss[k + 1], p);
    if !GoesOn(ss[k], ops[k], ss[k + 1], p, PollerOf(ss[k], p).agent) {
      SleeperHandsOut(ss, ops, k + 1, m, p);
    }
  }

  lemma HistoryIsRun(ss: seq<Sys>, ops: seq<LongPoll.Op>)
    requires IsHistory(ss, ops)
    ensures LongPoll.IsRun(ss)
  {
    hide LongPoll.Step, LongPoll.Initial;
    forall k | 0 <= k < |ss| - 1 ensures LongPoll.CanStep(ss[k], ss[k + 1]) {
      assert LongPoll.Step(ss[k], ops[k], ss[k + 1]);
    }
  }

  /**
   Put together with the wakeups: when every dispatcher has run its wake, a job that waits while a poll of its agent
   is blocked has a value in the channel of the poll, and is handed out by the claim the poll then makes, unless that
   claim finds it gone or ten others first.
   */
  lemma WaitingJobIsHandedOut(ss: seq<Sys>, ops: seq<LongPoll.Op>, k: nat, i: nat, p: PollerId, id: JobId)
    requires IsHistory(ss, ops) && k <= i < |ops| && ss[k].pending == map[]
    requires PollerOf(ss[k], p).Blocked? && WaitsFor(ss[k].jobs, PollerOf(ss[k], p).agent, id)
    requires GoesOn(ss[i], ops[i], ss[i + 1], p, PollerOf(ss[k], p).agent) && ops[i].SecondClaim?
    requires WaitsFor(ss[i].jobs, PollerOf(ss[k], p).agent, id)
    ensures PollerOf(ss[k], p).ch in ss[k].full
    ensures (id in ops[i].ids && ss[i + 1].jobs[id].state == Dispatched) ||
            (|ops[i].ids| == 10 && forall taken :: taken in ops[i].ids ==>
               taken in ss[i].jobs && ss[i].jobs[taken].createdAt <= ss[i].jobs[id].createdAt)
  {
    hide LongPoll.Step, LongPoll.Initial, LongPoll.IsRun;
    HistoryIsRun(ss, ops);
    QuiescentPollsMissNothing(ss, k, p, id);
  }
}
