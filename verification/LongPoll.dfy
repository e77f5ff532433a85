/**
 The long poll (internal/agents/poll.go) against the dispatcher (internal/agents/dispatch.go).
 A poll registers a one-slot channel, claims, and blocks when it got nothing; a dispatcher creates a job
 and then fills every channel registered for the agent. All of these are separate atomic steps here, and
 any number of pollers and dispatchers interleave them.
 */
module LongPoll {
  import opened Wrappers
  import opened Jobs

  type Chan = nat
  type Waiters = map<AgentId, set<Chan>>

  const POLL_BATCH := 10

  // ---------- The waiter table ----------

  function Registered(waiters: Waiters, agent: AgentId): set<Chan> {
    if agent in waiters then waiters[agent] else {}
  }

  function Listening(waiters: Waiters, agent: AgentId, ch: Chan): Waiters {
    waiters[agent := Registered(waiters, agent) + {ch}]
  }

  /** An agent that no poll waits for has no entry. */
  function Forgotten(waiters: Waiters, agent: AgentId, ch: Chan): Waiters {
    var left := Registered(waiters, agent) - {ch};
    if left == {} then waiters - {agent} else waiters[agent := left]
  }

  class Service {
    var waiters: Waiters
    var full: set<Chan>  // the channels whose one slot is taken
    var nextChan: Chan

    constructor ()
      ensures waiters == map[] && full == {} && nextChan == 0
    {
      waiters, full, nextChan := map[], {}, 0;
    }

    method Listen(agent: AgentId) returns (ch: Chan)
      modifies this
      ensures ch == old(nextChan) && nextChan == ch + 1 && full == old(full)
      ensures waiters == Listening(old(waiters), agent, ch)
    {
      ch := nextChan;
      nextChan := nextChan + 1;
      if agent !in waiters {
        waiters := waiters[agent := {}];
      }
      waiters := waiters[agent := waiters[agent] + {ch}];
    }

    method Forget(agent: AgentId, ch: Chan)
      modifies this`waiters
      ensures waiters == Forgotten(old(waiters), agent, ch)
    {
      if agent in waiters {
        waiters := waiters[agent := waiters[agent] - {ch}];
      }
      if agent !in waiters || waiters[agent] == {} {
        waiters := waiters - {agent};
      }
    }

    /** Sends to every channel of the agent without blocking: a channel that is full stays full. */
    method Wake(agent: AgentId)
      modifies this`full
      ensures full == old(full) + Registered(waiters, agent)
    {
      var rest := if agent in waiters then waiters[agent] else {};
      while rest != {}
        invariant rest <= Registered(waiters, agent)
        invariant full == old(full) + (Registered(waiters, agent) - rest)
      {
        var ch :| ch in rest;
        if ch !in full {
          full := full + {ch};
        }
        rest := rest - {ch};
      }
    }
  }

  // ---------- Pollers and dispatchers ----------

  type PollerId = nat
  type DispatcherId = nat

  datatype Poller =
    | Idle
    | Claiming(agent: AgentId, ch: Chan)   // registered, about to claim for the first time
    | Blocked(agent: AgentId, ch: Chan)    // the first claim was empty
    | Woken(agent: AgentId, ch: Chan)      // about to claim for the second time
    | Leaving(agent: AgentId, ch: Chan)    // about to take its channel back

  /** A dispatcher that has created a job and not yet run its wake. */
  datatype Pending = Pending(agent: AgentId, job: JobId)

  datatype Sys = Sys(jobs: Table, waiters: Waiters, full: set<Chan>, nextChan: Chan,
                     pollers: map<PollerId, Poller>, pending: map<DispatcherId, Pending>)

  function PollerOf(s: Sys, p: PollerId): Poller {
    if p in s.pollers then s.pollers[p] else Idle
  }

  datatype Op =
    | Create(d: DispatcherId, agent: AgentId, id: JobId, container: ContainerId, now: Time)
    | Wake(d: DispatcherId)
    | Listen(p: PollerId, agent: AgentId)
    | FirstClaim(p: PollerId, ids: seq<JobId>, now: Time, wait: int)
    | Receive(p: PollerId)
    | TimeOut(p: PollerId)
    | Cancel(p: PollerId)
    | SecondClaim(p: PollerId, ids: seq<JobId>, now: Time)
    | ClaimFails(p: PollerId)
    | Forget(p: PollerId)
    | Finish(id: JobId, job: Job)
    | Expire(cutoff: Time, now: Time)
    | Cascade(gone: set<JobId>)

  function Moved(s: Sys, p: PollerId, to: Poller): Sys {
    s.(pollers := s.pollers[p := to])
  }

  ghost predicate Step(s: Sys, op: Op, s': Sys) {
    match op
    case Create(d, agent, id, container, now) =>
      && d !in s.pending && id !in s.jobs
      && s' == s.(jobs := s.jobs[id := NewJob(agent, container, now)], pending := s.pending[d := Pending(agent, id)])
    case Wake(d) =>
      && d in s.pending
      && s' == s.(full := s.full + Registered(s.waiters, s.pending[d].agent), pending := s.pending - {d})
    case Listen(p, agent) =>
      && PollerOf(s, p).Idle?
      && s' == Moved(s.(waiters := Listening(s.waiters, agent, s.nextChan), nextChan := s.nextChan + 1),
                     p, Claiming(agent, s.nextChan))
    case FirstClaim(p, ids, now, wait) =>
      && PollerOf(s, p).Claiming? && IsClaim(s.jobs, s.pollers[p].agent, POLL_BATCH, ids)
      && var Claiming(agent, ch) := s.pollers[p];
         s' == Moved(s.(jobs := Claimed(s.jobs, ids, now)), p,
                     if |ids| > 0 || wait <= 0 then Leaving(agent, ch) else Blocked(agent, ch))
    case Receive(p) =>
      && PollerOf(s, p).Blocked? && s.pollers[p].ch in s.full
      && s' == Moved(s.(full := s.full - {s.pollers[p].ch}), p, Woken(s.pollers[p].agent, s.pollers[p].ch))
    case TimeOut(p) =>
      && PollerOf(s, p).Blocked?
      && s' == Moved(s, p, Woken(s.pollers[p].agent, s.pollers[p].ch))
    case Cancel(p) =>
      && PollerOf(s, p).Blocked?
      && s' == Moved(s, p, Leaving(s.pollers[p].agent, s.pollers[p].ch))
    case SecondClaim(p, ids, now) =>
      && PollerOf(s, p).Woken? && IsClaim(s.jobs, s.pollers[p].agent, POLL_BATCH, ids)
      && s' == Moved(s.(jobs := Claimed(s.jobs, ids, now)), p, Leaving(s.pollers[p].agent, s.pollers[p].ch))
    case ClaimFails(p) =>
      && (PollerOf(s, p).Claiming? || PollerOf(s, p).Woken?)
      && s' == Moved(s, p, Leaving(s.pollers[p].agent, s.pollers[p].ch))
    case Forget(p) =>
      && PollerOf(s, p).Leaving?
      && s' == Moved(s.(waiters := Forgotten(s.waiters, s.pollers[p].agent, s.pollers[p].ch)), p, Idle)
    case Finish(id, job) =>
      && id in s.jobs && s.jobs[id].state == Dispatched && job.state.Terminal()
      && s' == s.(jobs := s.jobs[id := job])
    case Expire(cutoff, now) =>
      s' == s.(jobs := Expired(s.jobs, cutoff, now))
    case Cascade(gone) =>
      s' == s.(jobs := s.jobs - gone)
  }

  ghost predicate Initial(s: Sys) {
    s.jobs == map[] && s.waiters == map[] && s.full == {} && s.pollers == map[] && s.pending == map[]
  }

  // ---------- What every run keeps ----------

  /** Every poll under way has a channel of its own in the table. */
  ghost predicate PollsListed(s: Sys) {
    && (forall p :: p in s.pollers && !s.pollers[p].Idle? ==>
          s.pollers[p].ch in Registered(s.waiters, s.pollers[p].agent) && s.pollers[p].ch < s.nextChan)
    && (forall p, q :: p in s.pollers && q in s.pollers && p != q && !s.pollers[p].Idle? && !s.pollers[q].Idle? ==>
          s.pollers[p].ch != s.pollers[q].ch)
  }

  /** Every channel in the table is that of a poll under way, and no entry is empty. */
  ghost predicate ChannelsHeld(s: Sys) {
    && (forall a, ch :: ch in Registered(s.waiters, a) ==> Held(s, a, ch))
    && (forall a :: a in s.waiters ==> s.waiters[a] != {})
  }

  ghost predicate TableInv(s: Sys) { PollsListed(s) && ChannelsHeld(s) }

  ghost predicate Held(s: Sys, a: AgentId, ch: Chan) {
    exists p :: p in s.pollers && !s.pollers[p].Idle? && s.pollers[p].agent == a && s.pollers[p].ch == ch
  }

  ghost predicate WakeComing(s: Sys, agent: AgentId, id: JobId) {
    exists d :: d in s.pending && s.pending[d] == Pending(agent, id)
  }

  /** A poll that would sleep through a queued job is about to be woken for it. */
  ghost predicate NoLostWakeup(s: Sys) {
    forall p, id :: Asleep(s, p) && QueuedFor(s.jobs, s.pollers[p].agent, id) ==>
      WakeComing(s, s.pollers[p].agent, id)
  }

  /** Blocked, with nothing in the channel. */
  predicate Asleep(s: Sys, p: PollerId) {
    p in s.pollers && s.pollers[p].Blocked? && s.pollers[p].ch !in s.full
  }

  ghost predicate Inv(s: Sys) { TableInv(s) && NoLostWakeup(s) }

  ghost predicate Listens(s: Sys, p: PollerId, agent: AgentId, s': Sys) {
    && PollerOf(s, p).Idle?
    && s' == Moved(s.(waiters := Listening(s.waiters, agent, s.nextChan), nextChan := s.nextChan + 1),
                   p, Claiming(agent, s.nextChan))
  }

  lemma ListenLists(s: Sys, p: PollerId, agent: AgentId, s': Sys)
    requires PollsListed(s) && Listens(s, p, agent, s')
    ensures PollsListed(s')
  {
  }

  lemma ListenKeepsHeld(s: Sys, p: PollerId, agent: AgentId, s': Sys)
    requires ChannelsHeld(s) && Listens(s, p, agent, s')
    ensures ChannelsHeld(s')
  {
    hide Held;
    forall a, ch | ch in Registered(s'.waiters, a) ensures Held(s', a, ch) {
      if ch in Registered(s.waiters, a) {
        HeldStays(s, s', p, a, ch);
      } else {
        HeldBy(s', p);
      }
    }
  }

  lemma HeldBy(s: Sys, p: PollerId)
    requires p in s.pollers && !s.pollers[p].Idle?
    ensures Held(s, s.pollers[p].agent, s.pollers[p].ch)
  {
  }

  ghost predicate Forgets(s: Sys, p: PollerId, s': Sys) {
    && PollerOf(s, p).Leaving?
    && s' == Moved(s.(waiters := Forgotten(s.waiters, s.pollers[p].agent, s.pollers[p].ch)), p, Idle)
  }

  lemma ForgetLists(s: Sys, p: PollerId, s': Sys)
    requires PollsListed(s) && Forgets(s, p, s')
    ensures PollsListed(s')
  {
  }

  lemma ForgetKeepsHeld(s: Sys, p: PollerId, s': Sys)
    requires PollsListed(s) && ChannelsHeld(s) && Forgets(s, p, s')
    ensures ChannelsHeld(s')
  {
    hide Held;
    var Leaving(agent, ch) := s.pollers[p];
    forall a, c | c in Registered(s'.waiters, a) ensures Held(s', a, c) {
      assert c in Registered(s.waiters, a) && Held(s, a, c);
      if c == ch {
        HolderOf(s, p, a);
      } else {
        HeldStays(s, s', p, a, c);
      }
    }
  }

  /** No other agent has the channel of a poll. */
  lemma HolderOf(s: Sys, p: PollerId, a: AgentId)
    requires PollsListed(s) && p in s.pollers && !s.pollers[p].Idle? && Held(s, a, s.pollers[p].ch)
    ensures a == s.pollers[p].agent
  {
  }

  lemma HeldStays(s: Sys, s': Sys, p: PollerId, a: AgentId, ch: Chan)
    requires Held(s, a, ch)
    requires forall q :: q in s.pollers && q != p ==> q in s'.pollers && s'.pollers[q] == s.pollers[q]
    requires p in s.pollers && s.pollers[p] != Idle && s.pollers[p].ch == ch ==>
               p in s'.pollers && s'.pollers[p] != Idle && s'.pollers[p].ch == ch
               && s'.pollers[p].agent == s.pollers[p].agent
    ensures Held(s', a, ch)
  {
    var q :| q in s.pollers && !s.pollers[q].Idle? && s.pollers[q].agent == a && s.pollers[q].ch == ch;
    assert q in s'.pollers;
  }

  /** A step that leaves the table alone and moves at most one poll, which keeps its channel. */
  lemma OthersKeepTable(s: Sys, s': Sys, p: PollerId)
    requires TableInv(s) && s'.waiters == s.waiters && s'.nextChan == s.nextChan
    requires s'.pollers.Keys == s.pollers.Keys
    requires forall q :: q in s.pollers && q != p ==> s'.pollers[q] == s.pollers[q]
    requires p in s.pollers && s.pollers[p] != s'.pollers[p] ==>
               (!s.pollers[p].Idle? && !s'.pollers[p].Idle? && s'.pollers[p].agent == s.pollers[p].agent
                   && s'.pollers[p].ch == s.pollers[p].ch)
    ensures TableInv(s')
  {
    forall a, ch | ch in Registered(s'.waiters, a) ensures Held(s', a, ch) {
      HeldStays(s, s', p, a, ch);
    }
  }

  lemma StepKeepsTable(s: Sys, op: Op, s': Sys)
    requires TableInv(s) && Step(s, op, s')
    ensures TableInv(s')
  {
    hide PollsListed, ChannelsHeld, IsClaim, Claimed, Expired, Listening, Forgotten;
    match op
    case Listen(p, agent) =>
      ListenLists(s, p, agent, s');
      ListenKeepsHeld(s, p, agent, s');
    case Forget(p) =>
      ForgetLists(s, p, s');
      ForgetKeepsHeld(s, p, s');
    case FirstClaim(p, ids, now, wait) => OthersKeepTable(s, s', p);
    case Receive(p) => OthersKeepTable(s, s', p);
    case TimeOut(p) => OthersKeepTable(s, s', p);
    case Cancel(p) => OthersKeepTable(s, s', p);
    case ClaimFails(p) => OthersKeepTable(s, s', p);
    case SecondClaim(p, ids, now) => OthersKeepTable(s, s', p);
    case _ => OthersKeepTable(s, s', 0);
  }

  lemma CreateLosesNoWakeup(s: Sys, op: Op, s': Sys)
    requires Inv(s) && Step(s, op, s') && op.Create?
    ensures NoLostWakeup(s')
  {
    forall p, id | Asleep(s', p) && QueuedFor(s'.jobs, s'.pollers[p].agent, id)
      ensures WakeComing(s', s'.pollers[p].agent, id)
    {
      if id == op.id {
        assert s'.pending[op.d] == Pending(s'.pollers[p].agent, id);
      } else {
        assert QueuedFor(s.jobs, s.pollers[p].agent, id) && WakeComing(s, s.pollers[p].agent, id);
        var d :| d in s.pending && s.pending[d] == Pending(s.pollers[p].agent, id);
        assert d in s'.pending;
      }
    }
  }

  /** The step that matters: the dispatcher's promise ends, but the blocked polls it was for hold a full channel. */
  lemma WakeLosesNoWakeup(s: Sys, op: Op, s': Sys)
    requires Inv(s) && Step(s, op, s') && op.Wake?
    ensures NoLostWakeup(s')
  {
    forall p, id | Asleep(s', p) && QueuedFor(s'.jobs, s'.pollers[p].agent, id)
      ensures WakeComing(s', s'.pollers[p].agent, id)
    {
      assert WakeComing(s, s.pollers[p].agent, id);
      var d :| d in s.pending && s.pending[d] == Pending(s.pollers[p].agent, id);
      assert d in s'.pending;
    }
  }

  /** No other step queues a job, empties the channel of a poll that stays blocked, or ends a promise. */
  lemma QuietStep(s: Sys, s': Sys, moved: Option<PollerId>)
    requires Inv(s) && s.pending == s'.pending
    requires forall a, id :: QueuedFor(s'.jobs, a, id) ==> QueuedFor(s.jobs, a, id)
    requires forall q :: q in s'.pollers && s'.pollers[q].Blocked? && moved != Some(q) ==>
               && q in s.pollers && s'.pollers[q] == s.pollers[q]
               && (s.pollers[q].ch in s.full ==> s.pollers[q].ch in s'.full)
    requires moved.Some? && moved.value in s'.pollers && s'.pollers[moved.value].Blocked? ==>
               forall id :: !QueuedFor(s'.jobs, s'.pollers[moved.value].agent, id)
    ensures NoLostWakeup(s')
  {
    forall p, id | Asleep(s', p) && QueuedFor(s'.jobs, s'.pollers[p].agent, id)
      ensures WakeComing(s', s'.pollers[p].agent, id)
    {
      assert WakeComing(s, s.pollers[p].agent, id);
      var d :| d in s.pending && s.pending[d] == Pending(s.pollers[p].agent, id);
      assert d in s'.pending;
    }
  }

  lemma ClaimQueuesNothing(jobs: Table, ids: seq<JobId>, now: Time)
    ensures forall a, id :: QueuedFor(Claimed(jobs, ids, now), a, id) ==> QueuedFor(jobs, a, id)
  {
  }

  lemma FirstClaimLosesNoWakeup(s: Sys, op: Op, s': Sys)
    requires Inv(s) && Step(s, op, s') && op.FirstClaim?
    ensures NoLostWakeup(s')
  {
    ClaimQueuesNothing(s.jobs, op.ids, op.now);
    var a := s.pollers[op.p].agent;
    if op.ids == [] {
      assert forall id :: !QueuedFor(s.jobs, a, id);
    }
    QuietStep(s, s', Some(op.p));
  }

  lemma ReceiveLosesNoWakeup(s: Sys, op: Op, s': Sys)
    requires Inv(s) && Step(s, op, s') && op.Receive?
    ensures NoLostWakeup(s')
  {
    QuietStep(s, s', Some(op.p));
  }

  lemma StepLosesNoWakeup(s: Sys, op: Op, s': Sys)
    requires Inv(s) && Step(s, op, s')
    ensures NoLostWakeup(s')
  {
    hide IsClaim, PollsListed, ChannelsHeld, WakeComing;
    match op
    case Create(_, _, _, _, _) => CreateLosesNoWakeup(s, op, s');
    case Wake(_) => WakeLosesNoWakeup(s, op, s');
    case FirstClaim(_, _, _, _) => FirstClaimLosesNoWakeup(s, op, s');
    case Receive(_) => ReceiveLosesNoWakeup(s, op, s');
    case Listen(p, _) => QuietStep(s, s', Some(p));
    case TimeOut(p) => QuietStep(s, s', Some(p));
    case Cancel(p) => QuietStep(s, s', Some(p));
    case ClaimFails(p) => QuietStep(s, s', Some(p));
    case SecondClaim(p, ids, now) =>
      ClaimQueuesNothing(s.jobs, ids, now);
      QuietStep(s, s', Some(p));
    case Forget(p) => QuietStep(s, s', Some(p));
    case _ => QuietStep(s, s', None);
  }

  ghost predicate CanStep(s: Sys, s': Sys) {
    exists op :: Step(s, op, s')
  }

  ghost predicate IsRun(ss: seq<Sys>) {
    && |ss| > 0 && Initial(ss[0])
    && forall k :: 0 <= k < |ss| - 1 ==> CanStep(ss[k], ss[k + 1])
  }

  lemma StepKeepsInv(s: Sys, s': Sys)
    requires Inv(s) && CanStep(s, s')
    ensures Inv(s')
  {
    hide TableInv, NoLostWakeup;
    var op :| Step(s, op, s');
    hide Step;
    StepKeepsTable(s, op, s');
    StepLosesNoWakeup(s, op, s');
  }

  lemma InitialInv(s: Sys)
    requires Initial(s)
    ensures Inv(s)
  {
  }

  lemma {:induction false} RunKeepsInv(ss: seq<Sys>, k: nat)
    requires IsRun(ss) && k < |ss|
    ensures Inv(ss[k])
  {
    hide Inv, CanStep, Initial;
    if k == 0 {
      InitialInv(ss[0]);
    } else {
      RunKeepsInv(ss, k - 1);
      assert CanStep(ss[k - 1], ss[k - 1 + 1]);
      StepKeepsInv(ss[k - 1], ss[k]);
    }
  }

  /**
   In every interleaving, a poll that is blocked on an empty channel while a job is queued for its agent
   has a wake coming from the dispatcher that created that very job.
   */
  lemma NoWakeupIsLost(ss: seq<Sys>, k: nat, p: PollerId, id: JobId)
    requires IsRun(ss) && k < |ss|
    requires Asleep(ss[k], p) && QueuedFor(ss[k].jobs, ss[k].pollers[p].agent, id)
    ensures WakeComing(ss[k], ss[k].pollers[p].agent, id)
  {
    RunKeepsInv(ss, k);
  }

  /** Once every dispatcher has run its wake, nobody sleeps through a queued job. */
  lemma QuiescentPollsMissNothing(ss: seq<Sys>, k: nat, p: PollerId, id: JobId)
    requires IsRun(ss) && k < |ss| && ss[k].pending == map[]
    requires p in ss[k].pollers && ss[k].pollers[p].Blocked?
    requires QueuedFor(ss[k].jobs, ss[k].pollers[p].agent, id)
    ensures ss[k].pollers[p].ch in ss[k].full
  {
    RunKeepsInv(ss, k);
  }

  /** When no poll is under way the waiter table is empty again. */
  lemma TableIsReleased(ss: seq<Sys>, k: nat)
    requires IsRun(ss) && k < |ss|
    ensures ss[k].waiters == map[] <==> forall p :: p in ss[k].pollers ==> ss[k].pollers[p].Idle?
  {
    RunKeepsInv(ss, k);
    var s := ss[k];
    if s.waiters != map[] {
      var a :| a in s.waiters;
      var ch :| ch in s.waiters[a];
      assert ch in Registered(s.waiters, a) && Held(s, a, ch);
    }
  }
}
