/**
 Agent jobs (internal/store/agents.go, and Complete of internal/agents/poll.go). Each SQL statement
 is one atomic step on the table of job rows; the database clock does not run backwards.
 */
module Jobs {
  import opened Wrappers

  type AgentId = nat
  type ContainerId = nat
  type JobId = nat
  type Time = int

  datatype State = Queued | Dispatched | Done | Failed | Timeout {
    predicate Terminal() { Done? || Failed? || Timeout? }
  }

  datatype Job = Job(agent: AgentId, container: ContainerId, state: State, result: Option<string>,
                     error: Option<string>, createdAt: Time, dispatchedAt: Option<Time>, finishedAt: Option<Time>)

  type Table = map<JobId, Job>

  datatype Error = Conflict

  const TIMED_OUT := "job timed out"
  const EMPTY_RESULT := "agent returned an empty result"

  // ---------- The statements as functions of the table ----------

  predicate QueuedFor(jobs: Table, agent: AgentId, id: JobId) {
    id in jobs && jobs[id].agent == agent && jobs[id].state == Queued
  }

  predicate Distinct(ids: seq<JobId>) {
    forall i, j :: 0 <= i < j < |ids| ==> ids[i] != ids[j]
  }

  predicate SortedByAge(jobs: Table, ids: seq<JobId>) {
    forall i, j :: 0 <= i < j < |ids| && ids[i] in jobs && ids[j] in jobs ==>
      jobs[ids[i]].createdAt <= jobs[ids[j]].createdAt
  }

  /**
   What a claim may return: queued jobs of the agent, oldest first, as many as there are up to the
   limit, and none younger than one that stays behind.
   */
  ghost predicate IsClaim(jobs: Table, agent: AgentId, limit: nat, ids: seq<JobId>) {
    && Distinct(ids) && SortedByAge(jobs, ids)
    && |ids| <= limit
    && (forall id :: id in ids ==> QueuedFor(jobs, agent, id))
    && (forall id :: QueuedFor(jobs, agent, id) && id !in ids ==>
          && |ids| == limit
          && forall taken :: taken in ids ==> jobs[taken].createdAt <= jobs[id].createdAt)
  }

  function Claimed(jobs: Table, ids: seq<JobId>, now: Time): Table {
    map id | id in jobs ::
      if id in ids then jobs[id].(state := Dispatched, dispatchedAt := Some(now)) else jobs[id]
  }

  predicate Stale(job: Job, cutoff: Time) {
    || (job.state == Dispatched && job.dispatchedAt.Some? && job.dispatchedAt.value < cutoff)
    || (job.state == Queued && job.createdAt < cutoff)
  }

  function Expired(jobs: Table, cutoff: Time, now: Time): Table {
    map id | id in jobs ::
      if Stale(jobs[id], cutoff) then
        jobs[id].(state := Timeout, finishedAt := Some(now),
                  error := if jobs[id].error.Some? then jobs[id].error else Some(TIMED_OUT))
      else jobs[id]
  }

  predicate Finishable(jobs: Table, agent: AgentId, id: JobId) {
    id in jobs && jobs[id].agent == agent && jobs[id].state == Dispatched
  }

  function Finished(job: Job, state: State, result: Option<string>, error: Option<string>, now: Time): Job {
    job.(state := state, result := result, error := error, finishedAt := Some(now))
  }

  function NewJob(agent: AgentId, container: ContainerId, now: Time): Job {
    Job(agent, container, Queued, None, None, now, None, None)
  }

  /** The white space that strings.TrimSpace trims. */
  predicate Space(c: char) {
    || '\t' <= c <= '\r' || c == ' ' || c == '\U{0085}' || c == '\U{00A0}' || c == '\U{1680}'
    || '\U{2000}' <= c <= '\U{200A}' || c == '\U{2028}' || c == '\U{2029}' || c == '\U{202F}'
    || c == '\U{205F}' || c == '\U{3000}'
  }

  function TrimSpace(s: string): (t: string)
    ensures |t| <= |s|
    ensures t == "" <==> forall i :: 0 <= i < |s| ==> Space(s[i])
    ensures t != "" ==> !Space(t[0]) && !Space(t[|t| - 1])
  {
    if s == "" then ""
    else if Space(s[0]) then TrimSpace(s[1..])
    else if Space(s[|s| - 1]) then TrimSpace(s[..|s| - 1])
    else s
  }

  /** The outcome an answer stands for: an error text wins, and a blank answer is an error. */
  function Outcome(result: string, errText: string): (State, Option<string>, Option<string>) {
    var e := TrimSpace(errText);
    var err := if e == "" && TrimSpace(result) == "" then EMPTY_RESULT else e;
    if err != "" then (Failed, None, Some(err)) else (Done, Some(result), None)
  }

  /** A job is done exactly when no error is given and the answer is not blank; a failure always has a text. */
  lemma OutcomeMeaning(result: string, errText: string)
    ensures var (state, answer, error) := Outcome(result, errText);
            && (state == Done <==> (forall i :: 0 <= i < |errText| ==> Space(errText[i]))
                                   && exists i :: 0 <= i < |result| && !Space(result[i]))
            && (state == Done ==> answer == Some(result) && error == None)
            && (state != Done ==> state == Failed && answer == None && error.Some? && error.value != "")
  {
    assert EMPTY_RESULT[0] == 'a';
  }

  lemma {:induction false} TrimSpaceIs(s: string, i: nat, j: nat)
    requires i < j <= |s| && !Space(s[i]) && !Space(s[j - 1])
    requires forall k :: 0 <= k < i || j <= k < |s| ==> Space(s[k])
    ensures TrimSpace(s) == s[i..j]
    decreases |s|
  {
    if i > 0 {
      assert s[1..][i - 1..j - 1] == s[i..j];
      TrimSpaceIs(s[1..], i - 1, j - 1);
    } else if j < |s| {
      assert s[..|s| - 1][i..j] == s[i..j];
      TrimSpaceIs(s[..|s| - 1], i, j);
    }
  }

  // ---------- The store ----------

  class Store {
    var jobs: Table

    constructor ()
      ensures jobs == map[]
    {
      jobs := map[];
    }

    method CreateAgentJob(id: JobId, agent: AgentId, container: ContainerId, now: Time)
        returns (r: Result<Job, Error>)
      modifies this
      ensures id in old(jobs) ==> r == Err(Conflict) && jobs == old(jobs)
      ensures id !in old(jobs) ==>
                r == Ok(NewJob(agent, container, now)) && jobs == old(jobs)[id := r.value]
    {
      if id in jobs {
        return Err(Conflict);
      }
      var job := NewJob(agent, container, now);
      jobs := jobs[id := job];
      return Ok(job);
    }

    method HasUnfinishedJob(agent: AgentId, container: ContainerId) returns (found: bool)
      ensures found <==> exists id :: id in jobs && jobs[id].agent == agent && jobs[id].container == container
                                   && (jobs[id].state == Queued || jobs[id].state == Dispatched)
    {
      found := false;
      var rest := jobs.Keys;
      while rest != {}
        invariant rest <= jobs.Keys
        invariant found <==> exists id :: id in jobs.Keys - rest && jobs[id].agent == agent
                                       && jobs[id].container == container && !jobs[id].state.Terminal()
      {
        var id :| id in rest;
        if jobs[id].agent == agent && jobs[id].container == container && !jobs[id].state.Terminal() {
          found := true;
        }
        rest := rest - {id};
      }
    }

    /** `order by created_at limit n`: takes the oldest queued job until there are n or none is left. */
    method ClaimQueuedJobs(agent: AgentId, limit: nat, now: Time) returns (ids: seq<JobId>)
      modifies this
      ensures IsClaim(old(jobs), agent, limit, ids)
      ensures jobs == Claimed(old(jobs), ids, now)
    {
      hide *;
      ids := [];
      EmptyPick(jobs, agent);
      var rest := QueuedIds(jobs, agent);
      while |ids| < limit && rest != {}
        invariant jobs == old(jobs)
        invariant Picking(jobs, agent, ids, rest) && rest <= jobs.Keys && |ids| <= limit
      {
        var id := Oldest(rest);
        PickOldest(jobs, agent, ids, rest, id);
        ids, rest := ids + [id], rest - {id};
      }
      Picked(jobs, agent, limit, ids, rest);
      jobs := Claimed(jobs, ids, now);
    }

    method Oldest(rest: set<JobId>) returns (id: JobId)
      requires rest != {} && rest <= jobs.Keys
      ensures id in rest && forall other :: other in rest ==> jobs[id].createdAt <= jobs[other].createdAt
    {
      id :| id in rest;
      var others := rest - {id};
      while others != {}
        invariant others <= rest && id in rest
        invariant forall other :: other in rest - others ==> jobs[id].createdAt <= jobs[other].createdAt
      {
        var other :| other in others;
        if jobs[other].createdAt < jobs[id].createdAt {
          id := other;
        }
        others := others - {other};
      }
    }

    method FinishAgentJob(id: JobId, agent: AgentId, state: State, result: Option<string>,
                          error: Option<string>, now: Time) returns (r: Result<Job, Error>)
      modifies this
      ensures !Finishable(old(jobs), agent, id) ==> r == Err(Conflict) && jobs == old(jobs)
      ensures Finishable(old(jobs), agent, id) ==>
                r == Ok(Finished(old(jobs)[id], state, result, error, now)) && jobs == old(jobs)[id := r.value]
    {
      if !(id in jobs && jobs[id].agent == agent && jobs[id].state == Dispatched) {
        return Err(Conflict);
      }
      var job := jobs[id].(state := state, result := result, error := error, finishedAt := Some(now));
      jobs := jobs[id := job];
      return Ok(job);
    }

    method ExpireStaleJobs(cutoff: Time, now: Time) returns (ids: set<JobId>)
      modifies this
      ensures ids == set id | id in old(jobs) && Stale(old(jobs)[id], cutoff)
      ensures jobs == Expired(old(jobs), cutoff, now)
    {
      ids := set id | id in jobs && Stale(jobs[id], cutoff);
      jobs := Expired(jobs, cutoff, now);
    }

    /** The end of a poll's job: an error text, or an answer that is blank, fails it. */
    method Complete(agent: AgentId, id: JobId, result: string, errText: string, now: Time)
        returns (r: Result<Job, Error>)
      modifies this
      ensures !Finishable(old(jobs), agent, id) ==> r == Err(Conflict) && jobs == old(jobs)
      ensures Finishable(old(jobs), agent, id) ==>
                var (state, answer, error) := Outcome(result, errText);
                r == Ok(Finished(old(jobs)[id], state, answer, error, now)) && jobs == old(jobs)[id := r.value]
    {
      var trimmed := TrimSpace(errText);
      if trimmed == "" && TrimSpace(result) == "" {
        trimmed := EMPTY_RESULT;
      }
      if trimmed != "" {
        r := FinishAgentJob(id, agent, Failed, None, Some(trimmed), now);
        return;
      }
      r := FinishAgentJob(id, agent, Done, Some(result), None, now);
    }
  }

  function QueuedIds(jobs: Table, agent: AgentId): set<JobId> {
    set id | id in jobs && QueuedFor(jobs, agent, id)
  }

  ghost predicate Picking(jobs: Table, agent: AgentId, ids: seq<JobId>, rest: set<JobId>) {
    && Distinct(ids) && SortedByAge(jobs, ids)
    && rest <= jobs.Keys
    && (forall id :: id in ids ==> QueuedFor(jobs, agent, id) && id !in rest)
    && (forall id :: QueuedFor(jobs, agent, id) <==> id in ids || id in rest)
    && (forall taken, id :: taken in ids && id in rest ==> jobs[taken].createdAt <= jobs[id].createdAt)
  }

  lemma EmptyPick(jobs: Table, agent: AgentId)
    ensures Picking(jobs, agent, [], QueuedIds(jobs, agent)) && QueuedIds(jobs, agent) <= jobs.Keys
  {
  }

  lemma PickOldest(jobs: Table, agent: AgentId, ids: seq<JobId>, rest: set<JobId>, id: JobId)
    requires Picking(jobs, agent, ids, rest) && id in rest
    requires forall other :: other in rest ==> jobs[id].createdAt <= jobs[other].createdAt
    ensures Picking(jobs, agent, ids + [id], rest - {id})
  {
  }

  lemma Picked(jobs: Table, agent: AgentId, limit: nat, ids: seq<JobId>, rest: set<JobId>)
    requires Picking(jobs, agent, ids, rest) && |ids| <= limit && (|ids| == limit || rest == {})
    ensures IsClaim(jobs, agent, limit, ids)
  {
  }

  // ---------- What every run keeps ----------

  /** Which columns a row has set depends on its state alone. */
  predicate RowOk(job: Job, clock: Time) {
    && (job.result.Some? <==> job.state == Done)
    && (job.error.Some? <==> job.state == Failed || job.state == Timeout)
    && (job.finishedAt.Some? <==> job.state.Terminal())
    && (job.state == Queued ==> job.dispatchedAt.None?)
    && (job.state in {Dispatched, Done, Failed} ==> job.dispatchedAt.Some?)
    && job.createdAt <= clock
  }

  datatype Claim = Claim(agent: AgentId, id: JobId, createdAt: Time)

  /** The table with its history: the ids ever used, the claims in order, and the jobs that have ended. */
  datatype World = World(jobs: Table, clock: Time, issued: set<JobId>, claims: seq<Claim>, ended: seq<JobId>)

  datatype Op =
    | Create(newId: JobId, agent: AgentId, container: ContainerId)
    | Take(agent: AgentId, limit: nat, ids: seq<JobId>)
    | Complete(agent: AgentId, id: JobId, result: string, errText: string)
    | Expire(cutoff: Time, order: seq<JobId>)
    | Cascade(gone: set<JobId>)

  function ClaimRecords(jobs: Table, agent: AgentId, ids: seq<JobId>): (cs: seq<Claim>)
    requires forall id :: id in ids ==> id in jobs
    ensures |cs| == |ids|
    ensures forall k :: 0 <= k < |ids| ==> cs[k] == Claim(agent, ids[k], jobs[ids[k]].createdAt)
  {
    seq(|ids|, k requires 0 <= k < |ids| => Claim(agent, ids[k], jobs[ids[k]].createdAt))
  }

  /** One statement at time `now`. Rows can also go with their container or trigger message (Cascade). */
  ghost predicate Step(w: World, op: Op, now: Time, w': World) {
    && w.clock <= now == w'.clock
    && match op
       case Create(id, agent, container) =>
         && id !in w.issued
         && w' == w.(clock := now, jobs := w.jobs[id := NewJob(agent, container, now)], issued := w.issued + {id})
       case Take(agent, limit, ids) =>
         && IsClaim(w.jobs, agent, limit, ids)
         && w' == w.(clock := now, jobs := Claimed(w.jobs, ids, now),
                     claims := w.claims + ClaimRecords(w.jobs, agent, ids))
       case Complete(agent, id, result, errText) =>
         if Finishable(w.jobs, agent, id) then
           var (state, answer, error) := Outcome(result, errText);
           w' == w.(clock := now, jobs := w.jobs[id := Finished(w.jobs[id], state, answer, error, now)],
                    ended := w.ended + [id])
         else w' == w.(clock := now)
       case Expire(cutoff, order) =>
         && Distinct(order)
         && (forall id :: id in order <==> id in w.jobs && Stale(w.jobs[id], cutoff))
         && w' == w.(clock := now, jobs := Expired(w.jobs, cutoff, now), ended := w.ended + order)
       case Cascade(gone) =>
         w' == w.(clock := now, jobs := w.jobs - gone)
  }

  ghost predicate Initial(w: World) {
    w.jobs == map[] && w.issued == {} && w.claims == [] && w.ended == []
  }

  ghost predicate RowsInv(w: World) {
    && (forall id :: id in w.jobs ==> id in w.issued && RowOk(w.jobs[id], w.clock))
    && (forall id :: id in w.jobs ==> (w.jobs[id].state.Terminal() <==> id in w.ended))
    && (forall id :: id in w.ended ==> id in w.issued)
    && Distinct(w.ended)
  }

  ghost predicate ClaimsInv(w: World) {
    && (forall c :: c in w.claims ==> c.id in w.issued && c.createdAt <= w.clock)
    && (forall c :: c in w.claims && c.id in w.jobs ==> w.jobs[c.id].state != Queued)
    && (forall i, j :: 0 <= i < j < |w.claims| ==> w.claims[i].id != w.claims[j].id)
    && (forall i, j :: 0 <= i < j < |w.claims| && w.claims[i].agent == w.claims[j].agent ==>
          w.claims[i].createdAt <= w.claims[j].createdAt)
    && (forall c, id :: c in w.claims && QueuedFor(w.jobs, c.agent, id) ==> c.createdAt <= w.jobs[id].createdAt)
  }

  ghost predicate Inv(w: World) { RowsInv(w) && ClaimsInv(w) }

  lemma ExpireKeepsRows(w: World, cutoff: Time, order: seq<JobId>, now: Time, w': World)
    requires RowsInv(w) && Step(w, Expire(cutoff, order), now, w')
    ensures RowsInv(w')
  {
    forall i, j | 0 <= i < j < |w'.ended| ensures w'.ended[i] != w'.ended[j] {
      if i < |w.ended| <= j {
        assert w'.ended[i] in w.ended && w'.ended[j] in order;
      } else if i >= |w.ended| {
        assert order[i - |w.ended|] != order[j - |w.ended|];
      }
    }
  }

  lemma CompleteKeepsRows(w: World, agent: AgentId, id: JobId, result: string, errText: string, now: Time, w': World)
    requires RowsInv(w) && Step(w, Complete(agent, id, result, errText), now, w')
    ensures RowsInv(w')
  {
  }

  lemma CreateKeepsRows(w: World, id: JobId, agent: AgentId, container: ContainerId, now: Time, w': World)
    requires RowsInv(w) && Step(w, Create(id, agent, container), now, w')
    ensures RowsInv(w')
  {
  }

  lemma TakeKeepsRows(w: World, agent: AgentId, limit: nat, ids: seq<JobId>, now: Time, w': World)
    requires RowsInv(w) && Step(w, Take(agent, limit, ids), now, w')
    ensures RowsInv(w')
  {
  }

  lemma CascadeKeepsRows(w: World, gone: set<JobId>, now: Time, w': World)
    requires RowsInv(w) && Step(w, Cascade(gone), now, w')
    ensures RowsInv(w')
  {
  }

  lemma StepKeepsRows(w: World, op: Op, now: Time, w': World)
    requires RowsInv(w) && Step(w, op, now, w')
    ensures RowsInv(w')
  {
    hide RowsInv, Step;
    match op
    case Create(id, agent, container) => CreateKeepsRows(w, id, agent, container, now, w');
    case Take(agent, limit, ids) => TakeKeepsRows(w, agent, limit, ids, now, w');
    case Complete(agent, id, result, errText) => CompleteKeepsRows(w, agent, id, result, errText, now, w');
    case Expire(cutoff, order) => ExpireKeepsRows(w, cutoff, order, now, w');
    case Cascade(gone) => CascadeKeepsRows(w, gone, now, w');
  }

  lemma TakenOrEarlier(w: World, agent: AgentId, limit: nat, ids: seq<JobId>, i: nat)
    requires ClaimsInv(w) && IsClaim(w.jobs, agent, limit, ids) && i < |w.claims| + |ids|
    ensures var all := w.claims + ClaimRecords(w.jobs, agent, ids);
            if i < |w.claims| then all[i] == w.claims[i] && all[i] in w.claims
            else all[i] == Claim(agent, ids[i - |w.claims|], w.jobs[ids[i - |w.claims|]].createdAt)
                 && QueuedFor(w.jobs, agent, ids[i - |w.claims|])
  {
    if i >= |w.claims| { assert ids[i - |w.claims|] in ids; }
  }

  lemma TakenInOrder(w: World, agent: AgentId, limit: nat, ids: seq<JobId>, i: nat, j: nat)
    requires ClaimsInv(w) && IsClaim(w.jobs, agent, limit, ids) && i < j < |w.claims| + |ids|
    ensures var all := w.claims + ClaimRecords(w.jobs, agent, ids);
            all[i].id != all[j].id && (all[i].agent == all[j].agent ==> all[i].createdAt <= all[j].createdAt)
  {
    TakenOrEarlier(w, agent, limit, ids, i);
    TakenOrEarlier(w, agent, limit, ids, j);
  }

  lemma TakeKeepsClaims(w: World, agent: AgentId, limit: nat, ids: seq<JobId>, now: Time, w': World)
    requires ClaimsInv(w) && RowsInv(w) && Step(w, Take(agent, limit, ids), now, w')
    ensures ClaimsInv(w')
  {
    var all := w'.claims;
    forall i, j | 0 <= i < j < |all|
      ensures all[i].id != all[j].id && (all[i].agent == all[j].agent ==> all[i].createdAt <= all[j].createdAt)
    {
      TakenInOrder(w, agent, limit, ids, i, j);
    }
    forall c | c in all ensures c in w.claims || (c.id in ids && c.agent == agent && QueuedFor(w.jobs, agent, c.id)
                                                  && c.createdAt == w.jobs[c.id].createdAt)
    {
      var i :| 0 <= i < |all| && all[i] == c;
      TakenOrEarlier(w, agent, limit, ids, i);
    }
    forall c, q | c in all && QueuedFor(w'.jobs, c.agent, q) ensures c.createdAt <= w'.jobs[q].createdAt {
      assert QueuedFor(w.jobs, c.agent, q) && q !in ids;
    }
  }

  lemma StepKeepsClaims(w: World, op: Op, now: Time, w': World)
    requires Inv(w) && Step(w, op, now, w')
    ensures ClaimsInv(w')
  {
    match op
    case Create(id, agent, container) =>
      forall c, q | c in w'.claims && QueuedFor(w'.jobs, c.agent, q) ensures c.createdAt <= w'.jobs[q].createdAt {
        if q != id { assert QueuedFor(w.jobs, c.agent, q); }
      }
    case Take(agent, limit, ids) => TakeKeepsClaims(w, agent, limit, ids, now, w');
    case Complete(agent, id, result, errText) =>
      forall c, q | c in w'.claims && QueuedFor(w'.jobs, c.agent, q) ensures c.createdAt <= w'.jobs[q].createdAt {
        assert QueuedFor(w.jobs, c.agent, q);
      }
    case Expire(cutoff, order) =>
      forall c, q | c in w'.claims && QueuedFor(w'.jobs, c.agent, q) ensures c.createdAt <= w'.jobs[q].createdAt {
        assert QueuedFor(w.jobs, c.agent, q);
      }
    case Cascade(gone) =>
      forall c, q | c in w'.claims && QueuedFor(w'.jobs, c.agent, q) ensures c.createdAt <= w'.jobs[q].createdAt {
        assert QueuedFor(w.jobs, c.agent, q);
      }
  }

  ghost predicate CanStep(w: World, w': World) {
    exists op, now :: Step(w, op, now, w')
  }

  ghost predicate IsRun(ws: seq<World>) {
    && |ws| > 0 && Initial(ws[0])
    && forall k :: 0 <= k < |ws| - 1 ==> CanStep(ws[k], ws[k + 1])
  }

  lemma StepKeepsInv(w: World, w': World)
    requires Inv(w) && CanStep(w, w')
    ensures Inv(w')
  {
    var op, now :| Step(w, op, now, w');
    StepKeepsRows(w, op, now, w');
    StepKeepsClaims(w, op, now, w');
  }

  lemma {:induction false} RunKeepsInv(ws: seq<World>, k: nat)
    requires IsRun(ws) && k < |ws|
    ensures Inv(ws[k])
  {
    hide Inv, CanStep;
    if k == 0 {
      InitialInv(ws[0]);
    } else {
      RunKeepsInv(ws, k - 1);
      assert CanStep(ws[k - 1], ws[k - 1 + 1]);
      StepKeepsInv(ws[k - 1], ws[k]);
    }
  }

  lemma InitialInv(w: World)
    requires Initial(w)
    ensures Inv(w)
  {
  }

  /** In every run a job is claimed at most once and ends at most once, and every row fits its state. */
  lemma AtMostOnce(ws: seq<World>, k: nat)
    requires IsRun(ws) && k < |ws|
    ensures forall i, j :: 0 <= i < j < |ws[k].claims| ==> ws[k].claims[i].id != ws[k].claims[j].id
    ensures Distinct(ws[k].ended)
    ensures forall id :: id in ws[k].jobs ==> RowOk(ws[k].jobs[id], ws[k].clock)
  {
    RunKeepsInv(ws, k);
  }

  /** In every run the claims of one agent hand its jobs out in the order they were created. */
  lemma ClaimsInOrder(ws: seq<World>, k: nat, i: nat, j: nat)
    requires IsRun(ws) && k < |ws| && i < j < |ws[k].claims|
    requires ws[k].claims[i].agent == ws[k].claims[j].agent
    ensures ws[k].claims[i].createdAt <= ws[k].claims[j].createdAt
  {
    RunKeepsInv(ws, k);
  }

  lemma EndedStep(w: World, w': World, id: JobId)
    requires Inv(w) && CanStep(w, w') && id in w.issued
    ensures id in w'.issued && (id in w'.jobs ==> id in w.jobs)
    ensures id in w'.jobs && w.jobs[id].state.Terminal() ==> w'.jobs[id] == w.jobs[id]
  {
    var op, now :| Step(w, op, now, w');
  }

  /** A row that has ended stays as it is until it is deleted, however long the run goes on. */
  lemma {:induction false} EndedRowsStay(ws: seq<World>, i: nat, k: nat, id: JobId)
    requires IsRun(ws) && i <= k < |ws|
    requires id in ws[i].jobs && ws[i].jobs[id].state.Terminal()
    ensures id in ws[k].issued
    ensures id in ws[k].jobs ==> ws[k].jobs[id] == ws[i].jobs[id]
    decreases k - i
  {
    hide CanStep, Step;
    RunKeepsInv(ws, i);
    if i < k {
      EndedRowsStay(ws, i, k - 1, id);
      RunKeepsInv(ws, k - 1);
      assert CanStep(ws[k - 1], ws[k - 1 + 1]);
      EndedStep(ws[k - 1], ws[k], id);
    }
  }
}
