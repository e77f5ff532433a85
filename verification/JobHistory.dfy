/**
 What a job row tells (internal/store/agents.go, and Complete of internal/agents/poll.go): column by column what
 each statement writes, and over runs, where every column names the step that wrote it.
 */
module JobHistory {
  import opened Wrappers
  import opened Jobs

  // ---------- One statement ----------

  /** A claim dispatches exactly the rows it returns, and gives them its time. */
  lemma ClaimWrites(jobs: Table, ids: seq<JobId>, now: Time)
    ensures var out := Claimed(jobs, ids, now);
            && out.Keys == jobs.Keys
            && forall id :: id in jobs ==>
                 out[id] == if id in ids
                            then Job(jobs[id].agent, jobs[id].container, Dispatched, jobs[id].result, jobs[id].error,
                                     jobs[id].createdAt, Some(now), jobs[id].finishedAt)
                            else jobs[id]
  {
  }

  /** Dispatched before the cutoff, or queued and created before it. */
  predicate IsLate(job: Job, cutoff: Time) {
    match job.state
    case Queued => job.createdAt < cutoff
    case Dispatched => job.dispatchedAt.Some? && job.dispatchedAt.value < cutoff
    case _ => false
  }

  /** Expiry times out exactly the late rows, and leaves an error text that is there. */
  lemma ExpireWrites(jobs: Table, cutoff: Time, now: Time)
    ensures var out := Expired(jobs, cutoff, now);
            && out.Keys == jobs.Keys
            && forall id :: id in jobs ==>
                 out[id] == if IsLate(jobs[id], cutoff)
                            then Job(jobs[id].agent, jobs[id].container, Timeout, jobs[id].result,
                                     Some(if jobs[id].error.Some? then jobs[id].error.value else "job timed out"),
                                     jobs[id].createdAt, jobs[id].dispatchedAt, Some(now))
                            else jobs[id]
  {
  }

  lemma LateIsStale(jobs: Table, id: JobId, cutoff: Time)
    requires id in jobs
    ensures Stale(jobs[id], cutoff) <==> IsLate(jobs[id], cutoff)
  {
  }

  /** The white space of Unicode, by code point. */
  predicate IsBlank(c: char) {
    || 0x09 <= c as int <= 0x0D || 0x2000 <= c as int <= 0x200A
    || c as int in {0x20, 0x85, 0xA0, 0x1680, 0x2028, 0x2029, 0x202F, 0x205F, 0x3000}
  }

  predicate AllBlank(s: string) {
    forall i :: 0 <= i < |s| ==> IsBlank(s[i])
  }

  lemma SpaceIs(c: char)
    ensures Space(c) <==> IsBlank(c)
  {
  }

  /** What is left of a text without the white space at its ends. */
  ghost predicate IsTrimmed(s: string, t: string) {
    exists i, j :: 0 <= i < j <= |s| && t == s[i..j] && !IsBlank(s[i]) && !IsBlank(s[j - 1]) &&
                   forall k :: 0 <= k < i || j <= k < |s| ==> IsBlank(s[k])
  }

  lemma {:induction false} TrimSpaceTrims(s: string)
    ensures AllBlank(s) <==> TrimSpace(s) == ""
    ensures !AllBlank(s) ==> IsTrimmed(s, TrimSpace(s))
  {
    forall c: char ensures Space(c) <==> IsBlank(c) {
      SpaceIs(c);
    }
    if !AllBlank(s) {
      var i := FirstOf(s);
      var j := LastOf(s);
      TrimSpaceIs(s, i, j);
      assert TrimSpace(s) == s[i..j];
    }
  }

  lemma {:induction false} FirstOf(s: string) returns (i: nat)
    requires !AllBlank(s)
    ensures i < |s| && !IsBlank(s[i]) && forall k :: 0 <= k < i ==> IsBlank(s[k])
  {
    i := 0;
    while IsBlank(s[i])
      invariant i < |s| && forall k :: 0 <= k < i ==> IsBlank(s[k])
      decreases |s| - i
    {
      if i + 1 == |s| {
        assert AllBlank(s);
      }
      i := i + 1;
    }
  }

  lemma {:induction false} LastOf(s: string) returns (j: nat)
    requires !AllBlank(s)
    ensures 0 < j <= |s| && !IsBlank(s[j - 1]) && forall k :: j <= k < |s| ==> IsBlank(s[k])
  {
    j := |s|;
    while IsBlank(s[j - 1])
      invariant 0 < j <= |s| && forall k :: j <= k < |s| ==> IsBlank(s[k])
      decreases j
    {
      if j == 1 {
        assert AllBlank(s);
      }
      j := j - 1;
    }
  }

  /** How an answer ends a job: an error text fails it, so does a blank answer, and any other answer is its result. */
  ghost predicate Ends(job: Job, result: string, errText: string, now: Time, job': Job) {
    && job' == job.(state := job'.state, result := job'.result, error := job'.error, finishedAt := Some(now))
    && if AllBlank(errText) && !AllBlank(result) then
         job'.state == Done && job'.result == Some(result) && job'.error == None
       else
         && job'.state == Failed && job'.result == None && job'.error.Some?
         && if AllBlank(errText) then job'.error.value == "agent returned an empty result"
            else IsTrimmed(errText, job'.error.value)
  }

  lemma CompleteEnds(job: Job, result: string, errText: string, now: Time)
    ensures var (state, answer, error) := Outcome(result, errText);
            Ends(job, result, errText, now, Finished(job, state, answer, error, now))
  {
    hide TrimSpace, AllBlank, IsTrimmed;
    TrimSpaceTrims(errText);
    TrimSpaceTrims(result);
    assert EMPTY_RESULT[0] == 'a';
  }

  // ---------- Runs ----------

  /** A run with the step that leads from each state to the next, and its time. */
  ghost predicate IsHistory(ws: seq<World>, ops: seq<Op>, nows: seq<Time>) {
    && |ws| == |ops| + 1 && |nows| == |ops| && Initial(ws[0])
    && forall k :: 0 <= k < |ops| ==> Step(ws[k], ops[k], nows[k], ws[k + 1])
  }

  predicate Takes(op: Op, id: JobId) {
    op.Take? && id in op.ids
  }

  ghost predicate CreatedBy(ops: seq<Op>, nows: seq<Time>, n: nat, id: JobId, row: Job)
    requires n <= |ops| == |nows|
  {
    exists i :: 0 <= i < n && ops[i] == Create(id, row.agent, row.container) && nows[i] == row.createdAt
  }

  /** The row has the time of its claim, if it was claimed, and its own agent claimed it. */
  ghost predicate TakenBy(ops: seq<Op>, nows: seq<Time>, n: nat, id: JobId, row: Job)
    requires n <= |ops| == |nows|
  {
    && (forall i :: 0 <= i < n && Takes(ops[i], id) ==>
          row.dispatchedAt == Some(nows[i]) && ops[i].agent == row.agent && row.state != Queued)
    && (row.dispatchedAt.Some? ==> exists i :: 0 <= i < n && Takes(ops[i], id))
  }

  ghost predicate EndedBy(ops: seq<Op>, nows: seq<Time>, n: nat, id: JobId, row: Job)
    requires n <= |ops| == |nows|
  {
    match row.state
    case Queued => row.result == None && row.error == None && row.finishedAt == None
    case Dispatched => row.result == None && row.error == None && row.finishedAt == None
    case Timeout => exists i :: 0 <= i < n && TimedOut(ops[i], nows[i], id, row)
    case _ => exists i :: 0 <= i < n && Answered(ops[i], nows[i], id, row)
  }

  predicate TimedOut(op: Op, now: Time, id: JobId, row: Job) {
    && op.Expire? && id in op.order && row.finishedAt == Some(now)
    && row.result == None && row.error == Some("job timed out")
    && match row.dispatchedAt
       case None => row.createdAt < op.cutoff
       case Some(t) => t < op.cutoff
  }

  ghost predicate Answered(op: Op, now: Time, id: JobId, row: Job) {
    op.Complete? && op.id == id && op.agent == row.agent && Ends(row, op.result, op.errText, now, row)
  }

  ghost predicate Tells(ops: seq<Op>, nows: seq<Time>, n: nat, id: JobId, row: Job)
    requires n <= |ops| == |nows|
  {
    CreatedBy(ops, nows, n, id, row) && TakenBy(ops, nows, n, id, row) && EndedBy(ops, nows, n, id, row)
  }

  /** Whatever a step does to a row that was there. */
  lemma StepOnRow(w: World, op: Op, now: Time, w': World, id: JobId)
    requires Inv(w) && Step(w, op, now, w') && id in w.jobs && id in w'.jobs
    ensures var row, row' := w.jobs[id], w'.jobs[id];
            if Takes(op, id) then
              && row.state == Queued && row.agent == op.agent
              && row' == row.(state := Dispatched, dispatchedAt := Some(now))
            else if op.Complete? && op.id == id && op.agent == row.agent && row.state == Dispatched then
              Ends(row, op.result, op.errText, now, row')
            else if op.Expire? && IsLate(row, op.cutoff) then
              id in op.order && row' == row.(state := Timeout, error := Some("job timed out"), finishedAt := Some(now))
            else row' == row
  {
    hide ClaimsInv, Outcome, Finished, Claimed, Expired, Ends;
    match op
    case Create(_, _, _) =>
    case Take(agent, limit, ids) =>
      ClaimWrites(w.jobs, ids, now);
      if id in ids {
        assert QueuedFor(w.jobs, agent, id);
      }
    case Complete(agent, x, result, errText) =>
      CompleteEnds(w.jobs[id], result, errText, now);
    case Expire(cutoff, order) =>
      ExpireWrites(w.jobs, cutoff, now);
      LateIsStale(w.jobs, id, cutoff);
    case Cascade(_) =>
  }

  lemma StepOnIds(w: World, op: Op, now: Time, w': World, id: JobId)
    requires Inv(w) && Step(w, op, now, w')
    ensures w.jobs.Keys <= w.issued <= w'.issued
    ensures Takes(op, id) ==> id in w.jobs
    ensures id !in w.jobs && id in w'.jobs ==>
              && op.Create? && op.newId == id && id !in w.issued
              && w'.jobs[id] == Job(op.agent, op.container, Queued, None, None, now, None, None)
  {
    hide ClaimsInv, Outcome, Finished;
    if Takes(op, id) {
      assert QueuedFor(w.jobs, op.agent, id);
    }
  }

  lemma HistoryKeepsInv(ws: seq<World>, ops: seq<Op>, nows: seq<Time>, k: nat)
    requires IsHistory(ws, ops, nows) && k < |ws|
    ensures Inv(ws[k])
  {
    hide Step, Inv, CanStep;
    forall k | 0 <= k < |ws| - 1 ensures CanStep(ws[k], ws[k + 1]) {
      StepCan(ws[k], ops[k], nows[k], ws[k + 1]);
    }
    RunKeepsInv(ws, k);
  }

  lemma StepCan(w: World, op: Op, now: Time, w': World)
    requires Step(w, op, now, w')
    ensures CanStep(w, w')
  {
  }

  /** An id that is not used up was never claimed. */
  lemma {:induction false} NeverTaken(ws: seq<World>, ops: seq<Op>, nows: seq<Time>, n: nat, i: nat, id: JobId)
    requires IsHistory(ws, ops, nows) && i <= n <= |ops| && id !in ws[n].issued
    ensures id !in ws[i].issued && (i < n ==> !Takes(ops[i], id))
    decreases n - i
  {
    hide Step, Inv, Initial;
    if i < n {
      NeverTaken(ws, ops, nows, n, i + 1, id);
      HistoryKeepsInv(ws, ops, nows, i);
      assert Step(ws[i], ops[i], nows[i], ws[i + 1]);
      StepOnIds(ws[i], ops[i], nows[i], ws[i + 1], id);
    }
  }

  lemma CreatedNext(ops: seq<Op>, nows: seq<Time>, n: nat, id: JobId, row: Job, row': Job)
    requires n < |ops| == |nows| && CreatedBy(ops, nows, n, id, row)
    requires row'.agent == row.agent && row'.container == row.container && row'.createdAt == row.createdAt
    ensures CreatedBy(ops, nows, n + 1, id, row')
  {
  }

  lemma TakenNext(ops: seq<Op>, nows: seq<Time>, n: nat, id: JobId, row: Job, row': Job)
    requires n < |ops| == |nows| && TakenBy(ops, nows, n, id, row) && row'.agent == row.agent
    requires if Takes(ops[n], id) then
               && row.state == Queued && row.agent == ops[n].agent && row'.dispatchedAt == Some(nows[n])
               && row'.state != Queued
             else row'.dispatchedAt == row.dispatchedAt && (row'.state == Queued ==> row.state == Queued)
    ensures TakenBy(ops, nows, n + 1, id, row')
  {
    forall i | 0 <= i < n + 1 && Takes(ops[i], id)
      ensures row'.dispatchedAt == Some(nows[i]) && ops[i].agent == row'.agent && row'.state != Queued
    {
    }
    if row'.dispatchedAt.Some? && !Takes(ops[n], id) {
      var i :| 0 <= i < n && Takes(ops[i], id);
    }
  }

  lemma EndedNext(ops: seq<Op>, nows: seq<Time>, n: nat, id: JobId, row: Job)
    requires n < |ops| == |nows| && EndedBy(ops, nows, n, id, row)
    ensures EndedBy(ops, nows, n + 1, id, row)
  {
    hide TimedOut, Answered;
  }

  /** A row that was there goes on to tell what happened to it. */
  lemma RowNext(ws: seq<World>, ops: seq<Op>, nows: seq<Time>, n: nat, id: JobId)
    requires n < |ops| == |nows| && |ws| == |ops| + 1
    requires Inv(ws[n]) && Step(ws[n], ops[n], nows[n], ws[n + 1]) && id in ws[n].jobs && id in ws[n + 1].jobs
    requires Tells(ops, nows, n, id, ws[n].jobs[id])
    ensures Tells(ops, nows, n + 1, id, ws[n + 1].jobs[id])
  {
    hide Step, Inv, IsLate, CreatedBy, TakenBy, IsTrimmed, AllBlank;
    var op, row, row' := ops[n], ws[n].jobs[id], ws[n + 1].jobs[id];
    StepOnRow(ws[n], op, nows[n], ws[n + 1], id);
    CreatedNext(ops, nows, n, id, row, row');
    TakenNext(ops, nows, n, id, row, row');
    if row' == row {
      EndedNext(ops, nows, n, id, row);
    } else if op.Complete? {
      assert Answered(op, nows[n], id, row');
    } else if op.Expire? {
      LateRow(ws[n], id, op.cutoff);
      assert TimedOut(op, nows[n], id, row');
    }
  }

  lemma LateRow(w: World, id: JobId, cutoff: Time)
    requires Inv(w) && id in w.jobs && IsLate(w.jobs[id], cutoff)
    ensures var row := w.jobs[id];
            row.result == None && match row.dispatchedAt case None => row.createdAt < cutoff case Some(t) => t < cutoff
  {
    hide ClaimsInv;
  }

  /**
   In every run each column of a row tells the step that wrote it: its creation, its claim by its own agent, and its
   end, which is an answer of its agent with what came of it, or an expiry that found it too late.
   */
  lemma {:induction false} RowsTellTheirSteps(ws: seq<World>, ops: seq<Op>, nows: seq<Time>, n: nat, id: JobId)
    requires IsHistory(ws, ops, nows) && n <= |ops| && id in ws[n].jobs
    ensures Tells(ops, nows, n, id, ws[n].jobs[id])
    decreases n
  {
    hide Step, Inv, Initial, Tells;
    if n == 0 {
      NoRowsAtFirst(ws[0], id);
    } else {
      var k := n - 1;
      HistoryKeepsInv(ws, ops, nows, k);
      assert Step(ws[k], ops[k], nows[k], ws[k + 1]);
      if id in ws[k].jobs {
        RowsTellTheirSteps(ws, ops, nows, k, id);
        RowNext(ws, ops, nows, k, id);
      } else {
        StepOnIds(ws[k], ops[k], nows[k], ws[n], id);
        forall i | 0 <= i < k ensures !Takes(ops[i], id) {
          NeverTaken(ws, ops, nows, k, i, id);
        }
        FirstTells(ops, nows, k, id, ws[n].jobs[id]);
      }
    }
  }

  lemma NoRowsAtFirst(w: World, id: JobId)
    requires Initial(w)
    ensures id !in w.jobs
  {
  }

  lemma FirstTells(ops: seq<Op>, nows: seq<Time>, n: nat, id: JobId, row: Job)
    requires n < |ops| == |nows| && (forall i :: 0 <= i < n ==> !Takes(ops[i], id))
    requires ops[n].Create? && ops[n].newId == id
    requires row == Job(ops[n].agent, ops[n].container, Queued, None, None, nows[n], None, None)
    ensures Tells(ops, nows, n + 1, id, row)
  {
    assert ops[n] == Create(id, row.agent, row.container);
    forall i | 0 <= i < n + 1 ensures !Takes(ops[i], id) {
    }
  }
}
