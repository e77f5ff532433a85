/**
 Runs of the login limiter (internal/server/handlers/limiter.go): what each key's entry says about its history,
 what the answers are, and when the sweep of idle keys shows in them.
 */
module LimiterRuns {
  import opened Arithmetic
  import opened Limiter

  // ---------- Runs ----------

  datatype Call = Ask(keys: seq<string>) | FailLogin(keys: seq<string>) | Login(keys: seq<string>)

  datatype Event = Event(call: Call, now: Time)

  function Step(t: Table, free: nat, e: Event): Table {
    match e.call
    case Ask(_) => Sweep(t, e.now)
    case FailLogin(keys) =>
      var swept := Sweep(t, e.now);
      swept.(seen := FailedAll(swept.seen, free, keys, e.now))
    case Login(keys) => t.(seen := Without(t.seen, keys))
  }

  /** The table after the first n calls. */
  function After(es: seq<Event>, free: nat, n: nat): Table
    requires n <= |es|
  {
    if n == 0 then Table(map[], ZERO_TIME) else Step(After(es, free, n - 1), free, es[n - 1])
  }

  function StepUnswept(seen: Seen, free: nat, e: Event): Seen {
    match e.call
    case Ask(_) => seen
    case FailLogin(keys) => FailedAll(seen, free, keys, e.now)
    case Login(keys) => Without(seen, keys)
  }

  /** The table that a limiter that never sweeps has after the first n calls. */
  function AfterUnswept(es: seq<Event>, free: nat, n: nat): Seen
    requires n <= |es|
  {
    if n == 0 then map[] else StepUnswept(AfterUnswept(es, free, n - 1), free, es[n - 1])
  }

  /** The clock stands after 1970 and does not run backwards. */
  predicate InTime(es: seq<Event>) {
    && (forall i :: 0 <= i < |es| ==> es[i].now >= 0)
    && (forall i, j :: 0 <= i < j < |es| ==> es[i].now <= es[j].now)
  }

  /** No login fails for a key whose last failure is longer ago than the time to live. */
  ghost predicate NoLateFailure(es: seq<Event>, free: nat) {
    forall i, key :: 0 <= i < |es| && es[i].call.FailLogin? && key in es[i].call.keys ==>
      key in AfterUnswept(es, free, i) ==> !Idle(AfterUnswept(es, free, i)[key], es[i].now)
  }

  /** The swept table lacks only keys that are idle. */
  ghost predicate LacksOnlyIdle(less: Seen, more: Seen, now: Time) {
    && (forall key :: key in less ==> key in more && less[key] == more[key])
    && (forall key :: key in more && key !in less ==> Idle(more[key], now))
  }

  lemma FailureStaysBounded(a: Attempts, free: nat, now: Time)
    requires a.until <= now + BACKOFF_CEILING
    ensures var b := Failed(a, free, now); b.until <= b.touched + BACKOFF_CEILING && b.touched == now
  {
    hide Shifted;
  }

  lemma {:induction false} FailuresStayBounded(seen: Seen, free: nat, keys: seq<string>, now: Time)
    requires Bounded(seen, now) && now >= 0
    ensures Bounded(FailedAll(seen, free, keys, now), now)
  {
    hide Failed;
    if keys != [] {
      var before, key := FailedAll(seen, free, keys[..|keys| - 1], now), keys[|keys| - 1];
      FailuresStayBounded(seen, free, keys[..|keys| - 1], now);
      FailureStaysBounded(Attempt(before, key), free, now);
    }
  }

  lemma {:induction false} FailuresAgree(less: Seen, more: Seen, free: nat, keys: seq<string>, now: Time)
    requires LacksOnlyIdle(less, more, now)
    requires forall key :: key in keys && key in more ==> !Idle(more[key], now)
    ensures LacksOnlyIdle(FailedAll(less, free, keys, now), FailedAll(more, free, keys, now), now)
    ensures forall key :: key in keys ==> key in FailedAll(more, free, keys, now)
    ensures forall key :: key in keys ==> !Idle(FailedAll(more, free, keys, now)[key], now)
    ensures forall key :: key in FailedAll(more, free, keys, now) && key !in keys ==>
              key in more && FailedAll(more, free, keys, now)[key] == more[key]
  {
    if keys != [] {
      var init, key := keys[..|keys| - 1], keys[|keys| - 1];
      assert keys == init + [key];
      FailuresAgree(less, more, free, init, now);
      JustFailed(Attempt(FailedAll(more, free, init, now), key), free, now);
    }
  }

  lemma JustFailed(a: Attempts, free: nat, now: Time)
    ensures !Idle(Failed(a, free, now), now)
  {
  }

  /** What both limiters keep from call to call. */
  ghost predicate Linked(t: Table, unswept: Seen, now: Time) {
    Bounded(t.seen, now) && Bounded(unswept, now) && LacksOnlyIdle(t.seen, unswept, now)
  }

  lemma SweepStaysLinked(t: Table, unswept: Seen, now: Time)
    requires Linked(t, unswept, now)
    ensures Linked(Sweep(t, now), unswept, now)
  {
    hide Idle, Sub;
  }

  lemma LaterStaysLinked(t: Table, unswept: Seen, now: Time, later: Time)
    requires Linked(t, unswept, now) && now <= later
    ensures Linked(t, unswept, later)
  {
    hide Idle;
    forall key | key in unswept && Idle(unswept[key], now) ensures Idle(unswept[key], later) {
      IdleHasNoWait(unswept[key], now, later);
    }
  }

  lemma StepStaysLinked(t: Table, unswept: Seen, free: nat, e: Event)
    requires Linked(t, unswept, e.now) && e.now >= 0
    requires e.call.FailLogin? ==> forall key :: key in e.call.keys && key in unswept ==> !Idle(unswept[key], e.now)
    ensures Linked(Step(t, free, e), StepUnswept(unswept, free, e), e.now)
  {
    hide Idle, FailedAll, Sweep;
    SweepStaysLinked(t, unswept, e.now);
    if e.call.FailLogin? {
      FailuresStayBounded(Sweep(t, e.now).seen, free, e.call.keys, e.now);
      FailuresStayBounded(unswept, free, e.call.keys, e.now);
      FailuresAgree(Sweep(t, e.now).seen, unswept, free, e.call.keys, e.now);
    }
  }

  lemma {:induction false} RunStaysLinked(es: seq<Event>, free: nat, n: nat, now: Time)
    requires InTime(es) && NoLateFailure(es, free) && n <= |es|
    requires now >= 0 && forall i :: 0 <= i < n ==> es[i].now <= now
    ensures Linked(After(es, free, n), AfterUnswept(es, free, n), now)
  {
    hide Idle, Step, StepUnswept;
    if n > 0 {
      var e := es[n - 1];
      RunStaysLinked(es, free, n - 1, e.now);
      StepStaysLinked(After(es, free, n - 1), AfterUnswept(es, free, n - 1), free, e);
      LaterStaysLinked(After(es, free, n), AfterUnswept(es, free, n), e.now, now);
    }
  }

  /**
   Over any run in which no key fails again after more than the time to live, the limiter answers every question
   as if it never swept.
   */
  lemma AnswersAsIfUnswept(es: seq<Event>, free: nat, i: nat)
    requires InTime(es) && NoLateFailure(es, free) && i < |es| && es[i].call.Ask?
    ensures Longest(After(es, free, i + 1).seen, es[i].call.keys, es[i].now) ==
            Longest(AfterUnswept(es, free, i), es[i].call.keys, es[i].now)
  {
    hide Longest, Idle, Sweep, Sub;
    var now := es[i].now;
    RunStaysLinked(es, free, i, now);
    var t, unswept := After(es, free, i), AfterUnswept(es, free, i);
    SweepStaysLinked(t, unswept, now);
    forall key | key in unswept && Idle(unswept[key], now) ensures Sub(unswept[key].until, now) <= 0 {
      IdleHasNoWait(unswept[key], now, now);
    }
    SameAnswer(Sweep(t, now).seen, unswept, es[i].call.keys, now);
  }

  /**
   Asked in the very moment of a late failure: a key that was swept starts over, and need not wait. Without the
   sweep it would not have to wait either exactly when it still had free failures, or its shift is one that loses
   its sign. AnswersAlikeExactly decides this for every later question too.
   */
  lemma LateFailureShowsTheSweep(t: Table, free: nat, key: string, now: Time)
    requires free > 0 && now >= 0 && Sub(now, t.swept) >= ATTEMPT_TTL && Bounded(t.seen, now)
    requires key in t.seen && Idle(t.seen[key], now)
    ensures Longest(FailedAll(Sweep(t, now).seen, free, [key], now), [key], now) == 0
    ensures Longest(FailedAll(t.seen, free, [key], now), [key], now) == 0 <==>
            t.seen[key].failures < free || !SignStaysClear(t.seen[key].failures - free)
  {
    hide Idle, Shifted, Pow2, SignStaysClear;
    var a := t.seen[key];
    FailedOnce(Sweep(t, now).seen, free, key, now);
    FailedOnce(t.seen, free, key, now);
    IdleHasNoWait(a, now, now);
    if a.failures >= free {
      BackoffIsDoubling(a.failures - free);
      BackoffFits(a.failures - free);
    }
  }

  lemma FailedOnce(seen: Seen, free: nat, key: string, now: Time)
    ensures FailedAll(seen, free, [key], now) == seen[key := Failed(Attempt(seen, key), free, now)]
    ensures forall s: Seen :: key in s ==> Longest(s, [key], now) == Max(0, Sub(s[key].until, now))
  {
    assert [key][..0] == [];
  }

  // ---------- The history of a key ----------

  /** When the table was last swept, before call n: a login does not sweep, and other calls once in an hour. */
  function SweptAt(es: seq<Event>, n: nat): Time
    requires n <= |es|
    decreases n, 0
  {
    if n == 0 then ZERO_TIME else if Sweeps(es, n - 1) then es[n - 1].now else SweptAt(es, n - 1)
  }

  predicate Sweeps(es: seq<Event>, n: nat)
    requires n < |es|
    decreases n, 1
  {
    !es[n].call.Login? && es[n].now - SweptAt(es, n) >= 3_600_000_000_000
  }

  /** One more failure for each time that the key is listed. */
  function Failing(times: seq<Time>, keys: seq<string>, key: string, now: Time): seq<Time> {
    if keys == [] then times
    else
      var before := Failing(times, keys[..|keys| - 1], key, now);
      if keys[|keys| - 1] == key then before + [now] else before
  }

  predicate IdleSince(times: seq<Time>, now: Time) {
    times != [] && now - times[|times| - 1] > 3_600_000_000_000
  }

  /**
   The times of a key's failures in the first n calls, since its last login, and, where sweeps count, since the
   last sweep that found it idle.
   */
  function Failures(es: seq<Event>, n: nat, key: string, sweeping: bool): seq<Time>
    requires n <= |es|
  {
    if n == 0 then []
    else
      var e, before := es[n - 1], Failures(es, n - 1, key, sweeping);
      var kept := if sweeping && Sweeps(es, n - 1) && IdleSince(before, e.now) then [] else before;
      match e.call
      case Ask(_) => kept
      case FailLogin(keys) => Failing(kept, keys, key, e.now)
      case Login(keys) => if key in keys then [] else kept
  }

  /** The table has an entry for the key exactly when it has failed, and it is what the failures come to. */
  predicate Tells(seen: Seen, free: nat, key: string, times: seq<Time>) {
    (key in seen <==> times != []) && (key in seen ==> seen[key] == FailedAt(free, times))
  }

  lemma {:induction false} FailuresTell(seen: Seen, free: nat, keys: seq<string>, key: string, times: seq<Time>,
                                        now: Time)
    requires Tells(seen, free, key, times)
    ensures Tells(FailedAll(seen, free, keys, now), free, key, Failing(times, keys, key, now))
  {
    hide Failed;
    if keys != [] {
      var init := keys[..|keys| - 1];
      FailuresTell(seen, free, init, key, times, now);
      OneMoreFailure(free, Failing(times, init, key, now), now);
    }
  }

  lemma OneMoreFailure(free: nat, times: seq<Time>, now: Time)
    ensures FailedAt(free, times + [now]) == Failed(FailedAt(free, times), free, now)
    ensures FailedAt(free, []) == Attempts(0, ZERO_TIME, ZERO_TIME)
  {
    assert (times + [now])[..|times|] == times;
  }

  lemma SweepTells(seen: Seen, free: nat, key: string, times: seq<Time>, now: Time)
    requires Tells(seen, free, key, times)
    ensures Tells(WithoutIdle(seen, now), free, key, if IdleSince(times, now) then [] else times)
  {
    hide FailedAt;
    if times != [] {
      FailedAtIs(free, times);
    }
  }

  /** In every run, with sweeps and without, an entry is exactly what the history of its key comes to. */
  lemma {:induction false} EntriesTellHistories(es: seq<Event>, free: nat, n: nat, key: string)
    requires n <= |es|
    ensures After(es, free, n).swept == SweptAt(es, n)
    ensures Tells(After(es, free, n).seen, free, key, Failures(es, n, key, true))
    ensures Tells(AfterUnswept(es, free, n), free, key, Failures(es, n, key, false))
  {
    hide FailedAt, FailedAll, WithoutIdle, IdleSince, Failing;
    if n > 0 {
      var e, t, unswept := es[n - 1], After(es, free, n - 1), AfterUnswept(es, free, n - 1);
      EntriesTellHistories(es, free, n - 1, key);
      var times, all := Failures(es, n - 1, key, true), Failures(es, n - 1, key, false);
      SweepTells(t.seen, free, key, times, e.now);
      if e.call.FailLogin? {
        var kept := if Sweeps(es, n - 1) && IdleSince(times, e.now) then [] else times;
        FailuresTell(Sweep(t, e.now).seen, free, e.call.keys, key, kept, e.now);
        FailuresTell(unswept, free, e.call.keys, key, all, e.now);
      }
    }
  }

  // ---------- What the answers are ----------

  /** What is left of the wait after these failures. */
  function Remaining(free: nat, times: seq<Time>, now: Time): Duration {
    if times == [] then 0 else Max(0, times[|times| - 1] + Hold(free, |times|) - now)
  }

  predicate Past(times: seq<Time>, now: Time) {
    now >= 0 && forall k :: 0 <= k < |times| ==> times[k] <= now
  }

  lemma OneKey(seen: Seen, key: string, now: Time)
    ensures Longest(seen, [key], now) == if key in seen then Max(0, Sub(seen[key].until, now)) else 0
  {
    assert [key][..0] == [];
  }

  lemma AnswerOfHistory(seen: Seen, free: nat, key: string, times: seq<Time>, now: Time)
    requires Tells(seen, free, key, times) && Past(times, now)
    ensures Longest(seen, [key], now) == Remaining(free, times, now)
  {
    hide FailedAt, Hold, Longest;
    OneKey(seen, key, now);
    HoldIsBounded(free, |times|);
    FreeHold(free, |times|);
    if times != [] {
      FailedAtIs(free, times);
    }
  }

  lemma FreeHold(free: nat, count: nat)
    ensures count <= free ==> Hold(free, count) == 0
  {
  }

  /** A question about several keys is answered by the longest of their waits. */
  lemma {:induction false} LongestIs(seen: Seen, keys: seq<string>, now: Time)
    ensures forall key :: key in keys ==> Longest(seen, [key], now) <= Longest(seen, keys, now)
    ensures Longest(seen, keys, now) == 0 ||
            exists key :: key in keys && Longest(seen, keys, now) == Longest(seen, [key], now)
    ensures Longest(seen, keys, now) >= 0
  {
    hide Sub;
    if keys != [] {
      var init, last := keys[..|keys| - 1], keys[|keys| - 1];
      assert keys == init + [last];
      LongestIs(seen, init, now);
      OneKey(seen, last, now);
    }
  }

  lemma {:induction false} FailuresArePast(es: seq<Event>, n: nat, key: string, sweeping: bool, now: Time)
    requires InTime(es) && n <= |es| && now >= 0 && forall i :: 0 <= i < n ==> es[i].now <= now
    ensures Past(Failures(es, n, key, sweeping), now)
  {
    hide Sweeps, IdleSince;
    if n > 0 {
      FailuresArePast(es, n - 1, key, sweeping, now);
      var before := Failures(es, n - 1, key, sweeping);
      if es[n - 1].call.FailLogin? {
        FailingIsPast(before, es[n - 1].call.keys, key, es[n - 1].now, now);
        FailingIsPast([], es[n - 1].call.keys, key, es[n - 1].now, now);
      }
    }
  }

  lemma {:induction false} FailingIsPast(times: seq<Time>, keys: seq<string>, key: string, at: Time, now: Time)
    requires Past(times, now) && at <= now
    ensures Past(Failing(times, keys, key, at), now)
  {
    if keys != [] {
      FailingIsPast(times, keys[..|keys| - 1], key, at, now);
    }
  }

  /** In every run the answer about a key is what is left of the wait that its history comes to. */
  lemma AnswersTellHistories(es: seq<Event>, free: nat, i: nat, key: string)
    requires InTime(es) && i < |es|
    ensures Longest(After(es, free, i + 1).seen, [key], es[i].now) ==
            Remaining(free, Failures(es, i + 1, key, true), es[i].now)
    ensures Longest(AfterUnswept(es, free, i + 1), [key], es[i].now) ==
            Remaining(free, Failures(es, i + 1, key, false), es[i].now)
  {
    hide Longest, Failures, After, AfterUnswept, Tells, Past, Remaining;
    EntriesTellHistories(es, free, i + 1, key);
    FailuresArePast(es, i + 1, key, true, es[i].now);
    FailuresArePast(es, i + 1, key, false, es[i].now);
    AnswerOfHistory(After(es, free, i + 1).seen, free, key, Failures(es, i + 1, key, true), es[i].now);
    AnswerOfHistory(AfterUnswept(es, free, i + 1), free, key, Failures(es, i + 1, key, false), es[i].now);
  }

  /**
   In every run, with late failures and sweeps, no answer is above the ceiling, and nobody waits unless one of the
   keys has failed more often than is free.
   */
  lemma NoAnswerAboveTheCeiling(es: seq<Event>, free: nat, i: nat)
    requires InTime(es) && i < |es| && es[i].call.Ask?
    ensures var answer := Longest(After(es, free, i + 1).seen, es[i].call.keys, es[i].now);
            && 0 <= answer <= 900_000_000_000
            && (answer > 0 ==> exists key :: key in es[i].call.keys && |Failures(es, i + 1, key, true)| > free)
  {
    hide Longest, Failures, After, Hold;
    var seen, keys, now := After(es, free, i + 1).seen, es[i].call.keys, es[i].now;
    LongestIs(seen, keys, now);
    if Longest(seen, keys, now) > 0 {
      var key :| key in keys && Longest(seen, keys, now) == Longest(seen, [key], now);
      var times := Failures(es, i + 1, key, true);
      AnswersTellHistories(es, free, i, key);
      FailuresArePast(es, i + 1, key, true, now);
      HoldIsBounded(free, |times|);
      FreeHold(free, |times|);
    }
  }

  // ---------- When the sweep shows ----------

  /** The swept history is the end of the whole one; where it is empty and the whole one is not, the key is idle. */
  ghost predicate EndsWith(all: seq<Time>, times: seq<Time>, now: Time) {
    && |times| <= |all| && all[|all| - |times|..] == times
    && (times == [] && all != [] ==> IdleSince(all, now))
  }

  lemma {:induction false} FailingEndsWith(all: seq<Time>, times: seq<Time>, keys: seq<string>, key: string, now: Time)
    requires EndsWith(all, times, now)
    ensures EndsWith(Failing(all, keys, key, now), Failing(times, keys, key, now), now)
  {
    hide IdleSince;
    if keys != [] {
      var init := keys[..|keys| - 1];
      FailingEndsWith(all, times, init, key, now);
      var a, b := Failing(all, init, key, now), Failing(times, init, key, now);
      assert (a + [now])[|a| - |b|..] == a[|a| - |b|..] + [now];
    }
  }

  lemma SweepEndsWith(all: seq<Time>, times: seq<Time>, now: Time)
    requires EndsWith(all, times, now)
    ensures EndsWith(all, if IdleSince(times, now) then [] else times, now)
  {
    if IdleSince(times, now) {
      assert all[|all| - |times|..][|times| - 1] == all[|all| - 1];
    }
  }

  lemma LaterEndsWith(all: seq<Time>, times: seq<Time>, now: Time, later: Time)
    requires EndsWith(all, times, now) && now <= later
    ensures EndsWith(all, times, later)
  {
  }

  lemma {:induction false} HistoriesEndAlike(es: seq<Event>, n: nat, key: string, now: Time)
    requires InTime(es) && n <= |es| && forall i :: 0 <= i < n ==> es[i].now <= now
    ensures EndsWith(Failures(es, n, key, false), Failures(es, n, key, true), now)
  {
    hide EndsWith, IdleSince, Sweeps, Failing;
    if n == 0 {
      NothingEndsWith(now);
    } else {
      var e, all, times := es[n - 1], Failures(es, n - 1, key, false), Failures(es, n - 1, key, true);
      HistoriesEndAlike(es, n - 1, key, e.now);
      SweepEndsWith(all, times, e.now);
      var kept := if Sweeps(es, n - 1) && IdleSince(times, e.now) then [] else times;
      if e.call.FailLogin? {
        FailingEndsWith(all, kept, e.call.keys, key, e.now);
      }
      NothingEndsWith(e.now);
      LaterEndsWith(Failures(es, n, key, false), Failures(es, n, key, true), e.now, now);
    }
  }

  lemma NothingEndsWith(now: Time)
    ensures EndsWith([], [], now)
  {
  }

  /**
   After so many failures with sweeps and without, the last one in common, both waits are the same, or both are
   over. An empty swept history is that of a key that is idle.
   */
  predicate SweepIsHidden(free: nat, times: seq<Time>, all: seq<Time>, now: Time) {
    || times == []
    || Hold(free, |times|) == Hold(free, |all|)
    || now >= times[|times| - 1] + Max(Hold(free, |times|), Hold(free, |all|))
  }

  lemma SameRemaining(free: nat, times: seq<Time>, all: seq<Time>, now: Time)
    requires EndsWith(all, times, now)
    ensures Remaining(free, times, now) == Remaining(free, all, now) <==> SweepIsHidden(free, times, all, now)
  {
    hide Hold;
    HoldIsBounded(free, |all|);
    if times != [] {
      assert all[|all| - |times|..][|times| - 1] == all[|all| - 1];
    }
  }

  /**
   In every run, late failures included: the limiter answers a question about a key as one that never sweeps would,
   exactly when the waits after the failures that each of the two has counted are the same, or both are over.
   */
  lemma AnswersAlikeExactly(es: seq<Event>, free: nat, i: nat, key: string)
    requires InTime(es) && i < |es| && es[i].call == Ask([key])
    ensures Longest(After(es, free, i + 1).seen, [key], es[i].now) ==
            Longest(AfterUnswept(es, free, i + 1), [key], es[i].now) <==>
            SweepIsHidden(free, Failures(es, i + 1, key, true), Failures(es, i + 1, key, false), es[i].now)
  {
    hide Longest, Failures, After, AfterUnswept, Remaining, SweepIsHidden, EndsWith;
    AnswersTellHistories(es, free, i, key);
    HistoriesEndAlike(es, i + 1, key, es[i].now);
    SameRemaining(free, Failures(es, i + 1, key, true), Failures(es, i + 1, key, false), es[i].now);
  }

  const HOUR := 3_600_000_000_000

  /** Four failures, two more after an idle stretch of two hours, and a question. */
  function LateRun(key: string): seq<Event> {
    var failure := FailLogin([key]);
    [Event(failure, 1000), Event(failure, 1001), Event(failure, 1002), Event(failure, 1003),
     Event(failure, 2 * HOUR + 1003), Event(failure, 2 * HOUR + 1004), Event(Ask([key]), 2 * HOUR + 1004)]
  }

  lemma SweptNext(es: seq<Event>, n: nat)
    requires n < |es|
    ensures SweptAt(es, n + 1) == if Sweeps(es, n) then es[n].now else SweptAt(es, n)
    ensures Sweeps(es, n) <==> !es[n].call.Login? && Sub(es[n].now, SweptAt(es, n)) >= ATTEMPT_TTL
    ensures SweptAt(es, 0) == ZERO_TIME
  {
  }

  /** The first failure and the fifth sweep, and no other call does. */
  lemma LateRunSweeps(key: string)
    ensures forall n :: 0 <= n < 7 ==> (Sweeps(LateRun(key), n) <==> n == 0 || n == 4)
  {
    hide SweptAt, Sweeps;
    var es := LateRun(key);
    SweptNext(es, 0);
    SweptNext(es, 1);
    SweptNext(es, 2);
    SweptNext(es, 3);
    SweptNext(es, 4);
    SweptNext(es, 5);
    SweptNext(es, 6);
  }

  lemma FailuresNext(es: seq<Event>, n: nat, key: string, sweeping: bool)
    requires n < |es| && (es[n].call == FailLogin([key]) || es[n].call == Ask([key]))
    ensures var before := Failures(es, n, key, sweeping);
            var kept := if sweeping && Sweeps(es, n) && IdleSince(before, es[n].now) then [] else before;
            Failures(es, n + 1, key, sweeping) == if es[n].call.Ask? then kept else kept + [es[n].now]
    ensures Failures(es, 0, key, sweeping) == []
  {
    hide Sweeps, IdleSince;
    var before := Failures(es, n, key, sweeping);
    OneListing(before, key, es[n].now);
    OneListing([], key, es[n].now);
  }

  lemma OneListing(times: seq<Time>, key: string, now: Time)
    ensures Failing(times, [key], key, now) == times + [now]
  {
    assert [key][..0] == [];
    assert Failing(times, [], key, now) == times;
  }

  lemma LateRunFailures(key: string, sweeping: bool)
    ensures Failures(LateRun(key), 7, key, sweeping) ==
            (if sweeping then [] else [1000, 1001, 1002, 1003]) + [2 * HOUR + 1003, 2 * HOUR + 1004]
  {
    hide Failures, Sweeps;
    var es := LateRun(key);
    LateRunSweeps(key);
    FailuresNext(es, 0, key, sweeping);
    FailuresNext(es, 1, key, sweeping);
    FailuresNext(es, 2, key, sweeping);
    FailuresNext(es, 3, key, sweeping);
    assert Failures(es, 4, key, sweeping) == [1000, 1001, 1002, 1003];
    FailuresNext(es, 4, key, sweeping);
    FailuresNext(es, 5, key, sweeping);
    FailuresNext(es, 6, key, sweeping);
  }

  /**
   With five free failures the last of these runs into a wait of one second, which the sweep at the fifth failure
   has done away with.
   */
  lemma SweepShows(key: string)
    ensures InTime(LateRun(key))
    ensures Longest(After(LateRun(key), 5, 7).seen, [key], 2 * HOUR + 1004) == 0
    ensures Longest(AfterUnswept(LateRun(key), 5, 7), [key], 2 * HOUR + 1004) == 1_000_000_000
  {
    hide Failures, Longest, After, AfterUnswept, Shifted;
    AnswersTellHistories(LateRun(key), 5, 6, key);
    LateRunFailures(key, true);
    LateRunFailures(key, false);
    ShiftIsExact(0);
  }
}
