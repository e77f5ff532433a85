/**
 The login limiter (internal/server/handlers/limiter.go): after some free failures every further one of a key
 doubles the time until the next attempt, up to a ceiling. Keys that have been idle for long are swept away.
 Times and durations are in nanoseconds.
 */
module Limiter {
  import opened Arithmetic
  import opened Int64

  const SECOND := 1_000_000_000
  const BACKOFF_BASE := SECOND
  const BACKOFF_CEILING := 15 * 60 * SECOND
  const ATTEMPT_TTL := 60 * 60 * SECOND

  /** Go's zero time, the beginning of year 1, counted from 1970. */
  const ZERO_TIME := -62_135_596_800 * SECOND

  type Time = int
  type Duration = int

  datatype Attempts = Attempts(failures: nat, until: Time, touched: Time)

  type Seen = map<string, Attempts>

  /** The difference of two times, which stops at the ends of the 64-bit range. */
  function Sub(a: Time, b: Time): Duration {
    Max(MIN, Min(a - b, MAX))
  }

  function Pow2(n: nat): (r: nat)
    ensures r > 0
  {
    if n == 0 then 1 else 2 * Pow2(n - 1)
  }

  /** The base shifted left in 64 bits; bits that leave the word are lost. */
  function Shifted(k: nat): int {
    if k >= 64 then 0 else Wrap(BACKOFF_BASE * Pow2(k))
  }

  /** The wait after failure k of those that are not free, counted from 0. */
  function Backoff(k: nat): Duration {
    Min(Shifted(k), BACKOFF_CEILING)
  }

  // ---------- The limiter as functions ----------

  function Attempt(seen: Seen, key: string): Attempts {
    if key in seen then seen[key] else Attempts(0, ZERO_TIME, ZERO_TIME)
  }

  function Failed(a: Attempts, free: nat, now: Time): Attempts {
    var n := a.failures + 1;
    Attempts(n, if n > free then now + Backoff(n - free - 1) else a.until, now)
  }

  /** Each key fails as often as it is listed. */
  function FailedAll(seen: Seen, free: nat, keys: seq<string>, now: Time): Seen {
    if keys == [] then seen
    else
      var before, key := FailedAll(seen, free, keys[..|keys| - 1], now), keys[|keys| - 1];
      before[key := Failed(Attempt(before, key), free, now)]
  }

  predicate Idle(a: Attempts, now: Time) {
    Sub(now, a.touched) > ATTEMPT_TTL
  }

  function WithoutIdle(seen: Seen, now: Time): Seen {
    map key | key in seen && !Idle(seen[key], now) :: seen[key]
  }

  function Without(seen: Seen, keys: seq<string>): Seen {
    map key | key in seen && key !in keys :: seen[key]
  }

  /** The longest wait among the keys, 0 if none has one. */
  function Longest(seen: Seen, keys: seq<string>, now: Time): Duration {
    if keys == [] then 0
    else
      var before, key := Longest(seen, keys[..|keys| - 1], now), keys[|keys| - 1];
      if key in seen then Max(before, Sub(seen[key].until, now)) else before
  }

  /** The table and when it was last swept. */
  datatype Table = Table(seen: Seen, swept: Time)

  function Sweep(t: Table, now: Time): Table {
    if Sub(now, t.swept) < ATTEMPT_TTL then t else Table(WithoutIdle(t.seen, now), now)
  }

  // ---------- The code ----------

  class Limiter {
    const free: nat
    var seen: Seen
    var swept: Time

    ghost function Value(): Table
      reads this
    {
      Table(seen, swept)
    }

    constructor (free: nat)
      ensures this.free == free && Value() == Table(map[], ZERO_TIME)
    {
      this.free := free;
      seen, swept := map[], ZERO_TIME;
    }

    method RetryAfter(keys: seq<string>, now: Time) returns (longest: Duration)
      modifies this
      ensures Value() == Sweep(old(Value()), now)
      ensures longest == Longest(seen, keys, now)
    {
      SweepIdle(now);
      longest := 0;
      for i := 0 to |keys|
        invariant longest == Longest(seen, keys[..i], now)
      {
        assert keys[..i + 1][..i] == keys[..i];
        var key := keys[i];
        if key !in seen {
          continue;
        }
        var wait := Sub(seen[key].until, now);
        if wait > longest {
          longest := wait;
        }
      }
      assert keys[..|keys|] == keys;
    }

    method Fail(keys: seq<string>, now: Time)
      modifies this
      ensures var before := Sweep(old(Value()), now);
              Value() == before.(seen := FailedAll(before.seen, free, keys, now))
    {
      hide Wrap, Pow2, Shifted, WithoutIdle, Min, Max;
      SweepIdle(now);
      ghost var before := seen;
      for i := 0 to |keys|
        invariant seen == FailedAll(before, free, keys[..i], now) && swept == Sweep(old(Value()), now).swept
      {
        assert keys[..i + 1][..i] == keys[..i];
        var key := keys[i];
        if key !in seen {
          seen := seen[key := Attempts(0, ZERO_TIME, ZERO_TIME)];
        }
        var a := seen[key];
        a := a.(failures := a.failures + 1, touched := now);
        if a.failures > free {
          a := a.(until := now + Min(Shifted(a.failures - free - 1), BACKOFF_CEILING));
        }
        seen := seen[key := a];
      }
      assert keys[..|keys|] == keys;
    }

    method Succeed(keys: seq<string>)
      modifies this
      ensures Value() == old(Value()).(seen := Without(old(seen), keys))
    {
      for i := 0 to |keys|
        invariant seen == Without(old(seen), keys[..i]) && swept == old(swept)
      {
        assert keys[..i + 1] == keys[..i] + [keys[i]];
        seen := seen - {keys[i]};
      }
      assert keys[..|keys|] == keys;
    }

    method SweepIdle(now: Time)
      modifies this
      ensures Value() == Sweep(old(Value()), now)
    {
      if Sub(now, swept) < ATTEMPT_TTL {
        return;
      }
      swept := now;
      var rest := seen.Keys;
      while rest != {}
        invariant rest <= old(seen).Keys && swept == now
        invariant seen == map key | key in old(seen) && (key in rest || !Idle(old(seen)[key], now)) :: old(seen)[key]
      {
        var key :| key in rest;
        if Sub(now, seen[key].touched) > ATTEMPT_TTL {
          seen := seen - {key};
        }
        rest := rest - {key};
      }
    }
  }

  // ---------- The arithmetic of the shift ----------

  lemma {:induction false} Pow2Sum(a: nat, b: nat)
    ensures Pow2(a + b) == Pow2(a) * Pow2(b)
  {
    if b > 0 {
      Pow2Sum(a, b - 1);
    }
  }

  lemma {:induction false} Pow2Climbs(a: nat, b: nat)
    requires a <= b
    ensures Pow2(a) <= Pow2(b)
  {
    if a < b {
      Pow2Climbs(a, b - 1);
    }
  }

  lemma Pow2Values()
    ensures Pow2(9) == 512 && Pow2(10) == 1024 && Pow2(33) == 0x2_0000_0000 && Pow2(34) == 0x4_0000_0000
    ensures Pow2(43) == 0x800_0000_0000 && Pow2(63) == 0x8000_0000_0000_0000
  {
    assert Pow2(8) == 256;
    Pow2Sum(9, 1);
    Pow2Sum(10, 10);
    Pow2Sum(20, 10);
    assert Pow2(3) == 8;
    Pow2Sum(30, 3);
    Pow2Sum(33, 1);
    Pow2Sum(33, 10);
    Pow2Sum(43, 20);
  }

  /** What the backoff is meant to be. */
  function Doubling(k: nat): Duration {
    Min(BACKOFF_BASE * Pow2(k), BACKOFF_CEILING)
  }

  /** Up to k == 33 the shift loses nothing. */
  lemma ShiftIsExact(k: nat)
    requires k <= 33
    ensures Shifted(k) == BACKOFF_BASE * Pow2(k) && Backoff(k) == Doubling(k)
  {
    Pow2Climbs(k, 33);
    Pow2Values();
  }

  /** The waits do not get shorter, and from k == 10 on they are at the ceiling. */
  lemma WaitsClimbToTheCeiling(j: nat, k: nat)
    requires j <= k <= 33
    ensures 0 < Backoff(j) <= Backoff(k)
    ensures k >= 10 <==> Backoff(k) == 900_000_000_000
  {
    ShiftIsExact(j);
    ShiftIsExact(k);
    Pow2Climbs(j, k);
    Pow2Values();
    if k >= 10 {
      Pow2Climbs(10, k);
    } else {
      Pow2Climbs(k, 9);
    }
  }

  /** The odd part of the base: BACKOFF_BASE == ODD_PART * Pow2(9). */
  const ODD_PART := 1_953_125

  function Bit(x: nat, j: nat): nat {
    x / Pow2(j) % 2
  }

  /** The shift is what it is meant to be, capped, as long as the sign bit comes out clear. */
  predicate SignStaysClear(k: nat) {
    k <= 33 || (k <= 54 && Bit(ODD_PART, 54 - k) == 0)
  }

  lemma WrapOf(h: nat, r: nat)
    requires r < 0x1_0000_0000_0000_0000
    ensures Wrap(h * 0x1_0000_0000_0000_0000 + r) ==
            if r < 0x8000_0000_0000_0000 then r else r - 0x1_0000_0000_0000_0000
  {
  }

  lemma Divide(x: nat, q: nat) returns (d: nat, lo: nat)
    requires q > 0
    ensures x == d * q + lo && lo < q && d == x / q
  {
    d, lo := x / q, x % q;
  }

  lemma Product(a: int, b: int, c: int)
    ensures (a * b) * c == a * (b * c) && (a + b) * c == a * c + b * c && a * b == b * a
  {
  }

  lemma Scaled(lo: nat, q: nat, p: nat)
    requires lo < q && p > 0
    ensures lo * p < q * p && (lo > 0 ==> lo * p >= p)
  {
  }

  /** From k == 34 to 54 the sign bit of the shifted word is bit 54 - k of the odd part. */
  lemma ShiftLosesBits(k: nat)
    requires 34 <= k <= 54
    ensures Bit(ODD_PART, 54 - k) == 0 ==> Shifted(k) >= Pow2(43)
    ensures Bit(ODD_PART, 54 - k) == 1 ==> Shifted(k) < 0
  {
    hide Pow2, Wrap;
    Pow2Values();
    var j := 54 - k;
    var q, p := Pow2(j), Pow2(k + 9);
    var d, lo := Divide(ODD_PART, q);
    var b, h := d % 2, d / 2;
    Pow2Sum(j, k + 9);
    Pow2Sum(9, k);
    Pow2Climbs(43, k + 9);
    Scaled(lo, q, p);
    Product(ODD_PART, 512, Pow2(k));
    assert BACKOFF_BASE * Pow2(k) == ODD_PART * p;
    Product(d * q, lo, p);
    Product(d, q, p);
    assert ODD_PART * p == d * 0x8000_0000_0000_0000 + lo * p;
    WrapOf(h, b * 0x8000_0000_0000_0000 + lo * p);
    OddPartIsOdd(j, d, lo, q);
  }

  /** An odd number has a bit left below any bit that is 0. */
  lemma OddPartIsOdd(j: nat, d: nat, lo: nat, q: nat)
    requires q == Pow2(j) && ODD_PART == d * q + lo && lo < q
    ensures d % 2 == 0 ==> lo > 0
  {
    if d % 2 == 0 && lo == 0 {
      assert ODD_PART == 2 * (d / 2 * q) by {
        Product(2, d / 2, q);
      }
      assert false;
    }
  }

  /** The wait is the doubled one exactly when the sign bit stays clear. */
  lemma BackoffIsDoubling(k: nat)
    ensures Backoff(k) == Doubling(k) <==> SignStaysClear(k)
    ensures !SignStaysClear(k) ==> Backoff(k) <= 0
  {
    hide Pow2, Wrap, Bit;
    Pow2Values();
    if k <= 33 {
      ShiftIsExact(k);
    } else {
      Pow2Climbs(34, k);
      if k <= 54 {
        BitIs(ODD_PART, 54 - k);
        ShiftLosesBits(k);
      } else {
        ShiftLosesAll(k);
      }
    }
  }

  lemma BitIs(x: nat, j: nat)
    ensures Bit(x, j) == 0 || Bit(x, j) == 1
  {
  }

  lemma ShiftLosesAll(k: nat)
    requires k >= 55
    ensures Shifted(k) == 0
  {
    hide Pow2, Wrap;
    if k < 64 {
      Pow2Values();
      Pow2Sum(9, k);
      Pow2Sum(63, 1);
      Pow2Sum(64, k + 9 - 64);
      Pow2One();
      var m := Pow2(k + 9 - 64);
      Product(ODD_PART, 512, Pow2(k));
      Product(ODD_PART, m, 0x1_0000_0000_0000_0000);
      WrapOf(ODD_PART * m, 0);
    }
  }

  lemma Pow2One()
    ensures Pow2(1) == 2
  {
  }

  /** The failing input: the 40th failure of a key with 5 free ones is k == 34, and gives no wait at all. */
  lemma FortiethFailureGoesFree()
    ensures Backoff(34) <= 0 < Doubling(34) && Hold(5, 40) <= 0
  {
    hide Shifted;
    Pow2Values();
    Pow2Sum(10, 10);
    assert Bit(ODD_PART, 20) == 1;
    BackoffIsDoubling(34);
  }

  // ---------- What failures come to ----------

  /** The wait after so many failures: none for the free ones, and the backoff of each further one. */
  function Hold(free: nat, count: nat): Duration {
    if count <= free then 0 else Backoff(count - free - 1)
  }

  /** The waits in seconds: 1, 2, 4 and so on up to 512, then 15 minutes, as long as the shift loses nothing. */
  lemma HoldIs(free: nat, k: nat)
    requires k <= 33
    ensures Hold(free, free + 1 + k) ==
            if k < 10 then [1, 2, 4, 8, 16, 32, 64, 128, 256, 512][k] * 1_000_000_000 else 900_000_000_000
    ensures forall count: nat :: count <= free ==> Hold(free, count) == 0
  {
    hide Shifted, Pow2;
    ShiftIsExact(k);
    SmallPowers();
    if k >= 10 {
      WaitsClimbToTheCeiling(k, k);
    }
  }

  lemma SmallPowers()
    ensures Pow2(0) == 1 && Pow2(1) == 2 && Pow2(2) == 4 && Pow2(3) == 8 && Pow2(4) == 16
    ensures Pow2(5) == 32 && Pow2(6) == 64 && Pow2(7) == 128 && Pow2(8) == 256 && Pow2(9) == 512
  {
    assert Pow2(4) == 16;
    Pow2Sum(4, 4);
    assert Pow2(8) == 256;
  }

  /**
   A sweep does nothing within the hour after the last; otherwise it drops the keys that have been left alone for
   more than an hour, and no other.
   */
  lemma SweepIs(t: Table, now: Time, key: string)
    ensures var out := Sweep(t, now);
            if now - t.swept < 3_600_000_000_000 then out == t
            else
              && out.swept == now
              && (key in out.seen <==> key in t.seen && now - t.seen[key].touched <= 3_600_000_000_000)
              && (key in out.seen ==> out.seen[key] == t.seen[key])
  {
  }

  /** A key that fails at these times, one after the other, from nothing. */
  function FailedAt(free: nat, times: seq<Time>): Attempts {
    if times == [] then Attempts(0, ZERO_TIME, ZERO_TIME)
    else Failed(FailedAt(free, times[..|times| - 1]), free, times[|times| - 1])
  }

  /** Of the failures of a key only their number and the time of the last one matter. */
  lemma {:induction false} FailedAtIs(free: nat, times: seq<Time>)
    requires times != []
    ensures var last := times[|times| - 1];
            FailedAt(free, times) ==
            Attempts(|times|, if |times| > free then last + Hold(free, |times|) else ZERO_TIME, last)
  {
    hide Backoff;
    if |times| > 1 {
      FailedAtIs(free, times[..|times| - 1]);
    }
  }

  lemma HoldIsBounded(free: nat, count: nat)
    ensures Hold(free, count) <= BACKOFF_CEILING
  {
    hide Shifted;
  }

  lemma BackoffFits(k: nat)
    ensures Fits(Backoff(k))
  {
  }

  // ---------- Sweeping does not show ----------

  /** No key is locked for longer than the ceiling from its last failure on. */
  ghost predicate Bounded(seen: Seen, now: Time) {
    forall key :: key in seen ==> seen[key].until <= seen[key].touched + BACKOFF_CEILING && seen[key].touched <= now
  }

  lemma IdleHasNoWait(a: Attempts, now: Time, later: Time)
    requires a.until <= a.touched + BACKOFF_CEILING && Idle(a, now) && now <= later
    ensures Sub(a.until, later) <= 0 && Idle(a, later)
  {
  }

  /** The one table has the keys of the other, but for some that need not wait. */
  ghost predicate LacksOnlyFree(less: Seen, more: Seen, now: Time) {
    && (forall key :: key in less ==> key in more && less[key] == more[key])
    && (forall key :: key in more && key !in less ==> Sub(more[key].until, now) <= 0)
  }

  lemma {:induction false} SameAnswer(less: Seen, more: Seen, keys: seq<string>, now: Time)
    requires LacksOnlyFree(less, more, now)
    ensures Longest(less, keys, now) == Longest(more, keys, now) >= 0
  {
    hide Sub;
    if keys != [] {
      SameAnswer(less, more, keys[..|keys| - 1], now);
    }
  }

  /** Whatever is asked then or later, a sweep does not change the answer. */
  lemma SweepIsSilent(t: Table, keys: seq<string>, now: Time, later: Time)
    requires Bounded(t.seen, now) && now <= later
    ensures Longest(Sweep(t, now).seen, keys, later) == Longest(t.seen, keys, later)
  {
    hide Longest, Idle, Sub;
    forall key | key in t.seen && Idle(t.seen[key], now) ensures Sub(t.seen[key].until, later) <= 0 {
      IdleHasNoWait(t.seen[key], now, later);
    }
    SubOfSame();
    SameAnswer(Sweep(t, now).seen, t.seen, keys, later);
  }

  lemma SubOfSame()
    ensures Sub(0, 0) == 0
  {
  }
}
