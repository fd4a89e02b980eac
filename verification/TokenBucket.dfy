/** The token bucket rate limiter, in exact real arithmetic. */
module TokenBucket {
  import opened Wrappers

  datatype Limits = Limits(capacity: nat, refillPerSec: real)

  predicate Usable(l: Limits) {
    l.capacity > 0 && l.refillPerSec > 0.0
  }

  datatype Level = Level(tokens: real, lastRefill: real)

  predicate Within(l: Limits, b: Level) {
    0.0 <= b.tokens <= l.capacity as real
  }

  function Min(a: real, b: real): real {
    if a <= b then a else b
  }

  function Elapsed(from: real, to: real): (e: real)
    ensures e >= 0.0
  {
    if to >= from then to - from else 0.0
  }

  /** What flows in during a stretch of time. */
  function Inflow(l: Limits, seconds: real): real {
    seconds * l.refillPerSec
  }

  function Refilled(l: Limits, b: Level, now: real): Level {
    Level(Min(b.tokens + Inflow(l, Elapsed(b.lastRefill, now)), l.capacity as real), now)
  }

  /** Either a token is taken, or the answer is how long to wait for one. */
  function Acquired(l: Limits, b: Level, now: real): (Level, Result<(), real>)
    requires Usable(l)
  {
    var r := Refilled(l, b, now);
    if r.tokens >= 1.0 then (r.(tokens := r.tokens - 1.0), Ok(()))
    else (r, Err((1.0 - r.tokens) / l.refillPerSec))
  }

  const NANOS_PER_SEC := 1_000_000_000.0
  const MAX_SECS := 18_446_744_073_709_551_616.0

  /** Whole nanoseconds, rounded to the nearest, halves up, but never a full second. */
  function Nanos(frac: real): int {
    var n := (frac * NANOS_PER_SEC + 0.5).Floor;
    if n < 999_999_999 then n else 999_999_999
  }

  /** The duration that a number of seconds is reported as. */
  function Reported(secs: real): real {
    if secs <= 0.0 then 0.0
    else if secs >= MAX_SECS then MAX_SECS - 1.0
    else secs.Floor as real + Nanos(secs - secs.Floor as real) as real / NANOS_PER_SEC
  }

  /** What the caller is told. */
  function Answered(l: Limits, b: Level, now: real): (Level, Result<(), real>)
    requires Usable(l)
  {
    var (b', r) := Acquired(l, b, now);
    (b', if r.Err? then Err(Reported(r.error)) else r)
  }

  function Grants(l: Limits, b: Level, now: real): nat
    requires Usable(l)
  {
    if Acquired(l, b, now).1.Ok? then 1 else 0
  }

  /** The level after calls at the given times, and how many of them were granted. */
  function After(l: Limits, b: Level, times: seq<real>): Level
    requires Usable(l)
    decreases |times|
  {
    if times == [] then b else Acquired(l, After(l, b, times[..|times| - 1]), times[|times| - 1]).0
  }

  function Granted(l: Limits, b: Level, times: seq<real>): nat
    requires Usable(l)
    decreases |times|
  {
    if times == [] then 0
    else
      var init, t := times[..|times| - 1], times[|times| - 1];
      Granted(l, b, init) + Grants(l, After(l, b, init), t)
  }

  predicate Monotone(from: real, times: seq<real>) {
    && (forall i :: 0 <= i < |times| ==> from <= times[i])
    && forall i, j :: 0 <= i < j < |times| ==> times[i] <= times[j]
  }

  // ---------------------------------------------------------------- the amortised bound

  lemma MulNonNegative(a: real, b: real)
    requires a >= 0.0 && b >= 0.0
    ensures a * b >= 0.0
  {
  }

  lemma MulSum(a: real, b: real, c: real)
    ensures (a + b) * c == a * c + b * c
  {
  }

  lemma InflowSum(l: Limits, a: real, b: real)
    ensures Inflow(l, a + b) == Inflow(l, a) + Inflow(l, b)
  {
    MulSum(a, b, l.refillPerSec);
  }

  lemma InflowNone(l: Limits)
    ensures Inflow(l, 0.0) == 0.0
  {
  }

  lemma AcquiredWithin(l: Limits, b: Level, now: real)
    requires Usable(l) && Within(l, b)
    ensures Within(l, Acquired(l, b, now).0) && Acquired(l, b, now).0.lastRefill == now
    ensures
      Grants(l, b, now) as real + Acquired(l, b, now).0.tokens <= b.tokens + Inflow(l, Elapsed(b.lastRefill, now))
  {
    MulNonNegative(Elapsed(b.lastRefill, now), l.refillPerSec);
  }

  lemma {:induction false} Budget(l: Limits, b: Level, times: seq<real>)
    requires Usable(l) && Within(l, b) && Monotone(b.lastRefill, times)
    ensures Within(l, After(l, b, times))
    ensures After(l, b, times).lastRefill == if times == [] then b.lastRefill else times[|times| - 1]
    ensures
      Granted(l, b, times) as real + After(l, b, times).tokens
      <= b.tokens + Inflow(l, After(l, b, times).lastRefill - b.lastRefill)
    decreases |times|
  {
    if times != [] {
      var init, t := times[..|times| - 1], times[|times| - 1];
      Budget(l, b, init);
      var m := After(l, b, init);
      hide Inflow, Acquired, Grants, Within;
      AcquiredWithin(l, m, t);
      assert m.lastRefill <= t;
      InflowSum(l, m.lastRefill - b.lastRefill, t - m.lastRefill);
    } else {
      InflowNone(l);
    }
  }

  lemma {:induction false} AfterConcat(l: Limits, b: Level, times: seq<real>, more: seq<real>)
    requires Usable(l)
    ensures After(l, b, times + more) == After(l, After(l, b, times), more)
    ensures Granted(l, b, times + more) == Granted(l, b, times) + Granted(l, After(l, b, times), more)
    decreases |more|
  {
    if more == [] {
      assert times + more == times;
    } else {
      var init := more[..|more| - 1];
      assert (times + more)[..|times + more| - 1] == times + init;
      AfterConcat(l, b, times, init);
    }
  }

  lemma WindowBudget(l: Limits, b: Level, times: seq<real>, i: nat, j: nat)
    requires Usable(l) && Within(l, b) && Monotone(b.lastRefill, times) && i < j <= |times|
    ensures Granted(l, b, times[..j]) >= Granted(l, b, times[..i])
    ensures
      (Granted(l, b, times[..j]) - Granted(l, b, times[..i])) as real
      <= l.capacity as real + Inflow(l, times[j - 1] - times[i])
  {
    hide Inflow, Acquired, Grants, After, Granted, Within;
    var before, first, rest := times[..i], [times[i]], times[i + 1..j];
    var m := After(l, b, before);
    Budget(l, b, before);
    assert times[..j] == before + (first + rest);
    AfterConcat(l, b, before, first + rest);
    AfterConcat(l, m, first, rest);
    OneCall(l, m, times[i]);
    var m' := Acquired(l, m, times[i]).0;
    assert Monotone(m'.lastRefill, rest);
    Budget(l, m', rest);
    WithinBounds(l, After(l, m', rest));
    assert After(l, m', rest).lastRefill == times[j - 1];
  }

  /** In any window of any run, no more tokens are granted than the capacity and what is refilled between its first and
      its last call. */
  lemma WindowBound(l: Limits, b: Level, times: seq<real>, i: nat, j: nat)
    requires Usable(l) && Within(l, b) && Monotone(b.lastRefill, times) && i < j <= |times|
    ensures Granted(l, b, times[..j]) >= Granted(l, b, times[..i])
    ensures
      (Granted(l, b, times[..j]) - Granted(l, b, times[..i])) as real
      <= l.capacity as real + (times[j - 1] - times[i]) * l.refillPerSec
  {
    hide Acquired, Grants, After, Granted, Within;
    WindowBudget(l, b, times, i, j);
  }

  lemma WithinBounds(l: Limits, b: Level)
    requires Within(l, b)
    ensures 0.0 <= b.tokens <= l.capacity as real
  {
  }

  /** After a call, what is left and what was granted come out of a full bucket. */
  lemma OneCall(l: Limits, b: Level, t: real)
    requires Usable(l) && Within(l, b)
    ensures After(l, b, [t]) == Acquired(l, b, t).0 && Granted(l, b, [t]) == Grants(l, b, t)
    ensures Within(l, Acquired(l, b, t).0) && Acquired(l, b, t).0.lastRefill == t
    ensures Grants(l, b, t) as real + Acquired(l, b, t).0.tokens <= l.capacity as real
  {
    AcquiredWithin(l, b, t);
    assert [t][..0] == [];
    assert After(l, b, []) == b && Granted(l, b, []) == 0;
  }

  /** Calls at one moment are granted as long as there are tokens, so a full bucket grants its whole capacity. */
  lemma {:induction false} BurstIsGranted(l: Limits, b: Level, n: nat)
    requires Usable(l) && Within(l, b) && n as real <= b.tokens
    ensures Granted(l, b, seq(n, _ => b.lastRefill)) == n
    ensures After(l, b, seq(n, _ => b.lastRefill)) == b.(tokens := b.tokens - n as real)
  {
    if n > 0 {
      BurstIsGranted(l, b, n - 1);
      var times := seq(n, _ => b.lastRefill);
      assert times[..n - 1] == seq(n - 1, _ => b.lastRefill);
      InflowNone(l);
    }
  }

  // ---------------------------------------------------------------- refills

  /** Refilling in steps is refilling at once. */
  lemma RefillSplits(l: Limits, b: Level, t: real, t': real)
    requires Usable(l) && b.lastRefill <= t <= t'
    ensures Refilled(l, Refilled(l, b, t), t') == Refilled(l, b, t')
  {
    InflowSum(l, t - b.lastRefill, t' - t);
    MulNonNegative(t' - t, l.refillPerSec);
    hide Inflow;
  }

  /** A call that is denied is only a refill, so it makes no difference to later calls. */
  lemma DenialsDoNotMatter(l: Limits, b: Level, t: real, t': real)
    requires Usable(l) && b.lastRefill <= t <= t' && Acquired(l, b, t).1.Err?
    ensures Acquired(l, Acquired(l, b, t).0, t') == Acquired(l, b, t')
  {
    RefillSplits(l, b, t, t');
  }

  /** The hint is exact: after a denial, a call succeeds if and only if it waits for as long as the hint says. */
  lemma HintIsExact(l: Limits, b: Level, t: real, t': real)
    requires Usable(l) && Within(l, b) && t <= t' && Acquired(l, b, t).1.Err?
    ensures
      var (b', denied) := Acquired(l, b, t);
      Acquired(l, b', t').1.Ok? <==> t' - t >= denied.error
  {
    var b' := Acquired(l, b, t).0;
    var w := (1.0 - b'.tokens) / l.refillPerSec;
    assert Inflow(l, w) == 1.0 - b'.tokens;
    assert Elapsed(b'.lastRefill, t') == t' - t;
    assert l.capacity as real >= 1.0;
    InflowOrder(l, w, t' - t);
    hide Inflow;
  }

  lemma InflowOrder(l: Limits, a: real, b: real)
    requires Usable(l)
    ensures a <= b <==> Inflow(l, a) <= Inflow(l, b)
  {
    if a <= b {
      MulMonotone(a, b, l.refillPerSec);
    } else {
      MulStrict(b, a, l.refillPerSec);
    }
  }

  lemma MulMonotone(a: real, b: real, c: real)
    requires a <= b && c >= 0.0
    ensures a * c <= b * c
  {
    MulNonNegative(b - a, c);
    MulSum(b - a, a, c);
  }

  lemma MulStrict(a: real, b: real, c: real)
    requires a < b && c > 0.0
    ensures a * c < b * c
  {
    assert (b - a) * c > 0.0;
    MulSum(b - a, a, c);
  }

  /** However often it is tried in between, every call before the hinted time is denied and the first one from then on is
      granted. */
  lemma {:induction false} HintHoldsThroughRetries(l: Limits, b: Level, t: real, times: seq<real>, t': real)
    requires Usable(l) && Within(l, b) && Acquired(l, b, t).1.Err? && Monotone(t, times + [t'])
    requires forall i :: 0 <= i < |times| ==> times[i] - t < Acquired(l, b, t).1.error
    ensures
      var (b', denied) := Acquired(l, b, t);
      && Granted(l, b', times) == 0
      && (Acquired(l, After(l, b', times), t').1.Ok? <==> t' - t >= denied.error)
    decreases |times|
  {
    var (b', denied) := Acquired(l, b, t);
    if times == [] {
      assert (times + [t'])[0] == t';
      HintIsExact(l, b, t, t');
    } else {
      var init, last := times[..|times| - 1], times[|times| - 1];
      assert (times + [t'])[|times| - 1] == last && (times + [t'])[|times|] == t';
      assert Monotone(t, init + [last]) by {
        assert init + [last] == (times + [t'])[..|times|];
      }
      assert Monotone(t, init + [t']) by {
        forall i, j | 0 <= i < j < |init + [t']|
          ensures (init + [t'])[i] <= (init + [t'])[j]
        {
          assert (init + [t'])[i] == (times + [t'])[i];
          assert (init + [t'])[j] == (times + [t'])[if j < |init| then j else |times|];
        }
        assert forall i :: 0 <= i < |init + [t']| ==> (init + [t'])[i] == (times + [t'])[if i < |init| then i else |times|];
      }
      HintHoldsThroughRetries(l, b, t, init, last);
      HintHoldsThroughRetries(l, b, t, init, t');
      AcquiredWithin(l, b, t);
      Budget(l, b', init) by {
        assert Monotone(t, init) by {
          assert init == (times + [t'])[..|init|];
        }
      }
      DenialsDoNotMatter(l, After(l, b', init), last, t');
    }
  }

  // ---------------------------------------------------------------- the hint as reported

  /** The nanoseconds beyond the last whole second. */
  function Beyond(secs: real): real {
    (secs - secs.Floor as real) * NANOS_PER_SEC
  }

  /** Reporting does not shorten a wait: it is a whole number of nanoseconds, or rounded up. */
  predicate NotShortened(secs: real) {
    secs < MAX_SECS
    && var n := Beyond(secs);
       n == n.Floor as real || (n - n.Floor as real >= 0.5 && n.Floor < 999_999_999)
  }

  lemma BeyondRange(secs: real)
    ensures 0.0 <= Beyond(secs) < NANOS_PER_SEC
    ensures secs == secs.Floor as real + Beyond(secs) / NANOS_PER_SEC
  {
  }

  lemma ReportedBounds(secs: real)
    requires secs > 0.0
    ensures Reported(secs) >= secs <==> NotShortened(secs)
    ensures secs < 18_446_744_073_709_551_616.0 ==>
      secs - 1.0 / 1_000_000_000.0 < Reported(secs) <= secs + 0.5 / 1_000_000_000.0
  {
    BeyondRange(secs);
    var n := Beyond(secs);
    var f := n.Floor;
    assert (n + 0.5).Floor == if n - f as real >= 0.5 then f + 1 else f;
  }

  /** Waiting as long as reported is enough if and only if the reporting did not shorten the wait; one nanosecond more is
      always enough, unless the wait does not fit 64 bits of seconds. */
  lemma ReportedHintSufficesExactlyWhen(l: Limits, b: Level, t: real)
    requires Usable(l) && Within(l, b) && Acquired(l, b, t).1.Err?
    ensures
      var (b', told) := Answered(l, b, t);
      var wait := Acquired(l, b, t).1.error;
      && told.Err? && told.error >= 0.0
      && (Acquired(l, b', t + told.error).1.Ok? <==> NotShortened(wait))
      && (wait < 18_446_744_073_709_551_616.0 ==> Acquired(l, b', t + (told.error + 1.0 / 1_000_000_000.0)).1.Ok?)
  {
    var wait := Acquired(l, b, t).1.error;
    var told := Reported(wait);
    assert wait > 0.0 by {
      QuotientPositive(1.0 - Refilled(l, b, t).tokens, l.refillPerSec);
    }
    hide Acquired, Reported, NotShortened;
    assert told >= 0.0 by {
      ReportedIsWait(wait);
    }
    ReportedBounds(wait);
    HintIsExact(l, b, t, t + told);
    HintIsExact(l, b, t, t + (told + 1.0 / NANOS_PER_SEC));
  }

  lemma ReportedIsWait(secs: real)
    ensures Reported(secs) >= 0.0
    ensures secs > 0.0 ==> (Reported(secs) == 0.0 <==> secs < 0.5 / 1_000_000_000.0)
  {
    BeyondRange(secs);
  }

  // ---------------------------------------------------------------- the objects

  class Bucket {
    const limits: Limits
    var tokens: real
    var lastRefill: real

    function Current(): Level
      reads this
    {
      Level(tokens, lastRefill)
    }

    ghost predicate Valid()
      reads this
    {
      Usable(limits) && Within(limits, Current())
    }

    constructor (capacity: nat, refillPerSec: real, now: real)
      requires capacity > 0 && refillPerSec > 0.0
      ensures Valid() && limits == Limits(capacity, refillPerSec) && Current() == Level(capacity as real, now)
    {
      limits := Limits(capacity, refillPerSec);
      tokens := capacity as real;
      lastRefill := now;
    }

    method Refill(now: real)
      requires Valid()
      modifies this
      ensures Valid() && Current() == Refilled(limits, old(Current()), now)
    {
      var elapsed := Elapsed(lastRefill, now);
      lastRefill := now;
      var added := Inflow(limits, elapsed);
      MulNonNegative(elapsed, limits.refillPerSec);
      tokens := Min(tokens + added, limits.capacity as real);
    }

    method TryAcquire(now: real) returns (r: Result<(), real>)
      requires Valid()
      modifies this
      ensures Valid() && (Current(), r) == Answered(limits, old(Current()), now)
    {
      Refill(now);
      if tokens >= 1.0 {
        tokens := tokens - 1.0;
        return Ok(());
      }
      var deficit := 1.0 - tokens;
      return Err(Reported(deficit / limits.refillPerSec));
    }
  }

  lemma QuotientPositive(a: real, b: real)
    requires a > 0.0 && b > 0.0
    ensures a / b > 0.0
  {
    var q := a / b;
    assert q * b == a;
    assert (-q) * b == -(q * b);
    if q <= 0.0 {
      MulNonNegative(-q, b);
    }
  }

  class MultiProviderLimiter {
    var buckets: seq<(string, Bucket)>

    ghost predicate Valid()
      reads this, set i | 0 <= i < |buckets| :: buckets[i].1
    {
      && (forall i :: 0 <= i < |buckets| ==> buckets[i].1.Valid())
      && forall i, j :: 0 <= i < j < |buckets| ==> buckets[i].1 != buckets[j].1
    }

    constructor ()
      ensures Valid() && buckets == []
    {
      buckets := [];
    }

    method Add(name: string, capacity: nat, refillPerSec: real, now: real)
      requires Valid() && capacity > 0 && refillPerSec > 0.0
      modifies this
      ensures Valid()
      ensures |buckets| == |old(buckets)| + 1 && buckets[..|old(buckets)|] == old(buckets)
      ensures var (last, bucket) := buckets[|old(buckets)|];
        last == name && fresh(bucket) && bucket.limits == Limits(capacity, refillPerSec)
        && bucket.Current() == Level(capacity as real, now)
    {
      var bucket := new Bucket(capacity, refillPerSec, now);
      buckets := buckets + [(name, bucket)];
    }

    /** The first bucket of that name decides, and no other changes; an unknown provider is not limited. */
    method TryAcquire(provider: string, now: real) returns (r: Option<Result<(), real>>, ghost at: nat)
      requires Valid()
      modifies set i | 0 <= i < |buckets| :: buckets[i].1
      ensures Valid() && buckets == old(buckets)
      ensures at <= |buckets| && forall i :: 0 <= i < at ==> buckets[i].0 != provider
      ensures at < |buckets| ==> buckets[at].0 == provider
      ensures r.None? <==> at == |buckets|
      ensures r.Some? ==>
        (buckets[at].1.Current(), r.value) == Answered(buckets[at].1.limits, old(buckets[at].1.Current()), now)
      ensures forall i :: 0 <= i < |buckets| && i != at ==> buckets[i].1.Current() == old(buckets[i].1.Current())
    {
      var i := 0;
      at := 0;
      while i < |buckets|
        modifies {}
        invariant i <= |buckets| && at == i
        invariant forall j :: 0 <= j < i ==> buckets[j].0 != provider
      {
        if buckets[i].0 == provider {
          break;
        }
        i := i + 1;
        at := i;
      }
      if i == |buckets| {
        return None, at;
      }
      var answer := buckets[i].1.TryAcquire(now);
      r := Some(answer);
    }
  }
}
