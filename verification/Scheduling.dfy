/** When a feed is checked next (internal/model/feed.go), with the 64-bit arithmetic of the
    program, and the weekly count it starts from (internal/storage/feed.go). Durations are
    nanoseconds. */
module Scheduling {
  import opened Common

  const TWO_63: int := 0x8000_0000_0000_0000
  const TWO_64: int := 0x1_0000_0000_0000_0000
  const SECOND: int := 1_000_000_000
  const WEEK: int := 604_800 * SECOND

  datatype Scheduler = RoundRobin | EntryFrequency

  datatype Config = Config(
    scheduler: Scheduler, roundRobinMin: int, roundRobinMax: int,
    entryFrequencyMin: int, entryFrequencyMax: int, factor: int)

  /** What the option validators and the checks across options let through
      (internal/config/options.go, internal/config/parser.go). */
  predicate Validated(c: Config) {
    && 0 < c.roundRobinMin <= c.roundRobinMax
    && 0 < c.entryFrequencyMin <= c.entryFrequencyMax
    && 1 <= c.factor < TWO_63
  }

  function Lowest(c: Config): int { if c.scheduler.RoundRobin? then c.roundRobinMin else c.entryFrequencyMin }

  function Highest(c: Config): int { if c.scheduler.RoundRobin? then c.roundRobinMax else c.entryFrequencyMax }

  /** The value of an integer result in 64-bit two's complement. */
  function Wrap(x: int): (r: int)
    ensures -TWO_63 <= r < TWO_63 && (r - x) % TWO_64 == 0
    ensures -TWO_63 <= x < TWO_63 ==> r == x
  {
    var m := (x + TWO_63) % TWO_64;
    assert (m - TWO_63 - x) % TWO_64 == 0 by { ModGap(x + TWO_63, TWO_64); }
    m - TWO_63
  }

  lemma ModGap(x: int, m: int)
    requires m > 0
    ensures (x % m - x) % m == 0
  {
    assert x % m - x == m * (-(x / m));
    MultipleOf(m, -(x / m));
  }

  lemma MultipleOf(m: int, k: int)
    requires m > 0
    ensures (m * k) % m == 0
  {
    var q, r := (m * k) / m, (m * k) % m;
    assert m * (k - q) == r;
    MultiplesAreFarApart(m, k - q);
  }

  lemma MultiplesAreFarApart(m: int, d: int)
    requires m > 0
    ensures d >= 1 ==> m * d >= m
    ensures d <= -1 ==> m * d <= -m
  {
  }

  /** Go's division, which truncates toward zero. */
  function Quotient(a: int, b: int): int
    requires a >= 0 && b != 0
  {
    if b > 0 then a / b else -(a / -b)
  }

  /** weeklyCount*factor as the program computes it. */
  function Product(c: Config, weeklyCount: int): int { Wrap(weeklyCount * c.factor) }

  /** The interval before the refresh delay is looked at; None is a division by zero. */
  function Base(c: Config, weeklyCount: int): Option<int> {
    if c.scheduler.RoundRobin? then Some(c.roundRobinMin)
    else if weeklyCount <= 0 then Some(c.entryFrequencyMax)
    else if Product(c, weeklyCount) == 0 then None
    else Some(Max(c.entryFrequencyMin, Min(c.entryFrequencyMax, Quotient(WEEK, Product(c, weeklyCount)))))
  }

  function Scheduled(c: Config, weeklyCount: int, refreshDelay: int): Option<int> {
    match Base(c, weeklyCount)
    case None => None
    case Some(base) => Some(Min(Highest(c), Max(base, refreshDelay)))
  }

  // ----- The interval in numbers -----

  /** p is what remains of x in a signed 64-bit integer. */
  predicate IsRest(p: int, x: int) {
    -0x8000_0000_0000_0000 <= p < 0x8000_0000_0000_0000 && (p - x) % 0x1_0000_0000_0000_0000 == 0
  }

  /** Of three durations the longest that is at most max, or max. */
  predicate IsLongest(r: int, a: int, b: int, c: int, max: int) {
    if a >= max || b >= max || c >= max then r == max
    else a <= r && b <= r && c <= r && (r == a || r == b || r == c)
  }

  /** Round robin waits its minimum, or longer if the server asks for it. Entry frequency waits
      its maximum without a count, and otherwise the week (604,800 seconds) divided by what
      remains of count times factor; None stands for a division by zero. */
  ghost predicate IsInterval(c: Config, weeklyCount: int, delay: int, r: Option<int>) {
    match c.scheduler
    case RoundRobin => r.Some? && IsLongest(r.value, c.roundRobinMin, delay, delay, c.roundRobinMax)
    case EntryFrequency =>
      if weeklyCount <= 0 then r == Some(c.entryFrequencyMax)
      else exists p :: IsRest(p, weeklyCount * c.factor) && IsShare(c, p, delay, r)
  }

  /** The week divided by p, within the limits. */
  predicate IsShare(c: Config, p: int, delay: int, r: Option<int>) {
    if p == 0 then r == None
    else
      var share := if p > 0 then 604_800_000_000_000 / p else 0;
      r.Some? && IsLongest(r.value, share, c.entryFrequencyMin, delay, c.entryFrequencyMax)
  }

  lemma ScheduledIsInterval(c: Config, weeklyCount: int, delay: int)
    requires Validated(c)
    ensures IsInterval(c, weeklyCount, delay, Scheduled(c, weeklyCount, delay))
  {
    if c.scheduler.EntryFrequency? && weeklyCount > 0 {
      var p := Product(c, weeklyCount);
      ScheduledIsShare(c, weeklyCount, delay, p);
      assert IsRest(p, weeklyCount * c.factor);
    }
  }

  lemma ScheduledIsShare(c: Config, weeklyCount: int, delay: int, p: int)
    requires Validated(c) && c.scheduler.EntryFrequency? && weeklyCount > 0 && p == Product(c, weeklyCount)
    ensures IsShare(c, p, delay, Scheduled(c, weeklyCount, delay))
  {
    if p != 0 {
      ScheduledByQuotient(c, weeklyCount, delay, p);
      QuotientOfWeek(p);
      QuotientIsShare(c, p, Quotient(WEEK, p), delay, Scheduled(c, weeklyCount, delay));
    }
  }

  lemma QuotientOfWeek(p: int)
    requires p != 0
    ensures if p > 0 then Quotient(WEEK, p) == 604_800_000_000_000 / p else Quotient(WEEK, p) <= 0
  {
    if p < 0 {
      assert WEEK / -p >= 0;
    }
  }

  /** q clamped to the limits and the delay. */
  lemma QuotientIsShare(c: Config, p: int, q: int, delay: int, r: Option<int>)
    requires Validated(c) && p != 0 && (if p > 0 then q == 604_800_000_000_000 / p else q <= 0)
    requires r == Some(Min(c.entryFrequencyMax, Max(Max(c.entryFrequencyMin, Min(c.entryFrequencyMax, q)), delay)))
    ensures IsShare(c, p, delay, r)
  {
    ClampIsLongest(q, if p > 0 then q else 0, delay, c);
  }

  lemma ClampIsLongest(q: int, share: int, delay: int, c: Config)
    requires Validated(c) && (share == q || (share == 0 && q <= 0))
    ensures IsLongest(Min(c.entryFrequencyMax, Max(Max(c.entryFrequencyMin, Min(c.entryFrequencyMax, q)), delay)),
                      share, c.entryFrequencyMin, delay, c.entryFrequencyMax)
  {
  }

  class Feed {
    var nextCheckAt: int

    constructor ()
      ensures nextCheckAt == 0
    {
      nextCheckAt := 0;
    }

    /** None stands for the run-time panic of a division by zero. */
    method ScheduleNextCheck(c: Config, weeklyCount: int, refreshDelay: int, now: int) returns (r: Option<int>)
      requires Validated(c)
      modifies `nextCheckAt
      ensures r == Scheduled(c, weeklyCount, refreshDelay)
      ensures IsInterval(c, weeklyCount, refreshDelay, r)
      ensures r.Some? ==> Lowest(c) <= r.value <= Highest(c) && nextCheckAt == now + r.value
      ensures r.None? ==> nextCheckAt == old(nextCheckAt)
    {
      ScheduledIsInterval(c, weeklyCount, refreshDelay);
      var interval := c.roundRobinMin;
      if c.scheduler == EntryFrequency {
        if weeklyCount <= 0 {
          interval := c.entryFrequencyMax;
        } else {
          var product := Wrap(weeklyCount * c.factor);
          if product == 0 {
            return None;
          }
          interval := Quotient(WEEK, product);
          interval := Min(interval, c.entryFrequencyMax);
          interval := Max(interval, c.entryFrequencyMin);
        }
      }
      interval := Max(interval, refreshDelay);
      match c.scheduler {
        case RoundRobin => interval := Min(interval, c.roundRobinMax);
        case EntryFrequency => interval := Min(interval, c.entryFrequencyMax);
      }
      nextCheckAt := now + interval;
      r := Some(interval);
    }
  }

  // ----- Bounds and monotonicity -----

  /** The interval is always within the limits of the active scheduler. The call panics exactly
      when the entry-frequency product is a positive multiple of 2^64. */
  lemma IntervalWithinLimits(c: Config, weeklyCount: int, refreshDelay: int)
    requires Validated(c)
    ensures var r := Scheduled(c, weeklyCount, refreshDelay);
            && (r.None? <==> c.scheduler.EntryFrequency? && weeklyCount > 0 && (weeklyCount * c.factor) % TWO_64 == 0)
            && (r.Some? ==> Lowest(c) <= r.value <= Highest(c))
  {
    WrapIsZero(weeklyCount * c.factor);
  }

  lemma WrapIsZero(x: int)
    ensures Wrap(x) == 0 <==> x % TWO_64 == 0
  {
    var m := (x + TWO_63) % TWO_64;
    assert x % TWO_64 == if m >= TWO_63 then m - TWO_63 else m + TWO_63;
  }

  /** A server can only delay the next check by asking for it, never bring it forward. */
  lemma LaterWithLongerDelay(c: Config, weeklyCount: int, short: int, long: int)
    requires Validated(c) && short <= long
    ensures var a, b := Scheduled(c, weeklyCount, short), Scheduled(c, weeklyCount, long);
            a.Some? == b.Some? && (a.Some? ==> a.value <= b.value)
  {
  }

  lemma ProductsGrow(a: int, b: int, f: int)
    requires 0 < a <= b && f >= 1
    ensures 0 < a * f <= b * f
  {
  }

  lemma QuotientsShrink(n: int, a: int, b: int)
    requires n >= 0 && 0 < a <= b
    ensures n / b <= n / a
  {
    var q := n / b;
    QuotientTimes(n, b);
    LargerFactor(q, a, b);
    LargestQuotient(n, a, q);
  }

  lemma QuotientTimes(n: int, b: int)
    requires n >= 0 && b > 0
    ensures 0 <= n / b && n / b * b <= n < (n / b + 1) * b
  {
  }

  lemma LargerFactor(q: int, a: int, b: int)
    requires q >= 0 && a <= b
    ensures q * a <= q * b
  {
  }

  lemma LargestQuotient(n: int, a: int, q: int)
    requires n >= 0 && a > 0 && q * a <= n
    ensures q <= n / a
  {
    QuotientTimes(n, a);
    OrderCancels(q, n / a + 1, a);
  }

  lemma OrderCancels(x: int, y: int, a: int)
    requires a > 0 && x * a < y * a
    ensures x < y
  {
    MultiplesAreFarApart(a, y - x);
    assert a * (y - x) == y * a - x * a;
  }

  /** Busier feeds are checked at least as often: the interval does not grow with a positive
      weekly count as long as the product with the factor fits 64 bits; a feed without a count
      waits longest. */
  lemma NotLaterWithMoreEntries(c: Config, few: int, many: int, refreshDelay: int)
    requires Validated(c) && few <= many
    requires many > 0 ==> many * c.factor < TWO_63
    ensures var a, b := Scheduled(c, few, refreshDelay), Scheduled(c, many, refreshDelay);
            a.Some? && b.Some? && b.value <= a.value
  {
    if c.scheduler.EntryFrequency? && few > 0 {
      ProductsGrow(few, many, c.factor);
      QuotientsShrink(WEEK, few * c.factor, many * c.factor);
    } else if c.scheduler.EntryFrequency? && many > 0 {
      ProductsGrow(many, many, c.factor);
    }
  }

  /** No smaller positive count gets a shorter interval, and the call does not panic. */
  ghost predicate BusiestUpTo(c: Config, many: int, delay: int) {
    && Scheduled(c, many, delay).Some?
    && forall few :: 0 < few <= many && Scheduled(c, few, delay).Some? ==>
         Scheduled(c, many, delay).value <= Scheduled(c, few, delay).value
  }

  /** The shortest interval there is for a refresh delay. */
  function Shortest(c: Config, delay: int): int { Min(c.entryFrequencyMax, Max(c.entryFrequencyMin, delay)) }

  /** A positive count above the week's nanoseconds per factor that does not overflow. */
  lemma CountAboveTheWeek(factor: int) returns (few: int)
    requires 1 <= factor < TWO_63
    ensures 0 < few && WEEK < few * factor < TWO_63 && few * factor <= WEEK + factor
  {
    if factor > WEEK {
      few := 1;
    } else {
      few := WEEK / factor + 1;
      assert few * factor == WEEK / factor * factor + factor;
    }
  }

  lemma BusyIsShortest(c: Config, few: int, delay: int)
    requires Validated(c) && c.scheduler.EntryFrequency? && few > 0 && WEEK < few * c.factor < TWO_63
    ensures Scheduled(c, few, delay) == Some(Shortest(c, delay))
  {
    SmallQuotient(WEEK, few * c.factor);
    ScheduledByQuotient(c, few, delay, few * c.factor);
    ClampedToShortest(c, 0, delay);
  }

  lemma SmallQuotient(n: int, p: int)
    requires 0 <= n < p
    ensures n / p == 0
  {
  }

  /** The interval in terms of the quotient. */
  lemma ScheduledByQuotient(c: Config, w: int, delay: int, p: int)
    requires c.scheduler.EntryFrequency? && w > 0 && Wrap(w * c.factor) == p != 0
    ensures Scheduled(c, w, delay) ==
            Some(Min(c.entryFrequencyMax, Max(Max(c.entryFrequencyMin, Min(c.entryFrequencyMax, Quotient(WEEK, p))), delay)))
  {
  }

  /** Exactly when busier means no later, for any refresh delay: the product fits 64 bits, or it
      wraps around to a negative number, or to a positive one with which the week divides into
      no more than the minimum or the delay (or the delay is above every interval). */
  lemma BusierIsNotLaterExactlyWhen(c: Config, many: int, delay: int)
    requires Validated(c) && c.scheduler.EntryFrequency? && many > 0
    ensures BusiestUpTo(c, many, delay) <==>
              var p, floor := Product(c, many), Max(c.entryFrequencyMin, delay);
              || many * c.factor < TWO_63
              || p < 0
              || (p > 0 && (WEEK < (floor + 1) * p || floor >= c.entryFrequencyMax))
  {
    if many * c.factor < TWO_63 {
      ProductsGrow(many, many, c.factor);
      forall few | 0 < few <= many && Scheduled(c, few, delay).Some?
        ensures Scheduled(c, many, delay).Some? && Scheduled(c, many, delay).value <= Scheduled(c, few, delay).value
      {
        NotLaterWithMoreEntries(c, few, many, delay);
      }
      NotLaterWithMoreEntries(c, many, many, delay);
    } else {
      var few := CountAboveTheWeek(c.factor);
      BusyIsShortest(c, few, delay);
      SmallerProductSmallerCount(few, many, c.factor);
      ShortestInterval(c, many, delay);
    }
  }

  lemma SmallerProductSmallerCount(few: int, many: int, f: int)
    requires f >= 1 && few * f < many * f
    ensures few < many
  {
    OrderCancels(few, many, f);
  }

  lemma ShortestInterval(c: Config, w: int, delay: int)
    requires Validated(c) && c.scheduler.EntryFrequency? && w > 0
    ensures forall v: int :: Scheduled(c, v, delay).Some? ==> Scheduled(c, v, delay).value >= Shortest(c, delay)
    ensures Scheduled(c, w, delay) == Some(Shortest(c, delay)) <==>
              var p, floor := Product(c, w), Max(c.entryFrequencyMin, delay);
              p < 0 || (p > 0 && (WEEK < (floor + 1) * p || floor >= c.entryFrequencyMax))
  {
    var p := Product(c, w);
    if p != 0 {
      ClampedToShortest(c, Quotient(WEEK, p), delay);
      QuotientAtMostFloor(p, Max(c.entryFrequencyMin, delay));
    }
  }

  /** The interval that the code makes of a quotient. */
  lemma ClampedToShortest(c: Config, q: int, delay: int)
    requires Validated(c)
    ensures Min(c.entryFrequencyMax, Max(Max(c.entryFrequencyMin, Min(c.entryFrequencyMax, q)), delay)) == Shortest(c, delay) <==>
              q <= Max(c.entryFrequencyMin, delay) || Max(c.entryFrequencyMin, delay) >= c.entryFrequencyMax
  {
  }

  lemma QuotientAtMostFloor(p: int, floor: int)
    requires p != 0 && floor > 0
    ensures Quotient(WEEK, p) <= floor <==> p < 0 || WEEK < (floor + 1) * p
  {
    if p < 0 {
      assert WEEK / -p >= 0;
    } else {
      QuotientAtMost(WEEK, p, floor);
    }
  }

  lemma QuotientAtMost(n: int, a: int, q: int)
    requires n >= 0 && a > 0
    ensures n / a <= q <==> n < (q + 1) * a
  {
    QuotientTimes(n, a);
    if (q + 1) * a <= n {
      LargestQuotient(n, a, q + 1);
    } else {
      OrderCancels(n / a, q + 1, a);
    }
  }

  /** A case in point: with the largest factors that the validators accept, four entries a week
      wrap around to a small number and give the longest interval, where one entry gives the
      shortest. */
  lemma OverflowBreaksMonotonicity()
    ensures exists c: Config, delay ::
              && Validated(c) && c.scheduler.EntryFrequency? && 4 * c.factor == TWO_64 + 4
              && Scheduled(c, 1, delay) == Some(c.entryFrequencyMin)
              && Scheduled(c, 4, delay) == Some(c.entryFrequencyMax) && c.entryFrequencyMin < c.entryFrequencyMax
  {
    var factor := 0x4000_0000_0000_0001;
    var c := Config(EntryFrequency, 3600 * SECOND, 86400 * SECOND, 300 * SECOND, 86400 * SECOND, factor);
    assert 4 * factor == TWO_64 + 4;
    assert Wrap(4 * factor) == 4 && Wrap(1 * factor) == factor;
    assert Quotient(WEEK, 4) == WEEK / 4 && Quotient(WEEK, factor) == 0;
    assert Scheduled(c, 1, 0) == Some(c.entryFrequencyMin);
    assert Scheduled(c, 4, 0) == Some(c.entryFrequencyMax);
  }

  // ----- The weekly count -----

  /** (max(published_at) - min(published_at)) / (count(*) - 1) in seconds; NULL for fewer than two
      entries or entries of the same moment. */
  function AverageGap(count: nat, span: real): Option<real>
    requires span >= 0.0
  {
    if count <= 1 || span == 0.0 then None else Some(span / (count - 1) as real)
  }

  function Ceil(x: real): int { -((-x).Floor) }

  /** COALESCE(CEIL(week / gap), 0) */
  function WeeklyCount(gap: Option<real>): int
    requires gap.Some? ==> gap.value > 0.0
  {
    match gap case None => 0 case Some(g) => Ceil(604800.0 / g)
  }

  /** The virtual count is zero exactly without a gap, and never below the gaps of the week. */
  lemma WeeklyCountCoversTheWeek(count: nat, span: real)
    requires span >= 0.0
    ensures var gap := AverageGap(count, span);
            && (gap.Some? ==> gap.value > 0.0)
            && (WeeklyCount(gap) == 0 <==> count <= 1 || span == 0.0)
            && WeeklyCount(gap) >= 0
            && (0.0 < span <= 604800.0 && count > 1 ==> WeeklyCount(gap) >= count - 1)
  {
    if count > 1 && span > 0.0 {
      var n := (count - 1) as real;
      var g := span / n;
      PositiveQuotient(span, n);
      PositiveQuotient(604800.0, g);
      CeilAbove(604800.0 / g);
      if span <= 604800.0 {
        WeekHoldsTheGaps(span, n, g);
        assert WeeklyCount(Some(g)) as real >= n;
      }
    }
  }

  /** With n entries over a span the count is the least integer not below the number of average
      gaps, span / (n - 1), in a week. */
  lemma WeeklyCountIsLeast(count: nat, span: real)
    requires count > 1 && span > 0.0
    ensures var w := WeeklyCount(AverageGap(count, span));
            (w - 1) as real * span < 604800.0 * (count - 1) as real <= w as real * span
  {
    var n := (count - 1) as real;
    var g := span / n;
    PositiveQuotient(span, n);
    PositiveQuotient(604800.0, g);
    CeilAbove(604800.0 / g);
    var w := Ceil(604800.0 / g);
    ScaledByGaps(w as real, 604800.0 / g, g, n, span);
    ScaledByGaps((w - 1) as real, 604800.0 / g, g, n, span);
  }

  lemma ScaledByGaps(w: real, q: real, g: real, n: real, span: real)
    requires g > 0.0 && n > 0.0 && g * n == span && q * g == 604800.0
    ensures w < q ==> w * span < 604800.0 * n
    ensures w >= q ==> w * span >= 604800.0 * n
  {
    SignOfProduct(q - w, g);
    assert (q - w) * g == 604800.0 - w * g;
    SignOfProduct(604800.0 - w * g, n);
    assert (604800.0 - w * g) * n == 604800.0 * n - w * (g * n);
  }

  lemma PositiveQuotient(a: real, b: real)
    requires a > 0.0 && b > 0.0
    ensures a / b > 0.0
  {
    var q := a / b;
    assert q * b == a;
    SignOfProduct(q, b);
  }

  lemma SignOfProduct(x: real, y: real)
    requires y > 0.0
    ensures x * y > 0.0 <==> x > 0.0
  {
  }

  lemma CeilAbove(x: real)
    ensures x <= Ceil(x) as real < x + 1.0
  {
  }

  lemma WeekHoldsTheGaps(span: real, n: real, g: real)
    requires 0.0 < span <= 604800.0 && n > 0.0 && g == span / n && g > 0.0
    ensures 604800.0 / g >= n
  {
    assert g * n == span;
    var q := 604800.0 / g;
    assert q * g == 604800.0;
    SignOfProduct(n - q, g);
    assert (n - q) * g == n * g - q * g;
  }

  /** Without overflow the unclamped interval times the factor stays within the average gap that
      the weekly count was the ceiling for: a feed is polled factor times per gap or more. */
  lemma IntervalFitsTheGap(c: Config, gap: real)
    requires Validated(c) && gap > 0.0
    ensures var w := WeeklyCount(Some(gap));
            w > 0 && (w * c.factor < TWO_63 ==>
                        Product(c, w) > 0 && (Quotient(WEEK, Product(c, w)) * c.factor) as real <= gap * SECOND as real)
  {
    var w := WeeklyCount(Some(gap));
    WeeklyCountIsCeiling(gap);
    if w * c.factor >= TWO_63 { return; }
    ProductsGrow(w, w, c.factor);
    ScaledInterval(w, c.factor);
    GapBound(WEEK / (w * c.factor) * c.factor, w, gap);
  }

  lemma WeeklyCountIsCeiling(gap: real)
    requires gap > 0.0
    ensures WeeklyCount(Some(gap)) > 0
    ensures 604800.0 / gap <= WeeklyCount(Some(gap)) as real
  {
    PositiveQuotient(604800.0, gap);
    CeilAbove(604800.0 / gap);
  }

  lemma ScaledInterval(w: int, f: int)
    requires w > 0 && f > 0 && w * f > 0
    ensures 0 <= WEEK / (w * f) * f && WEEK / (w * f) * f * w <= WEEK
  {
    TruncatedProduct(WEEK, w, f);
  }

  lemma TruncatedProduct(n: int, w: int, f: int)
    requires n >= 0 && w > 0 && f > 0 && w * f > 0
    ensures n / (w * f) * f * w <= n
  {
    var q := n / (w * f);
    assert q * (w * f) <= n;
    assert q * f * w == q * (w * f);
  }

  lemma GapBound(x: int, w: int, gap: real)
    requires x * w <= WEEK && w > 0 && gap > 0.0 && x >= 0
    requires 604800.0 / gap <= w as real
    ensures x as real <= gap * SECOND as real
  {
    var q := 604800.0 / gap;
    assert q * gap == 604800.0;
    RealProduct(x, w);
    assert x as real * w as real <= 604800.0 * SECOND as real;
    ScaleBound(x as real, w as real, q, gap, SECOND as real);
  }

  lemma RealProduct(x: int, w: int)
    ensures x as real * w as real == (x * w) as real
  {
  }

  lemma ScaleBound(x: real, w: real, q: real, gap: real, second: real)
    requires x >= 0.0 && w > 0.0 && q > 0.0 && gap > 0.0 && q <= w && q * gap == 604800.0
    requires x * w <= 604800.0 * second
    ensures x <= gap * second
  {
    assert x * q <= x * w;
    assert x * q <= q * (gap * second) by {
      assert q * (gap * second) == (q * gap) * second;
    }
    SignOfProduct(x - gap * second, q);
    assert (x - gap * second) * q == x * q - q * (gap * second);
  }
}
