/** Token buckets and the suspension of bufferevents (bufferevent_ratelim.c, bufferevent.c). */
module RateLimit {
  const UINT32_RANGE: int := 0x1_0000_0000
  const INT_MAX: int := 0x7fff_ffff
  const SIZE_RANGE: int := 0x1_0000_0000_0000_0000
  const SSIZE_MAX: int := 0x7fff_ffff_ffff_ffff
  const MAX_SINGLE_DEFAULT: int := 16384

  function Min(a: int, b: int): int { if a < b then a else b }

  function Max(a: int, b: int): int { if a < b then b else a }

  /** What is left of an integer in an unsigned type with `m` values. */
  function Wrap(x: int, m: int): (r: int)
    requires m > 0
    ensures 0 <= r < m && (0 <= x < m ==> r == x)
  {
    x % m
  }

  lemma WrapOnce(x: int, m: int)
    requires m > 0
    ensures -m <= x < 0 ==> Wrap(x, m) == x + m
    ensures m <= x < 2 * m ==> Wrap(x, m) == x - m
  {
    if -m <= x < 0 {
      assert x == (-1) * m + (x + m);
      WrapIs(x, m, -1, x + m);
    } else if m <= x < 2 * m {
      WrapIs(x, m, 1, x - m);
    }
  }

  lemma WrapIs(x: int, m: int, q: int, r: int)
    requires m > 0 && x == q * m + r && 0 <= r < m
    ensures Wrap(x, m) == r
  {
    var k := x / m - q;
    assert x == (x / m) * m + x % m;
    assert k * m == (x / m) * m - q * m;
    assert r - x % m == k * m;
    assert (k > 0 ==> k * m >= m) && (k < 0 ==> k * m <= -m);
  }

  /** The signed value with the same 64 bits. */
  function Signed(x: int): int
    requires 0 <= x < SIZE_RANGE
  {
    if x > SSIZE_MAX then x - SIZE_RANGE else x
  }

  predicate Ssize(x: int) {
    -SSIZE_MAX - 1 <= x <= SSIZE_MAX
  }

  /** One direction of ev_token_bucket_update_, in 64-bit arithmetic. */
  function Refill(max: nat, rate: nat, limit: int, n: nat): int
    requires n > 0
  {
    if Wrap(max - limit, SIZE_RANGE) / n < rate then max
    else Signed(Wrap(limit + Wrap(n * rate, SIZE_RANGE), SIZE_RANGE))
  }

  lemma QuotientBelow(d: nat, n: nat, rate: nat)
    requires n > 0
    ensures d / n < rate <==> d < n * rate
  {
    assert d == d / n * n + d % n;
    if d / n < rate {
      assert (d / n + 1) * n <= rate * n;
    } else {
      assert rate * n <= d / n * n;
    }
  }

  /**
   * A refill adds `rate` for each tick and stops at the maximum, unless the bucket already held more than the maximum
   * and the difference, which then wraps, is more than what is added.
   */
  lemma RefillExact(max: nat, rate: nat, limit: int, n: nat)
    requires 0 < n <= INT_MAX && rate <= SSIZE_MAX && max <= SSIZE_MAX && Ssize(limit)
    ensures Refill(max, rate, limit, n) == Min(max, limit + n * rate) <==>
      limit <= max || SIZE_RANGE + max - limit <= n * rate
  {
    var d := Wrap(max - limit, SIZE_RANGE);
    WrapOnce(max - limit, SIZE_RANGE);
    assert d == if limit <= max then max - limit else SIZE_RANGE + max - limit;
    QuotientBelow(d, n, rate);
    var add := n * rate;
    assert add >= 0;
    if add <= d {
      assert Wrap(add, SIZE_RANGE) == add;
      SumWraps(limit + add);
    }
  }

  lemma SumWraps(x: int)
    requires -SSIZE_MAX - 1 <= x <= SIZE_RANGE + SSIZE_MAX
    ensures Signed(Wrap(x, SIZE_RANGE)) == if Ssize(x) then x else x - SIZE_RANGE
  {
    WrapOnce(x, SIZE_RANGE);
  }

  lemma RefillIsMin(max: nat, rate: nat, limit: int, n: nat)
    requires 0 < n <= INT_MAX && rate <= SSIZE_MAX && max <= SSIZE_MAX && Ssize(limit) && limit <= max
    ensures Refill(max, rate, limit, n) == Min(max, limit + n * rate)
  {
    RefillExact(max, rate, limit, n);
  }

  /** A bucket above its maximum grows on. */
  lemma RefillAboveMaximum()
    ensures Refill(1000, 10, 2000, 1) == 2010
  {
    WrapOnce(1000 - 2000, SIZE_RANGE);
  }

  lemma Products(rate: nat, a: nat, b: nat)
    ensures a * rate >= 0 && b * rate >= 0 && (a + b) * rate == a * rate + b * rate
    ensures rate * (a + b) == rate * a + b * rate
  {
  }

  /** A refill over `a` ticks and one over `b` ticks are the same as one over `a + b` ticks. */
  lemma RefillSplits(max: nat, rate: nat, limit: int, a: nat, b: nat)
    requires 0 < a && 0 < b && a + b <= INT_MAX && rate <= SSIZE_MAX && max <= SSIZE_MAX && Ssize(limit) && limit <= max
    ensures Refill(max, rate, Refill(max, rate, limit, a), b) == Refill(max, rate, limit, a + b)
  {
    hide Refill;
    RefillIsMin(max, rate, limit, a);
    RefillIsMin(max, rate, limit, a + b);
    Products(rate, a, b);
    RefillIsMin(max, rate, Min(max, limit + a * rate), b);
  }

  /** A bucket of one direction: what may still be moved, and the tick of the last refill. */
  datatype Level = Level(limit: int, last: nat)

  /** How many ticks a bucket is refilled for; none when the clock seems to have gone back. */
  function TicksTo(last: nat, tick: nat): (n: nat)
    ensures n <= INT_MAX
  {
    var n := Wrap(tick - last, UINT32_RANGE);
    if n > INT_MAX then 0 else n
  }

  function Advance(l: Level, max: nat, rate: nat, tick: nat): Level {
    var n := TicksTo(l.last, tick);
    if n == 0 then l else Level(Refill(max, rate, l.limit, n), tick)
  }

  lemma TicksAdd(last: nat, t: nat, u: nat)
    requires last < UINT32_RANGE && t < UINT32_RANGE && u < UINT32_RANGE
    requires TicksTo(last, t) > 0 && TicksTo(t, u) > 0 && TicksTo(last, t) + TicksTo(t, u) <= INT_MAX
    ensures TicksTo(last, u) == TicksTo(last, t) + TicksTo(t, u)
  {
    WrapOnce(t - last, UINT32_RANGE);
    WrapOnce(u - t, UINT32_RANGE);
    WrapOnce(u - last, UINT32_RANGE);
  }

  /** How the ticks are split over updates does not matter, also across the wrap of the tick counter. */
  lemma AdvanceSplits(l: Level, max: nat, rate: nat, t: nat, u: nat)
    requires l.last < UINT32_RANGE && t < UINT32_RANGE && u < UINT32_RANGE
    requires rate <= SSIZE_MAX && max <= SSIZE_MAX && Ssize(l.limit) && l.limit <= max
    requires TicksTo(l.last, t) > 0 && TicksTo(t, u) > 0 && TicksTo(l.last, t) + TicksTo(t, u) <= INT_MAX
    ensures Advance(Advance(l, max, rate, t), max, rate, u) == Advance(l, max, rate, u)
  {
    TicksAdd(l.last, t, u);
    RefillSplits(max, rate, l.limit, TicksTo(l.last, t), TicksTo(t, u));
  }

  /** What happens to a bucket: an update in some tick, or bytes that are moved. */
  datatype Event = Tick(now: nat) | Move(bytes: nat)

  function After(l: Level, max: nat, rate: nat, run: seq<Event>): Level {
    if run == [] then l
    else
      var was := After(l, max, rate, run[..|run| - 1]);
      match run[|run| - 1]
      case Tick(now) => Advance(was, max, rate, now)
      case Move(bytes) => was.(limit := was.limit - bytes)
  }

  /** Each transfer is at most what bufferevent_get_rlim_max_ allows at that point. */
  predicate Conforms(l: Level, max: nat, rate: nat, run: seq<Event>) {
    forall i :: 0 <= i < |run| ==>
      match run[i]
      case Tick(now) => now < UINT32_RANGE
      case Move(bytes) => bytes <= Max(0, After(l, max, rate, run[..i]).limit)
  }

  function Moved(run: seq<Event>): nat {
    if run == [] then 0
    else
      Moved(run[..|run| - 1]) +
      match run[|run| - 1]
      case Tick(_) => 0
      case Move(bytes) => bytes
  }

  /** The ticks that the bucket was refilled for. */
  function Elapsed(l: Level, max: nat, rate: nat, run: seq<Event>): nat {
    if run == [] then 0
    else
      var init := run[..|run| - 1];
      Elapsed(l, max, rate, init) +
      match run[|run| - 1]
      case Tick(now) => TicksTo(After(l, max, rate, init).last, now)
      case Move(_) => 0
  }

  /**
   * A run that keeps to the limits moves no more than the first limit and the rate allow, and never more than a burst
   * at once.
   */
  lemma {:induction false} Conformance(l: Level, max: nat, rate: nat, run: seq<Event>)
    requires l.last < UINT32_RANGE && rate <= SSIZE_MAX && max <= SSIZE_MAX && Ssize(l.limit) && l.limit <= max
    requires Conforms(l, max, rate, run)
    ensures var end := After(l, max, rate, run);
      && end.limit <= max && Ssize(end.limit) && end.last < UINT32_RANGE
      && end.limit + Moved(run) <= l.limit + rate * Elapsed(l, max, rate, run)
      && (Moved(run) > 0 ==> end.limit >= 0)
      && (l.limit <= end.limit || end.limit >= 0)
    ensures Moved(run) <= Max(0, l.limit + rate * Elapsed(l, max, rate, run))
  {
    hide Refill, Wrap;
    if run != [] {
      var init, e := run[..|run| - 1], run[|run| - 1];
      assert Conforms(l, max, rate, init) by {
        assert forall i :: 0 <= i < |init| ==> init[..i] == run[..i] && init[i] == run[i];
      }
      Conformance(l, max, rate, init);
      var was := After(l, max, rate, init);
      var k := Elapsed(l, max, rate, init);
      match e
      case Tick(now) =>
        var n := TicksTo(was.last, now);
        Products(rate, k, n);
        if n > 0 { RefillIsMin(max, rate, was.limit, n); }
      case Move(bytes) =>
    }
  }

  /** The ticks that were counted lead from the first to the last update. */
  lemma {:induction false} ElapsedIsClock(l: Level, max: nat, rate: nat, run: seq<Event>)
    requires l.last < UINT32_RANGE && forall i :: 0 <= i < |run| && run[i].Tick? ==> run[i].now < UINT32_RANGE
    ensures After(l, max, rate, run).last == Wrap(l.last + Elapsed(l, max, rate, run), UINT32_RANGE)
  {
    if run != [] {
      var init := run[..|run| - 1];
      ElapsedIsClock(l, max, rate, init);
      var was, k := After(l, max, rate, init), Elapsed(l, max, rate, init);
      if run[|run| - 1].Tick? {
        ClockStep(l.last + k, was.last, run[|run| - 1].now);
      }
    }
  }

  lemma ClockStep(x: nat, last: nat, now: nat)
    requires last == Wrap(x, UINT32_RANGE) && now < UINT32_RANGE
    ensures TicksTo(last, now) > 0 ==> now == Wrap(x + TicksTo(last, now), UINT32_RANGE)
  {
    var n, q := TicksTo(last, now), x / UINT32_RANGE;
    WrapOnce(now - last, UINT32_RANGE);
    assert x == q * UINT32_RANGE + last;
    if n > 0 {
      if last + n < UINT32_RANGE {
        WrapIs(x + n, UINT32_RANGE, q, last + n);
      } else {
        WrapIs(x + n, UINT32_RANGE, q + 1, last + n - UINT32_RANGE);
      }
    }
  }

  /** ev_token_bucket_get_tick_: the tick of a time in milliseconds, in 32 bits. */
  function GetTick(now: nat, msecPerTick: nat): nat
    requires msecPerTick > 0
  {
    Wrap(now / msecPerTick, UINT32_RANGE)
  }

  lemma WrapDifference(a: int, b: int)
    ensures Wrap(Wrap(a, UINT32_RANGE) - Wrap(b, UINT32_RANGE), UINT32_RANGE) == Wrap(a - b, UINT32_RANGE)
  {
    var m, q := UINT32_RANGE, a / UINT32_RANGE - b / UINT32_RANGE;
    var r := Wrap(a, m) - Wrap(b, m);
    assert a - b == q * m + r;
    if r >= 0 {
      WrapIs(a - b, m, q, r);
    } else {
      WrapIs(a - b, m, q - 1, r + m);
      WrapOnce(r, m);
    }
  }

  /**
   * The tick at which a bucket stands, counted without wrapping, for someone who looks at it in tick `u`. It lies
   * behind `u` when the bucket was updated in ticks of another length; until then the bucket is not refilled.
   */
  function Due(last: nat, u: nat): (d: int)
    requires last < UINT32_RANGE
    ensures u - INT_MAX <= d <= u + INT_MAX + 1
  {
    var n := Wrap(u - last, UINT32_RANGE);
    if n <= INT_MAX then u - n else u + UINT32_RANGE - n
  }

  lemma DueIsLast(last: nat, u: nat)
    requires last < UINT32_RANGE
    ensures Wrap(Due(last, u), UINT32_RANGE) == last
  {
    var m := UINT32_RANGE;
    var n, q := Wrap(u - last, m), (u - last) / m;
    assert u - last == q * m + n;
    WrapIs(Due(last, u), m, if n <= INT_MAX then q else q + 1, last);
  }

  /** The limit in tick `u` of a bucket that stands at tick `due`. */
  function Gain(limit: int, max: nat, rate: nat, due: int, u: int): int {
    if u <= due then limit else Min(max, limit + (u - due) * rate)
  }

  lemma AdvanceFrom(l: Level, max: nat, rate: nat, due: int, u: nat)
    requires l.last == Wrap(due, UINT32_RANGE) && -INT_MAX - 1 <= u - due <= INT_MAX
    requires rate <= SSIZE_MAX && max <= SSIZE_MAX && Ssize(l.limit) && l.limit <= max
    ensures Advance(l, max, rate, Wrap(u, UINT32_RANGE)) ==
      Level(Gain(l.limit, max, rate, due, u), if u <= due then l.last else Wrap(u, UINT32_RANGE))
  {
    hide Refill, Wrap;
    WrapDifference(u, due);
    WrapOnce(u - due, UINT32_RANGE);
    if u > due {
      RefillIsMin(max, rate, l.limit, u - due);
    }
  }

  /** The bucket after updates in the ticks `us`. */
  function Waited(l: Level, max: nat, rate: nat, us: seq<nat>): Level {
    if us == [] then l
    else Advance(Waited(l, max, rate, us[..|us| - 1]), max, rate, Wrap(us[|us| - 1], UINT32_RANGE))
  }

  /** The ticks come one after the other, less than 2^31 apart. */
  predicate Following(us: seq<nat>) {
    forall i :: 0 < i < |us| ==> us[i - 1] <= us[i] <= us[i - 1] + INT_MAX
  }

  lemma Gains(limit: int, max: nat, rate: nat, due: int, u: int, v: int)
    requires limit <= max && u <= v
    ensures due <= u < v ==> Gain(Gain(limit, max, rate, due, u), max, rate, u, v) == Gain(limit, max, rate, due, v)
    ensures limit <= Gain(limit, max, rate, due, u) <= Gain(limit, max, rate, due, v) <= max
  {
    if u > due { Products(rate, u - due, v - u); }
    if v > due { Products(rate, v - due, 0); }
  }

  /**
   * Whatever updates come, the limit is what the ticks since the bucket's own tick bring, and nothing as long as that
   * tick is still to come.
   */
  lemma {:induction false} WaitExact(l: Level, max: nat, rate: nat, us: seq<nat>)
    requires l.last < UINT32_RANGE && rate <= SSIZE_MAX && max <= SSIZE_MAX && Ssize(l.limit) && l.limit <= max
    requires us != [] && Following(us)
    ensures var due, u := Due(l.last, us[0]), us[|us| - 1];
      Waited(l, max, rate, us) == Level(Gain(l.limit, max, rate, due, u), Wrap(Max(due, u), UINT32_RANGE)) && us[0] <= u
  {
    hide Refill, Wrap, Gain, Advance;
    var due, n, u := Due(l.last, us[0]), |us| - 1, us[|us| - 1];
    var init := us[..n];
    DueIsLast(l.last, us[0]);
    if init == [] {
      assert Waited(l, max, rate, init) == l;
      AdvanceFrom(l, max, rate, due, u);
    } else {
      assert Following(init) && init[0] == us[0] && us[n - 1] <= u;
      WaitExact(l, max, rate, init);
      var was, t := Waited(l, max, rate, init), us[n - 1];
      Gains(l.limit, max, rate, due, t, u);
      AdvanceFrom(was, max, rate, Max(due, t), u);
      GainOn(l.limit, max, rate, due, t, u);
    }
  }

  lemma GainOn(limit: int, max: nat, rate: nat, due: int, t: int, u: int)
    requires limit <= max && t <= u
    ensures Gain(Gain(limit, max, rate, due, t), max, rate, Max(due, t), u) == Gain(limit, max, rate, due, u)
  {
    Gains(limit, max, rate, due, t, u);
  }

  /** A bucket is refilled at once exactly when it was not updated in a later tick of the clock that counts now. */
  lemma DueBehind(last: nat, u: nat)
    requires last < UINT32_RANGE
    ensures Due(last, u) <= u <==> Wrap(u - last, UINT32_RANGE) <= INT_MAX
    ensures TicksTo(last, Wrap(u, UINT32_RANGE)) == Max(0, u - Due(last, u))
  {
    WrapDifference(u, last);
  }

  /**
   * A bucket that was last updated in tick 1700000000 of one second, and is asked for ticks of ten seconds at the same
   * time, is not refilled for 1530000000 ticks, which is 485 years.
   */
  lemma LongerTicksStall()
    ensures GetTick(1700000000000, 1000) == 1700000000 && 1700000000000 / 10000 == 170000000
    ensures Due(1700000000, 170000000) == 170000000 + 1530000000
  {
    WrapOnce(170000000 - 1700000000, UINT32_RANGE);
  }
}
