/** The token-bucket limiter: tokens accrue with time, and the fraction of a
    token left over is carried to the next update. */
module TokenBucket {
  import opened Arith
  import opened Common

  const NANOSEC := 1000000000

  datatype Limits = Limits(cap: nat, speed: nat, unit: nat)

  /** Time of the last update, the fraction carried in parts of `unit`, tokens. */
  datatype Bucket = Bucket(last: int, acc: nat, cur: nat)

  predicate Ok(l: Limits, b: Bucket) { l.unit > 0 && b.acc < l.unit && b.cur <= l.cap }

  /** What accrues in `dt`, in parts of a token, with what was carried. */
  function Accrued(l: Limits, b: Bucket, dt: nat): nat { b.acc + l.speed * dt }

  function Capped(l: Limits, n: nat): nat { if n >= l.cap then l.cap else n }

  /** An update at a time not before the last one. */
  function Updated(l: Limits, b: Bucket, ts: int): Bucket
    requires l.unit > 0 && ts >= b.last
  {
    if b.cur >= l.cap then b.(last := ts)
    else
      var a := Accrued(l, b, ts - b.last);
      Bucket(ts, a % l.unit, Capped(l, b.cur + Fit(a, l.unit)))
  }

  class TokenBucketLimiter {
    const l: Limits
    var last: int
    var tokenPerTimeUnit: nat
    var timeRemainder: nat
    var timeAccumulated: int
    var current: int

    constructor (l: Limits, now: int)
      requires l.unit > 0
      ensures this.l == l && Valid() && State() == Bucket(now, 0, 0)
    {
      this.l, last := l, now;
      tokenPerTimeUnit, timeRemainder := Fit(l.speed, l.unit), l.speed % l.unit;
      timeAccumulated, current := 0, 0;
    }

    ghost predicate Configured()
      reads this
    {
      l.unit > 0 && tokenPerTimeUnit == Fit(l.speed, l.unit) && timeRemainder == l.speed % l.unit
    }

    ghost predicate Valid()
      reads this
    {
      Configured() && 0 <= timeAccumulated < l.unit && 0 <= current <= l.cap
    }

    ghost function State(): Bucket
      requires Valid()
      reads this
    {
      Bucket(last, timeAccumulated, current)
    }

    predicate IsFull()
      reads this
    {
      current >= l.cap
    }

    /** Whatever the clock does, tokens and carried fraction together grow by the
        speed times the time passed; if it does not step back, the fraction
        stays below one token. */
    method CalcTokensToAdd(passedTime: int) returns (tokens: int)
      requires Configured()
      modifies this`timeAccumulated
      ensures tokens * l.unit + timeAccumulated == old(timeAccumulated) + l.speed * passedTime
      ensures passedTime >= 0 && 0 <= old(timeAccumulated) ==> tokens >= 0 && 0 <= timeAccumulated
      ensures timeAccumulated < l.unit
      ensures passedTime <= 0 && old(timeAccumulated) < l.unit ==>
                && tokens == Fit(l.speed, l.unit) * passedTime
                && timeAccumulated == old(timeAccumulated) + l.speed % l.unit * passedTime
    {
      hide Fit;
      Divided(l.speed, l.unit, passedTime);
      Signs(tokenPerTimeUnit, passedTime);
      Signs(timeRemainder, passedTime);
      tokens := tokenPerTimeUnit * passedTime;
      timeAccumulated := timeAccumulated + timeRemainder * passedTime;
      if timeAccumulated >= l.unit {
        Split(tokens, timeAccumulated, l.unit);
        tokens := tokens + timeAccumulated / l.unit;
        timeAccumulated := timeAccumulated % l.unit;
      }
    }

    method PutTokens(tokens: int)
      modifies this`current
      ensures current == if old(current) + tokens >= l.cap then l.cap else old(current) + tokens
    {
      current := current + tokens;
      if IsFull() {
        current := l.cap;
      }
    }

    /** Brings the bucket to the time `ts`.  If the clock stepped back, the count and
        the fraction shrink, and stay in range exactly if they were large enough. */
    method Update(ts: int) returns (ghost tokens: int)
      requires Configured() && timeAccumulated < l.unit
      modifies this`last, this`timeAccumulated, this`current
      ensures Configured() && timeAccumulated < l.unit && last == ts
      ensures old(Valid()) && ts >= old(last) ==> Valid() && State() == Updated(l, old(State()), ts)
      ensures ts == old(last) || old(IsFull()) ==> current == old(current) && timeAccumulated == old(timeAccumulated)
      ensures ts != old(last) && !old(IsFull()) ==>
                && tokens * l.unit + timeAccumulated == old(timeAccumulated) + l.speed * (ts - old(last))
                && current == if old(current) + tokens >= l.cap then l.cap else old(current) + tokens
      ensures old(Valid()) && ts < old(last) && !old(IsFull()) ==>
                (Valid() <==>
                  && Fit(l.speed, l.unit) * (old(last) - ts) <= old(current)
                  && l.speed % l.unit * (old(last) - ts) <= old(timeAccumulated))
    {
      hide Fit;
      tokens := 0;
      var passedTime := ts - last;
      if passedTime == 0 {
        if Valid() {
          NoTime(l, State());
        }
        return;
      }
      if IsFull() {
        last := ts;
        return;
      }
      var more := CalcTokensToAdd(passedTime);
      if old(Valid()) && passedTime >= 0 {
        ghost var a := Accrued(l, old(State()), passedTime);
        Unique(a, l.unit, more, timeAccumulated);
        Quotient2(a, l.unit, more);
      }
      Negated(Fit(l.speed, l.unit), passedTime);
      Negated(l.speed % l.unit, passedTime);
      PutTokens(more);
      tokens, last := more, ts;
    }

    /** All the tokens asked for, or none. */
    method ConsumeTokens(required: nat) returns (ok: bool)
      modifies this`current
      ensures ok == (required <= old(current))
      ensures current == if ok then old(current) - required else old(current)
    {
      if required <= current {
        current := current - required;
        return true;
      }
      return false;
    }

    method UpdateAndConsumeTokens(ts: int, required: nat) returns (ok: bool)
      requires Configured() && timeAccumulated < l.unit
      modifies this`last, this`timeAccumulated, this`current
      ensures Configured() && timeAccumulated < l.unit && last == ts
      ensures if ok then current >= 0 else current < required
      ensures old(Valid()) && ts >= old(last) ==>
                var b := Updated(l, old(State()), ts);
                && ok == (required <= b.cur)
                && Valid() && State() == b.(cur := if ok then b.cur - required else b.cur)
    {
      hide Fit, Updated;
      var _ := Update(ts);
      ok := ConsumeTokens(required);
    }

    /** The time to wait until `tokens` have accrued, in nanoseconds; with a speed of
        zero the division has no result. */
    method CalWaitTime(tokens: nat) returns (wait: Option<nat>)
      requires Configured()
      ensures wait.None? <==> l.speed == 0
      ensures wait.Some? ==>
                exists units: nat | Least(l, tokens, units) :: wait.value == units * Fit(1_000_000_000, l.unit)
      ensures l.unit == 1_000_000_000 && l.speed > 0 ==> wait.Some? && Least(l, tokens, wait.value)
    {
      hide Fit;
      var ticks := tokens * l.unit;
      if l.speed == 0 {
        return None;
      }
      var t := Fit(ticks, l.speed);
      ticks := ticks % l.speed;
      if ticks != 0 {
        t := t + 1;
      }
      Ceiling(tokens * l.unit, l.speed, t);
      assert Least(l, tokens, t);
      OncePerSecond();
      return Some(t * Fit(NANOSEC, l.unit));
    }
  }

  lemma {:induction false} Divided(speed: nat, unit: nat, dt: int)
    requires unit > 0
    ensures Fit(speed, unit) * dt * unit + speed % unit * dt == speed * dt
  {
    var q, r := speed / unit, speed % unit;
    assert speed == q * unit + r;
    assert q * dt * unit == q * unit * dt;
    assert (q * unit + r) * dt == q * unit * dt + r * dt;
  }

  lemma {:induction false} Split(tokens: int, acc: int, unit: nat)
    requires unit > 0 && acc >= 0
    ensures (tokens + acc / unit) * unit + acc % unit == tokens * unit + acc
    ensures acc / unit >= 0
  {
    assert acc == acc / unit * unit + acc % unit;
    assert (tokens + acc / unit) * unit == tokens * unit + acc / unit * unit;
  }

  lemma Signs(a: nat, b: int)
    ensures (b >= 0 ==> a * b >= 0) && (b <= 0 ==> a * b <= 0)
  {}

  lemma Negated(a: nat, b: int)
    ensures a * -b == -(a * b)
  {}

  lemma NotNegative(a: nat, b: nat)
    ensures a * b >= 0
  {}

  lemma NoTime(l: Limits, b: Bucket)
    requires Ok(l, b)
    ensures Updated(l, b, b.last) == b
  {
    assert l.speed * 0 == 0;
    if b.cur < l.cap {
      Unique(b.acc, l.unit, 0, b.acc);
    }
  }

  lemma Quotient2(a: nat, d: nat, q: nat)
    requires d > 0 && a / d == q
    ensures Fit(a, d) == q
  {}

  // ------------------------------------------------------------ waiting

  /** The least number of units in which `tokens` accrue. */
  ghost predicate Least(l: Limits, tokens: nat, units: nat) {
    l.speed * units >= tokens * l.unit && (units > 0 ==> l.speed * (units - 1) < tokens * l.unit)
  }

  lemma {:induction false} Ceiling(a: nat, speed: nat, t: nat)
    requires speed > 0 && t == Fit(a, speed) + if a % speed != 0 then 1 else 0
    ensures speed * t >= a && (t > 0 ==> speed * (t - 1) < a)
  {
    var q := a / speed;
    assert a == speed * q + a % speed;
    assert speed * (q + 1) == speed * q + speed && speed * (q - 1) == speed * q - speed;
  }

  /** Tokens in the bucket `dt` after the last update. */
  ghost function TokensAfter(l: Limits, b: Bucket, dt: nat): nat
    requires l.unit > 0
  {
    Updated(l, b, b.last + dt).cur
  }

  lemma {:induction false} EnoughAfter(l: Limits, b: Bucket, weight: nat, dt: nat)
    requires Ok(l, b) && b.cur < weight <= l.cap
    ensures TokensAfter(l, b, dt) >= weight <==> b.acc + l.speed * dt >= (weight - b.cur) * l.unit
  {
    hide Fit;
    var a := Accrued(l, b, dt);
    AtLeastParts(a, l.unit, weight - b.cur);
  }

  lemma {:induction false} AtLeastParts(a: nat, d: nat, n: nat)
    requires d > 0
    ensures Fit(a, d) >= n <==> a >= n * d
  {
    var q := a / d;
    assert a == q * d + a % d;
    assert (q - n) * d == q * d - n * d;
    if q >= n {
      assert (q - n) * d >= 0;
    } else {
      AtLeast(n - q, d);
      assert (n - q) * d == n * d - q * d;
    }
  }

  /** Exactly: waiting the computed time for the shortfall is enough if and only
      if the unit is no finer than a nanosecond. */
  lemma {:induction false} WaitSuffices(l: Limits, b: Bucket, weight: nat, units: nat)
    requires Ok(l, b) && l.speed > 0 && b.cur < weight <= l.cap && Least(l, weight - b.cur, units)
    ensures l.unit <= 1_000_000_000 <==> TokensAfter(l, b, units * Fit(1_000_000_000, l.unit)) >= weight
    ensures l.unit <= 1_000_000_000 ==>
              forall dt: nat | dt >= units * Fit(1_000_000_000, l.unit) :: TokensAfter(l, b, dt) >= weight
  {
    hide Fit, TokensAfter;
    var k := Fit(1_000_000_000, l.unit);
    Positive(1_000_000_000, l.unit);
    var short := weight - b.cur;
    AtLeast(short, l.unit);
    forall dt: nat
      ensures TokensAfter(l, b, dt) >= weight <==> b.acc + l.speed * dt >= short * l.unit
    {
      EnoughAfter(l, b, weight, dt);
    }
    if l.unit <= 1_000_000_000 {
      AtLeast(k, units);
      forall dt: nat | dt >= units * k
        ensures TokensAfter(l, b, dt) >= weight
      {
        assert l.speed * dt - l.speed * units == l.speed * (dt - units);
        NotNegative(l.speed, dt - units);
      }
    }
  }

  lemma Positive(a: nat, d: nat)
    requires d > 0
    ensures Fit(a, d) > 0 <==> a >= d
  {
    AtLeastParts(a, d, 1);
  }

  /** With nothing carried, exactly: no shorter wait is enough if and only if a
      unit is shorter than two nanoseconds. */
  lemma {:induction false} WaitIsLeast(l: Limits, b: Bucket, weight: nat, units: nat)
    requires Ok(l, b) && b.acc == 0 && l.speed > 0 && b.cur < weight <= l.cap && Least(l, weight - b.cur, units)
    requires l.unit <= 1_000_000_000
    ensures (forall dt: nat | dt < units * Fit(1_000_000_000, l.unit) :: TokensAfter(l, b, dt) < weight)
              <==> 2 * l.unit > 1_000_000_000
  {
    hide Fit, TokensAfter;
    var k := Fit(1_000_000_000, l.unit);
    Positive(1_000_000_000, l.unit);
    AtLeastParts(1_000_000_000, l.unit, 2);
    var short := weight - b.cur;
    AtLeast(short, l.unit);
    assert units > 0;
    if k == 1 {
      forall dt: nat | dt < units * k
        ensures TokensAfter(l, b, dt) < weight
      {
        EnoughAfter(l, b, weight, dt);
        assert l.speed * (units - 1) - l.speed * dt == l.speed * (units - 1 - dt);
        NotNegative(l.speed, units - 1 - dt);
      }
    } else {
      assert units * k - units == units * (k - 1);
      AtLeast(units, k - 1);
      EnoughAfter(l, b, weight, units);
    }
  }

  lemma OncePerSecond()
    ensures Fit(1_000_000_000, 1_000_000_000) == 1
  {}

  lemma {:induction false} WaitWorks(l: Limits, b: Bucket, weight: nat, units: nat, late: nat)
    requires Ok(l, b) && l.speed > 0 && b.cur < weight <= l.cap && Least(l, weight - b.cur, units)
    ensures var wait := units * Fit(1_000_000_000, l.unit); var cur := Updated(l, b, b.last + (wait + late)).cur;
            && (l.unit <= 1_000_000_000 ==> cur >= weight)
            && (l.unit > 1_000_000_000 && late == 0 ==> cur < weight)
            && (l.unit == 1_000_000_000 && b.acc == 0 ==> forall dt: nat | dt < wait :: TokensAfter(l, b, dt) < weight)
  {
    hide Fit, Updated, Least;
    WaitSuffices(l, b, weight, units);
    var wait := units * Fit(1_000_000_000, l.unit);
    assert TokensAfter(l, b, wait + late) == Updated(l, b, b.last + (wait + late)).cur;
    assert wait + 0 == wait;
    if l.unit == 1_000_000_000 && b.acc == 0 {
      WaitIsLeast(l, b, weight, units);
    }
  }

  /** Waiting for tokens that are short and then asking for them, `late` or on time.
      With a unit of a second, or any finer than that, it always works; with a
      coarser one, on time, it never does.  With a unit of a second and nothing
      carried, no shorter wait does. */
  method WaitThenConsume(b: TokenBucketLimiter, weight: nat, late: nat) returns (wait: Option<nat>, ok: bool)
    requires b.Valid() && b.current < weight <= b.l.cap
    modifies b
    ensures wait.None? <==> b.l.speed == 0
    ensures wait.None? ==> !ok
    ensures wait.Some? && b.l.unit <= 1_000_000_000 ==> ok && b.Valid()
    ensures b.l.unit > 1_000_000_000 && late == 0 ==> !ok
    ensures wait.Some? && b.l.unit == 1_000_000_000 && old(b.timeAccumulated) == 0 ==>
              forall dt: nat | dt < wait.value :: TokensAfter(b.l, old(b.State()), dt) < weight
  {
    hide Fit, Updated, Least, TokensAfter;
    wait := b.CalWaitTime(weight - b.current);
    if wait.None? {
      return wait, false;
    }
    ghost var l, was := b.l, b.State();
    ghost var units: nat :| Least(l, weight - b.current, units) && wait.value == units * Fit(1_000_000_000, l.unit);
    WaitWorks(l, was, weight, units, late);
    ok := b.UpdateAndConsumeTokens(b.last + (wait.value + late), weight);
  }

  // ------------------------------------------------------------ whole runs

  datatype Event = Ticked(ts: int) | Asked(n: nat) | GaveBack(n: nat)

  /** A bucket with the tokens used and given back so far, and what was lost
      because it was full, in parts of a token. */
  datatype Flow = Flow(b: Bucket, used: nat, gave: nat, lost: nat)

  /** The clock does not step back. */
  predicate Fits(f: Flow, ev: Event) { ev.Ticked? ==> ev.ts >= f.b.last }

  function Next(l: Limits, f: Flow, ev: Event): (g: Flow)
    requires Ok(l, f.b) && Fits(f, ev)
    ensures Ok(l, g.b)
  {
    match ev
    case Ticked(ts) =>
      var dt := ts - f.b.last;
      var more := Fit(Accrued(l, f.b, dt), l.unit);
      f.(b := Updated(l, f.b, ts),
         lost := f.lost + if f.b.cur >= l.cap then l.speed * dt else Excess(l, f.b.cur + more) * l.unit)
    case Asked(n) => if n <= f.b.cur then f.(b := f.b.(cur := f.b.cur - n), used := f.used + n) else f
    case GaveBack(n) =>
      f.(b := f.b.(cur := Capped(l, f.b.cur + n)), gave := f.gave + n, lost := f.lost + Excess(l, f.b.cur + n) * l.unit)
  }

  function Excess(l: Limits, n: nat): nat { if n >= l.cap then n - l.cap else 0 }

  function After(l: Limits, f: Flow, evs: seq<Event>): (g: Flow)
    requires Ok(l, f.b) && Runs(l, f, evs)
    ensures Ok(l, g.b)
    decreases |evs|
  {
    if evs == [] then f else After(l, Next(l, f, evs[0]), evs[1..])
  }

  predicate Runs(l: Limits, f: Flow, evs: seq<Event>)
    requires Ok(l, f.b)
    decreases |evs|
  {
    evs == [] || (Fits(f, evs[0]) && Runs(l, Next(l, f, evs[0]), evs[1..]))
  }

  /** Everything that ever was in the bucket, in parts of a token. */
  function Worth(l: Limits, f: Flow): int { (f.b.cur + f.used - f.gave) * l.unit + f.b.acc + f.lost }

  lemma {:induction false} StepConserves(l: Limits, f: Flow, ev: Event)
    requires Ok(l, f.b) && Fits(f, ev)
    ensures var g := Next(l, f, ev);
            Worth(l, g) == Worth(l, f) + l.speed * (g.b.last - f.b.last) && g.lost >= f.lost && g.used >= f.used
  {
    hide Worth, Fit;
    match ev {
      case Ticked(ts) => TickConserves(l, f, ts);
      case Asked(n) => AskConserves(l, f, n);
      case GaveBack(n) => BackConserves(l, f, n);
    }
  }

  lemma {:induction false} AskConserves(l: Limits, f: Flow, n: nat)
    requires Ok(l, f.b)
    ensures Worth(l, Next(l, f, Asked(n))) == Worth(l, f) + l.speed * 0
  {}

  lemma {:induction false} BackConserves(l: Limits, f: Flow, n: nat)
    requires Ok(l, f.b)
    ensures Worth(l, Next(l, f, GaveBack(n))) == Worth(l, f) + l.speed * 0
  {
    BackWorth(f.b.cur + f.used - f.gave, l.unit, Excess(l, f.b.cur + n));
  }

  lemma {:induction false} TickConserves(l: Limits, f: Flow, ts: int)
    requires Ok(l, f.b) && ts >= f.b.last
    ensures Worth(l, Next(l, f, Ticked(ts))) == Worth(l, f) + l.speed * (ts - f.b.last)
  {
    hide Fit;
    if f.b.cur < l.cap {
      var a, base := Accrued(l, f.b, ts - f.b.last), f.b.cur + f.used - f.gave;
      var g := Next(l, f, Ticked(ts));
      var over := Excess(l, f.b.cur + Fit(a, l.unit));
      TickWorth(base, a, l.unit, over);
      assert g.b.cur + g.used - g.gave == base + Fit(a, l.unit) - over;
    }
  }

  lemma {:induction false} TickWorth(base: int, a: nat, unit: nat, over: nat)
    requires unit > 0
    ensures (base + Fit(a, unit) - over) * unit + a % unit + over * unit == base * unit + a
  {
    Parts(a, unit);
    assert (base + Fit(a, unit) - over) * unit == base * unit + Fit(a, unit) * unit - over * unit;
  }

  lemma BackWorth(base: int, unit: nat, over: nat)
    ensures (base - over) * unit + over * unit == base * unit
  {}

  lemma Parts(a: nat, d: nat)
    requires d > 0
    ensures a == Fit(a, d) * d + a % d
  {}

  lemma Scaled(x: int, y: int, z: int, d: nat)
    requires y == x + z
    ensures y * d == x * d + z * d
  {}

  /** Over every run of updates, requests and returns: tokens are neither made
      nor dropped, but by time passing and by overflow. */
  lemma {:induction false} Conserved(l: Limits, f: Flow, evs: seq<Event>)
    requires Ok(l, f.b) && Runs(l, f, evs)
    ensures var g := After(l, f, evs);
            && Worth(l, g) == Worth(l, f) + l.speed * (g.b.last - f.b.last)
            && g.lost >= f.lost && g.used >= f.used && g.b.last >= f.b.last
    decreases |evs|
  {
    hide Worth, Fit, Updated;
    if evs != [] {
      var h := Next(l, f, evs[0]);
      StepConserves(l, f, evs[0]);
      LastGrows(l, f, evs[0]);
      Conserved(l, h, evs[1..]);
      var g := After(l, f, evs);
      assert l.speed * (g.b.last - f.b.last) == l.speed * (g.b.last - h.b.last) + l.speed * (h.b.last - f.b.last);
    }
  }

  lemma LastGrows(l: Limits, f: Flow, ev: Event)
    requires Ok(l, f.b) && Fits(f, ev)
    ensures Next(l, f, ev).b.last >= f.b.last
  {}

  /** However the time is cut into updates: as long as nothing overflows, the
      tokens that appeared are the whole part of what was carried and speed times
      time. */
  lemma {:induction false} NoDrift(l: Limits, f: Flow, evs: seq<Event>)
    requires Ok(l, f.b) && Runs(l, f, evs)
    ensures var g := After(l, f, evs);
            g.lost == f.lost ==>
              (g.b.cur + g.used - g.gave) - (f.b.cur + f.used - f.gave) ==
              (f.b.acc + l.speed * (g.b.last - f.b.last)) / l.unit
  {
    hide Next, Updated, Runs;
    Conserved(l, f, evs);
    var g := After(l, f, evs);
    var x, y := f.b.cur + f.used - f.gave, g.b.cur + g.used - g.gave;
    if g.lost == f.lost {
      var t := f.b.acc + l.speed * (g.b.last - f.b.last);
      NotNegative(l.speed, g.b.last - f.b.last);
      assert t == (y - x) * l.unit + g.b.acc by {
        assert (y - x) * l.unit == y * l.unit - x * l.unit;
      }
      assert (x - y) * l.unit == -((y - x) * l.unit);
      if y < x {
        AtLeast(x - y, l.unit);
      } else {
        Unique(t, l.unit, y - x, g.b.acc);
      }
    }
  }

  predicate NoReturns(evs: seq<Event>) { forall ev | ev in evs :: !ev.GaveBack? }

  lemma {:induction false} GaveSame(l: Limits, f: Flow, evs: seq<Event>)
    requires Ok(l, f.b) && Runs(l, f, evs) && NoReturns(evs)
    ensures After(l, f, evs).gave == f.gave
    decreases |evs|
  {
    hide Updated, Fit;
    if evs != [] {
      GaveSame(l, Next(l, f, evs[0]), evs[1..]);
    }
  }

  /** In any window without returns, what is used is at most a full bucket, the
      whole part of speed times time, and one. */
  lemma {:induction false} UsageBound(l: Limits, f: Flow, evs: seq<Event>)
    requires Ok(l, f.b) && Runs(l, f, evs) && NoReturns(evs)
    ensures var g := After(l, f, evs);
            g.used - f.used <= l.cap + l.speed * (g.b.last - f.b.last) / l.unit + 1
  {
    hide Next, Updated, Runs, After;
    Conserved(l, f, evs);
    GaveSame(l, f, evs);
    var g := After(l, f, evs);
    var t, used := l.speed * (g.b.last - f.b.last), g.used - f.used;
    NotNegative(l.speed, g.b.last - f.b.last);
    var x := f.b.cur - g.b.cur;
    assert (used - x) * l.unit <= f.b.acc + t by {
      Scaled(f.b.cur + f.used - f.gave, g.b.cur + g.used - g.gave, used - x, l.unit);
    }
    var q := t / l.unit;
    assert t == q * l.unit + t % l.unit;
    assert (used - x - q - 1) * l.unit == (used - x) * l.unit - (q + 1) * l.unit;
    assert (q + 1) * l.unit == q * l.unit + l.unit;
    if used - x > q + 1 {
      AtLeast(used - x - q - 1, l.unit);
    }
  }

  /** Exactly when a step loses something. */
  lemma {:induction false} StepLoses(l: Limits, f: Flow, ev: Event)
    requires Ok(l, f.b) && Fits(f, ev)
    ensures Next(l, f, ev).lost > f.lost <==>
              match ev
              case Ticked(ts) =>
                if f.b.cur >= l.cap then l.speed > 0 && ts > f.b.last
                else f.b.acc + l.speed * (ts - f.b.last) >= (l.cap - f.b.cur + 1) * l.unit
              case Asked(_) => false
              case GaveBack(n) => f.b.cur + n > l.cap
  {
    hide Fit;
    match ev {
      case Ticked(ts) =>
        var dt := ts - f.b.last;
        if f.b.cur >= l.cap {
          if l.speed > 0 && dt > 0 {
            AtLeast(l.speed, dt);
          }
          assert l.speed == 0 || dt == 0 ==> l.speed * dt == 0;
        } else {
          var a := Accrued(l, f.b, dt);
          AtLeastParts(a, l.unit, l.cap - f.b.cur + 1);
          Scale(Excess(l, f.b.cur + Fit(a, l.unit)), l.unit);
        }
      case Asked(n) =>
      case GaveBack(n) => Scale(Excess(l, f.b.cur + n), l.unit);
    }
  }

  lemma Scale(x: nat, d: nat)
    requires d > 0
    ensures x * d > 0 <==> x > 0
  {
    if x > 0 {
      AtLeast(x, d);
    }
  }
}
