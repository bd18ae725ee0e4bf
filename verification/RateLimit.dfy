/**
 ratelimit.go: the token bucket, over real numbers. Clock readings are seconds, in any order.
 */
module RateLimit {

  // latched stands for last being set: Go's zero time marks a bucket never asked.
  datatype Bucket = Bucket(latched: bool, last: real, tokens: real, burst: real, rate: real)

  predicate Valid(b: Bucket) {
    b.burst >= 1.0 && b.rate > 0.0 && 0.0 <= b.tokens <= b.burst
  }

  function Max0(x: real): real { if x > 0.0 then x else 0.0 }

  function MinR(x: real, y: real): real { if x < y then x else y }

  function Refilled(b: Bucket, now: real): real {
    if !b.latched then b.burst else MinR(b.burst, b.tokens + Max0(now - b.last) * b.rate)
  }

  predicate Admits(b: Bucket, now: real) { Refilled(b, now) >= 1.0 }

  function After(b: Bucket, now: real): Bucket {
    b.(latched := true, last := now, tokens := if Admits(b, now) then Refilled(b, now) - 1.0 else Refilled(b, now))
  }

  function Ceil(x: real): int { -((-x).Floor) }

  function Hint(b: Bucket): int
    requires b.rate > 0.0
  {
    var deficit := 1.0 - b.tokens;
    if deficit <= 0.0 then 1
    else
      var secs := Ceil(deficit / b.rate);
      if secs < 1 then 1 else secs
  }

  class TokenBucket {
    var last: real
    var latched: bool
    var tokens: real
    const burst: real
    const refillPerSec: real

    function State(): Bucket
      reads this
    {
      Bucket(latched, last, tokens, burst, refillPerSec)
    }

    // The bucket RateLimiter builds: burst tokens at most, one accrued every interval.
    constructor (burst: int, interval: real)
      requires burst > 0 && interval > 0.0
      ensures Valid(State()) && !latched && this.burst == burst as real && refillPerSec == 1.0 / interval
    {
      this.burst, this.refillPerSec := burst as real, 1.0 / interval;
      latched, last, tokens := false, 0.0, 0.0;
    }

    method AllowLocked(now: real) returns (ok: bool)
      requires Valid(State())
      modifies this
      ensures State() == After(old(State()), now) && ok == Admits(old(State()), now)
    {
      if !latched {
        tokens := burst;
      } else {
        if now < last {
          last := now;
        }
        ghost var elapsed := Max0(now - old(last));
        assert now - last == elapsed;
        tokens := tokens + (now - last) * refillPerSec;
        assert tokens == old(tokens) + elapsed * refillPerSec;
        if tokens > burst {
          tokens := burst;
        }
      }
      assert tokens == Refilled(old(State()), now);
      last, latched := now, true;
      if tokens >= 1.0 {
        tokens := tokens - 1.0;
        return true;
      }
      return false;
    }

    method RetryAfterSecondsLocked() returns (secs: int)
      requires Valid(State())
      ensures secs == Hint(State())
    {
      var deficit := 1.0 - tokens;
      if deficit <= 0.0 {
        return 1;
      }
      secs := Ceil(deficit / refillPerSec);
      if secs < 1 {
        return 1;
      }
    }

    // The decision and the hint are taken from one state.
    method Allow(now: real) returns (ok: bool, retryAfterSecs: int)
      requires Valid(State())
      modifies this
      ensures State() == After(old(State()), now) && Valid(State())
      ensures ok == Admits(old(State()), now)
      ensures retryAfterSecs == if ok then 0 else Hint(After(old(State()), now))
    {
      AfterIsValid(State(), now);
      ok := AllowLocked(now);
      if ok {
        return true, 0;
      }
      retryAfterSecs := RetryAfterSecondsLocked();
    }
  }

  lemma MulNonNegative(x: real, y: real)
    requires x >= 0.0 && y >= 0.0
    ensures x * y >= 0.0
  {}

  lemma AfterIsValid(b: Bucket, now: real)
    requires Valid(b)
    ensures Valid(After(b, now))
  {
    MulNonNegative(Max0(now - b.last), b.rate);
  }

  // ---------- runs ----------

  function RunAfter(b: Bucket, readings: seq<real>): Bucket {
    if readings == [] then b else After(RunAfter(b, readings[..|readings| - 1]), readings[|readings| - 1])
  }

  function Admitted(b: Bucket, readings: seq<real>): nat {
    if readings == [] then 0
    else
      Admitted(b, readings[..|readings| - 1]) +
      if Admits(RunAfter(b, readings[..|readings| - 1]), readings[|readings| - 1]) then 1 else 0
  }

  // How far the clock moved forward, steps back counting as nothing.
  function Forward(readings: seq<real>): real {
    if |readings| <= 1 then 0.0
    else Forward(readings[..|readings| - 1]) + Max0(readings[|readings| - 1] - readings[|readings| - 2])
  }

  // Tokens the cap discarded after the first reading.
  function Spilled(b: Bucket, readings: seq<real>): real {
    if |readings| <= 1 then 0.0
    else
      var before, now := RunAfter(b, readings[..|readings| - 1]), readings[|readings| - 1];
      Spilled(b, readings[..|readings| - 1]) +
      (before.tokens + Max0(now - before.last) * b.rate - Refilled(before, now))
  }

  lemma {:induction false} RunIsValid(b: Bucket, readings: seq<real>)
    requires Valid(b)
    ensures var r := RunAfter(b, readings);
            Valid(r) && r.burst == b.burst && r.rate == b.rate
            && (readings != [] ==> r.latched && r.last == readings[|readings| - 1])
  {
    if readings != [] {
      RunIsValid(b, readings[..|readings| - 1]);
      AfterIsValid(RunAfter(b, readings[..|readings| - 1]), readings[|readings| - 1]);
    }
  }

  lemma RefilledAtMost(b: Bucket, now: real)
    requires Valid(b)
    ensures Refilled(b, now) <= b.burst
    ensures Refilled(b, now) == After(b, now).tokens + (if Admits(b, now) then 1.0 else 0.0)
    ensures b.latched ==> Refilled(b, now) <= b.tokens + Max0(now - b.last) * b.rate
  {}

  // The books balance: what the pool held at the first reading plus what accrued since is what was
  // admitted, what is left and what the cap discarded.
  lemma {:induction false} TokensBalance(b: Bucket, readings: seq<real>)
    requires Valid(b) && readings != []
    ensures Refilled(b, readings[0]) + b.rate * Forward(readings) ==
            Admitted(b, readings) as real + RunAfter(b, readings).tokens + Spilled(b, readings)
    ensures Spilled(b, readings) >= 0.0
  {
    hide Refilled, Max0, Admits, After;
    var before, now := readings[..|readings| - 1], readings[|readings| - 1];
    RunIsValid(b, before);
    var r := RunAfter(b, before);
    RefilledAtMost(r, now);
    if |readings| == 1 {
      assert before == [];
    } else {
      TokensBalance(b, before);
      assert r.last == readings[|readings| - 2];
      BalanceStep(b.rate, Forward(before), Max0(now - r.last));
    }
  }

  lemma BalanceStep(rate: real, f: real, d: real)
    ensures rate * (f + d) == rate * f + d * rate
  {}

  // Over any stretch of calls, with clock readings in any order, no more are admitted than the burst
  // plus what the rate accrues while the clock moves forward inside the stretch.
  lemma RateBound(b: Bucket, before: seq<real>, stretch: seq<real>)
    requires Valid(b) && stretch != []
    ensures Admitted(RunAfter(b, before), stretch) as real <= b.burst + b.rate * Forward(stretch)
  {
    hide Refilled, RunAfter, Admitted, Forward, Spilled;
    RunIsValid(b, before);
    var r := RunAfter(b, before);
    RunIsValid(r, stretch);
    TokensBalance(r, stretch);
    RefilledAtMost(r, stretch[0]);
    assert b.rate * Forward(stretch) == r.rate * Forward(stretch);
    BooksBound(b.burst, Refilled(r, stretch[0]), b.rate * Forward(stretch), Admitted(r, stretch) as real,
               RunAfter(r, stretch).tokens, Spilled(r, stretch));
  }

  lemma BooksBound(burst: real, first: real, accrued: real, admitted: real, left: real, spilled: real)
    requires first <= burst && left >= 0.0 && spilled >= 0.0 && first + accrued == admitted + left + spilled
    ensures admitted <= burst + accrued
  {}

  // ---------- the retry hint ----------

  lemma CeilMeaning(x: real)
    ensures (Ceil(x) - 1) as real < x <= Ceil(x) as real
  {}

  lemma DivMeaning(x: real, rate: real, t: real)
    requires rate > 0.0
    ensures t >= x / rate <==> t * rate >= x
  {
    var q := x / rate;
    assert q * rate == x;
    if t >= q { MulNonNegative(t - q, rate); assert (t - q) * rate == t * rate - q * rate; }
    if t < q { StrictlyLess(t, q, rate); }
  }

  lemma StrictlyLess(t: real, q: real, rate: real)
    requires rate > 0.0 && t < q
    ensures t * rate < q * rate
  {
    var d := q - t;
    assert d * rate > 0.0;
    assert q * rate == t * rate + d * rate;
  }

  // After a deny, with no call in between, a call t seconds later is admitted exactly when the
  // deficit has accrued by then.
  lemma LaterCall(b: Bucket, t: real)
    requires Valid(b) && b.latched && b.tokens < 1.0 && t >= 0.0
    ensures Admits(b, b.last + t) <==> t >= (1.0 - b.tokens) / b.rate
  {
    DivMeaning(1.0 - b.tokens, b.rate, t);
  }

  // The hint is exact: waiting it out is enough, and when it is at least 2, one second less is not.
  // It is never more than the whole seconds one token takes to accrue.
  lemma HintIsExact(b: Bucket, now: real)
    requires Valid(b) && !Admits(b, now)
    ensures var denied := After(b, now); var s := Hint(denied);
            && s >= 1
            && Admits(denied, now + s as real)
            && (s >= 2 ==> !Admits(denied, now + (s - 1) as real))
            && s <= (if Ceil(1.0 / b.rate) < 1 then 1 else Ceil(1.0 / b.rate))
  {
    hide Refilled, Ceil;
    AfterIsValid(b, now);
    var d := After(b, now);
    RefilledBelowOne(b, now);
    var s := Hint(d);
    var wait := (1.0 - d.tokens) / d.rate;
    CeilMeaning(wait);
    LaterCall(d, s as real);
    if s >= 2 { LaterCall(d, (s - 1) as real); }
    DivMeaning(1.0 - d.tokens, d.rate, 1.0 / d.rate);
    assert (1.0 / d.rate) * d.rate == 1.0;
    CeilMonotone(wait, 1.0 / d.rate);
  }

  lemma RefilledBelowOne(b: Bucket, now: real)
    requires Valid(b) && !Admits(b, now)
    ensures var d := After(b, now);
            d.tokens < 1.0 && d.latched && d.last == now && d.rate == b.rate
  {}

  lemma CeilMonotone(x: real, y: real)
    requires x <= y
    ensures Ceil(x) <= Ceil(y)
  {
    CeilMeaning(x);
    CeilMeaning(y);
  }
}
