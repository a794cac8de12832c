/** The token bucket behind the wire rate limits (`crates/engine/src/rate_limit.rs`), with
    real arithmetic and clock readings as parameters. */
module RateLimits {

  const BURST_SECS: real := 1.5
  const MIN_DELAY: real := 0.001
  const MAX_DELAY: real := 1.0

  datatype Bucket = Bucket(tokens: real, capacity: real, rate: real, last: real)

  function MinR(a: real, b: real): real {
    if a <= b then a else b
  }

  function MaxR(a: real, b: real): real {
    if a >= b then a else b
  }

  /** What a rate brings in over some time. */
  function Earned(rate: real, time: real): real {
    rate * time
  }

  function Refilled(b: Bucket, now: real): Bucket {
    if b.rate <= 0.0 || now <= b.last then b
    else b.(tokens := MinR(b.tokens + Earned(b.rate, now - b.last), b.capacity), last := now)
  }

  /** Whole bytes only, never more than wanted, never negative. */
  function Grant(b: Bucket, want: nat, now: real): nat {
    if want == 0 then 0
    else
      var g := MaxR(MinR(want as real, Refilled(b, now).tokens), 0.0).Floor;
      if g < 0 then 0 else g
  }

  function Consumed(b: Bucket, want: nat, now: real): Bucket {
    if want == 0 then b
    else Refilled(b, now).(tokens := Refilled(b, now).tokens - Grant(b, want, now) as real)
  }

  function Refunded(b: Bucket, n: nat): Bucket {
    if n == 0 then b else b.(tokens := MinR(b.tokens + n as real, MaxR(b.capacity, n as real)))
  }

  /** Seconds to sleep before trying again. */
  function DelayOf(b: Bucket, need: nat, now: real): real {
    if need == 0 then 0.0
    else
      var r := Refilled(b, now);
      if r.tokens >= need as real || r.rate <= 0.0 then 0.0
      else MinR(MaxR((need as real - r.tokens) / r.rate, MIN_DELAY), MAX_DELAY)
  }

  function Configured(bps: nat, now: real, last: real): Bucket {
    if bps == 0 then Bucket(0.0, 0.0, 0.0, last)
    else Bucket(bps as real * BURST_SECS, bps as real * BURST_SECS, bps as real, now)
  }

  class TokenBucket {
    var tokens: real
    var capacity: real
    var rate: real
    var last: real

    ghost function View(): Bucket
      reads this
    {
      Bucket(tokens, capacity, rate, last)
    }

    constructor Unlimited(now: real)
      ensures View() == Configured(0, now, now)
    {
      tokens, capacity, rate, last := 0.0, 0.0, 0.0, now;
    }

    /** `reconfigure`: a positive rate starts with a full burst. */
    method Reconfigure(bps: nat, now: real)
      modifies this
      ensures View() == Configured(bps, now, old(last))
      ensures bps > 0 ==> Sane(View()) && rate == bps as real && tokens == capacity == 1.5 * rate && last == now
      ensures bps == 0 ==> rate == tokens == capacity == 0.0 && last == old(last)
    {
      if bps == 0 {
        rate, capacity, tokens := 0.0, 0.0, 0.0;
        return;
      }
      rate := bps as real;
      capacity := rate * BURST_SECS;
      tokens := capacity;
      last := now;
    }

    /** `refill`: tokens grow by at most rate times elapsed time, never past the capacity, and
        the clock reading kept never goes back. */
    method Refill(now: real)
      modifies this
      ensures View() == Refilled(old(View()), now)
      ensures rate == old(rate) && capacity == old(capacity) && last >= old(last)
      ensures Sane(old(View())) ==> Sane(View()) && old(tokens) <= tokens <= capacity
      ensures Sane(old(View())) ==> last == if now > old(last) then now else old(last)
      ensures Sane(old(View())) && now >= old(last) ==>
                && tokens <= old(tokens) + rate * (now - old(last))
                && (tokens == old(tokens) + rate * (now - old(last)) || tokens == capacity)
    {
      RefillGrows(View(), now);
      if rate <= 0.0 {
        return;
      }
      var dt := if now >= last then now - last else 0.0;
      if dt > 0.0 {
        tokens := MinR(tokens + rate * dt, capacity);
        last := now;
      }
    }

    /** `try_consume`. */
    method TryConsume(want: nat, now: real) returns (grant: nat)
      modifies this
      ensures grant == Grant(old(View()), want, now) && View() == Consumed(old(View()), want, now)
      ensures grant <= want && rate == old(rate) && capacity == old(capacity)
      ensures Sane(old(View())) ==> Sane(View()) && 0.0 <= tokens <= capacity
      ensures Sane(old(View())) ==> grant == want || tokens < 1.0
      ensures Sane(old(View())) && want > 0 ==> last == if now > old(last) then now else old(last)
      ensures Sane(old(View())) && want > 0 && now >= old(last) ==>
                || tokens + grant as real == old(tokens) + rate * (now - old(last))
                || tokens + grant as real == capacity <= old(tokens) + rate * (now - old(last))
      ensures want == 0 ==> View() == old(View())
    {
      SaneConsume(View(), want, now);
      if want == 0 {
        return 0;
      }
      Refill(now);
      var least := MaxR(MinR(want as real, tokens), 0.0);
      FloorBounds(least, want);
      grant := least.Floor;
      tokens := tokens - grant as real;
    }

    /** `refund_upload` and `refund_download` on a limited direction. */
    method Refund(n: nat)
      modifies this
      ensures View() == Refunded(old(View()), n) && rate == old(rate) && capacity == old(capacity)
      ensures Sane(old(View())) ==> old(tokens) <= tokens <= old(tokens) + n as real
      ensures Sane(old(View())) ==> (tokens <= capacity <==> n as real <= capacity)
      ensures Sane(old(View())) && old(tokens) + n as real <= capacity ==> tokens == old(tokens) + n as real
      ensures Sane(old(View())) && old(tokens) + n as real > capacity ==> tokens >= capacity
      ensures last == old(last)
    {
      if n == 0 {
        return;
      }
      tokens := MinR(tokens + n as real, MaxR(capacity, n as real));
    }

    /** `bucket_delay` on a limited direction. */
    method Delay(need: nat, now: real) returns (secs: real)
      modifies this
      ensures secs == DelayOf(old(View()), need, now)
      ensures View() == if need == 0 then old(View()) else Refilled(old(View()), now)
      ensures Sane(old(View())) ==> Sane(View()) && old(tokens) <= tokens <= capacity
      ensures Sane(old(View())) ==> (secs == 0.0 <==> need as real <= tokens)
      ensures secs == 0.0 || 0.001 <= secs <= 1.0
      ensures Sane(old(View())) && 0.001 < secs < 1.0 ==> rate * secs == need as real - tokens
      ensures Sane(old(View())) && secs > 0.001 ==> rate * secs <= need as real - tokens
    {
      SaneDelay(View(), need, now);
      if need == 0 {
        return 0.0;
      }
      Refill(now);
      if tokens >= need as real || rate <= 0.0 {
        return 0.0;
      }
      var deficit := need as real - tokens;
      ClampedTime(deficit, rate);
      secs := MaxR(deficit / rate, MIN_DELAY);
      secs := MinR(secs, MAX_DELAY);
    }
  }

  lemma FloorBounds(x: real, want: nat)
    requires 0.0 <= x <= want as real
    ensures 0 <= x.Floor <= want && x.Floor as real <= x
  {}

  // ---------------------------------------------------------------- a limited bucket

  /** A bucket as it is between reconfigurations. */
  ghost predicate Sane(b: Bucket) {
    b.rate > 0.0 && b.capacity == b.rate * BURST_SECS && 0.0 <= b.tokens <= b.capacity
  }

  lemma RefillSane(b: Bucket, now: real)
    requires Sane(b)
    ensures Sane(Refilled(b, now)) && Refilled(b, now).rate == b.rate && Refilled(b, now).tokens >= b.tokens
  {
    if now > b.last {
      EarnedPositive(b.rate, now - b.last);
    }
  }

  lemma RefillGrows(b: Bucket, now: real)
    ensures Sane(b) ==> Sane(Refilled(b, now)) && Refilled(b, now).tokens >= b.tokens
    ensures Sane(b) && now >= b.last ==> Refilled(b, now).tokens <= b.tokens + Earned(b.rate, now - b.last)
  {
    if Sane(b) {
      RefillSane(b, now);
      if now >= b.last {
        EarnedPositive(b.rate, now - b.last);
      }
    }
  }

  lemma SaneConsume(b: Bucket, want: nat, now: real)
    ensures Sane(b) ==> Sane(Consumed(b, want, now))
    ensures Sane(b) ==> Grant(b, want, now) == want || Consumed(b, want, now).tokens < 1.0
  {
    if Sane(b) {
      GrantBounds(b, want, now);
    }
  }

  lemma SaneDelay(b: Bucket, need: nat, now: real)
    ensures Sane(b) ==> Sane(Refilled(b, now)) && Refilled(b, now).tokens >= b.tokens
    ensures Sane(b) ==> (DelayOf(b, need, now) == 0.0 <==> need == 0 || need as real <= Refilled(b, now).tokens)
    ensures DelayOf(b, need, now) == 0.0 || MIN_DELAY <= DelayOf(b, need, now) <= MAX_DELAY
  {
    if Sane(b) {
      RefillSane(b, now);
    }
    hide Refilled;
  }

  lemma EarnedPositive(rate: real, time: real)
    requires rate > 0.0 && time >= 0.0
    ensures Earned(rate, time) >= 0.0
  {}

  lemma ProductPositive(x: real, y: real)
    requires x > 0.0 && y >= 0.0
    ensures x * y >= 0.0
  {}

  /** A grant is at most what is there and at most what is wanted; a need that is there is
      granted in full. */
  lemma GrantBounds(b: Bucket, want: nat, now: real)
    requires Sane(b)
    ensures Grant(b, want, now) <= want && Grant(b, want, now) as real <= Refilled(b, now).tokens
    ensures want as real <= Refilled(b, now).tokens ==> Grant(b, want, now) == want
    ensures Grant(b, want, now) == want || (Grant(b, want, now) + 1) as real > Refilled(b, now).tokens
    ensures Sane(Consumed(b, want, now))
  {
    RefillSane(b, now);
    hide Refilled;
    if want > 0 {
      FloorBounds(MaxR(MinR(want as real, Refilled(b, now).tokens), 0.0), want);
    }
  }

  /** Tokens stay between zero and capacity under a refund exactly when the refund is at most
      the capacity, as every grant of this configuration is. */
  lemma RefundSane(b: Bucket, n: nat)
    requires Sane(b)
    ensures Sane(Refunded(b, n)) <==> n as real <= b.capacity
    ensures b.tokens + n as real <= b.capacity ==> Refunded(b, n).tokens == b.tokens + n as real
    ensures b.tokens + n as real > b.capacity ==> Refunded(b, n).tokens >= b.capacity
  {}

  /** Giving a whole grant back undoes the consume, but for the refill. */
  lemma RefundUndoes(b: Bucket, want: nat, now: real)
    requires Sane(b) && want > 0
    ensures Refunded(Consumed(b, want, now), Grant(b, want, now)) == Refilled(b, now)
  {
    GrantBounds(b, want, now);
    RefillSane(b, now);
    hide Refilled;
  }

  /** Giving back part of a grant leaves what a grant of the rest would have left. */
  lemma PartRefund(b: Bucket, want: nat, now: real, back: nat)
    requires Sane(b) && back <= Grant(b, want, now)
    ensures var c := Refunded(Consumed(b, want, now), back);
            && Sane(c)
            && c.tokens + (Grant(b, want, now) - back) as real
               == (if want == 0 then b else Refilled(b, now)).tokens
  {
    if want > 0 {
      GrantBounds(b, want, now);
      RefillSane(b, now);
    }
    hide Refilled;
  }

  // ---------------------------------------------------------------- windows

  datatype Op = Consume(want: nat, now: real) | Refund(n: nat) | Ask(need: nat, now: real)

  function Applied(b: Bucket, op: Op): Bucket {
    match op
    case Consume(want, now) => Consumed(b, want, now)
    case Refund(n) => Refunded(b, n)
    case Ask(need, now) => if need == 0 then b else Refilled(b, now)
  }

  function Run(b: Bucket, ops: seq<Op>): Bucket
    decreases |ops|
  {
    if ops == [] then b else Run(Applied(b, ops[0]), ops[1..])
  }

  /** Bytes granted less bytes refunded, for one operation and for a list. */
  function Gain(b: Bucket, op: Op): int {
    match op
    case Consume(want, now) => Grant(b, want, now)
    case Refund(n) => -(n as int)
    case Ask(_, _) => 0
  }

  function Net(b: Bucket, ops: seq<Op>): int
    decreases |ops|
  {
    if ops == [] then 0 else Gain(b, ops[0]) + Net(Applied(b, ops[0]), ops[1..])
  }

  /** A refund does not read the clock. */
  function TimeOf(op: Op, before: real): real {
    match op
    case Consume(_, now) => now
    case Refund(_) => before
    case Ask(_, now) => now
  }

  /** Clock readings do not go back and stay within the window. */
  ghost predicate Within(ops: seq<Op>, from: real, to: real)
    decreases |ops|
  {
    if ops == [] then from <= to else from <= TimeOf(ops[0], from) && Within(ops[1..], TimeOf(ops[0], from), to)
  }

  ghost predicate RefundsFit(ops: seq<Op>, capacity: real) {
    forall k :: 0 <= k < |ops| && ops[k].Refund? ==> ops[k].n as real <= capacity
  }

  /** The tokens there would be at `now`. */
  function Level(b: Bucket, now: real): real {
    Refilled(b, now).tokens
  }

  /** A bucket with a rate that a large refund may have filled past its capacity. */
  ghost predicate Limited(b: Bucket) {
    b.rate > 0.0 && b.capacity == b.rate * BURST_SECS && 0.0 <= b.tokens
  }

  lemma LimitedFacts(b: Bucket)
    requires Limited(b)
    ensures b.rate > 0.0 && b.capacity > 0.0 && b.tokens >= 0.0
  {}

  lemma RefillLimited(b: Bucket, now: real)
    requires Limited(b)
    ensures Limited(Refilled(b, now)) && Refilled(b, now).rate == b.rate && Refilled(b, now).capacity == b.capacity
    ensures now > b.last ==> Refilled(b, now).tokens <= b.capacity
  {
    hide Earned;
    LimitedFacts(b);
    if now > b.last {
      EarnedPositive(b.rate, now - b.last);
    }
  }

  lemma LevelGrows(b: Bucket, s: real, t: real)
    requires Limited(b) && b.last <= s <= t
    ensures Level(b, t) <= Level(b, s) + Earned(b.rate, t - s)
  {
    hide Earned, Limited;
    LimitedFacts(b);
    EarnedSplit(b.rate, s - b.last, t - s);
    assert s - b.last + (t - s) == t - b.last;
    EarnedPositive(b.rate, t - s);
    EarnedPositive(b.rate, s - b.last);
    NothingEarned(b.rate);
  }

  lemma EarnedSplit(rate: real, a: real, b: real)
    ensures Earned(rate, a) + Earned(rate, b) == Earned(rate, a + b)
  {}

  lemma NothingEarned(rate: real)
    ensures Earned(rate, 0.0) == 0.0
  {}

  lemma RefundLevel(b: Bucket, n: nat, s: real)
    requires Limited(b)
    ensures Limited(Refunded(b, n)) && Level(Refunded(b, n), s) <= Level(b, s) + n as real
    ensures Refunded(b, n).rate == b.rate && Refunded(b, n).last == b.last
  {
    hide Earned;
    LimitedFacts(b);
    if s > b.last {
      EarnedPositive(b.rate, s - b.last);
    }
  }

  lemma AskKeeps(b: Bucket, now: real)
    requires Limited(b) && b.last <= now
    ensures var r := Refilled(b, now); Limited(r) && r.rate == b.rate && r.last <= now && Level(r, now) == r.tokens
  {
    RefillLimited(b, now);
  }

  lemma ConsumeKeeps(b: Bucket, want: nat, now: real)
    requires Limited(b) && b.last <= now
    ensures var r := Consumed(b, want, now);
            Limited(r) && r.rate == b.rate && r.last <= now
            && Level(r, now) + Grant(b, want, now) as real == Level(b, now)
  {
    hide Earned;
    AskKeeps(b, now);
    FloorBounds(MaxR(MinR(want as real, Refilled(b, now).tokens), 0.0), want);
  }

  lemma LevelAt(b: Bucket, c: Bucket, need: nat, now: real)
    requires Limited(b) && b.last <= now && c == Applied(b, Ask(need, now))
    ensures Level(c, now) == Level(b, now) && Limited(c) && c.rate == b.rate && c.last <= now
  {
    hide Earned;
    AskKeeps(b, now);
  }

  /** One operation: what it grants is taken from the level. */
  lemma OpLevel(b: Bucket, op: Op, from: real)
    requires Limited(b) && b.last <= from <= TimeOf(op, from)
    ensures var c, at := Applied(b, op), TimeOf(op, from);
            && Limited(c) && c.rate == b.rate && c.last <= at
            && Level(c, at) + Gain(b, op) as real <= Level(b, from) + Earned(b.rate, at - from)
  {
    hide Refilled, Consumed, Grant, Refunded, Level, Limited, Earned;
    match op
    case Consume(want, now) =>
      ConsumeKeeps(b, want, now);
      LevelGrows(b, from, now);
    case Ask(need, now) =>
      LevelGrows(b, from, now);
      LevelAt(b, Applied(b, op), need, now);
    case Refund(n) =>
      RefundLevel(b, n, from);
      NothingEarned(b.rate);
  }

  /** In any window, for any mix of consumes, refunds of any size and delay queries, the net
      grant is at most the level at its start plus what the rate brings in over its length. */
  lemma {:induction false} WindowLevel(b: Bucket, ops: seq<Op>, from: real, to: real)
    requires Limited(b) && b.last <= from && Within(ops, from, to)
    ensures Limited(Run(b, ops)) && Run(b, ops).rate == b.rate
    ensures from <= to && Net(b, ops) as real <= Level(b, from) + Earned(b.rate, to - from)
    decreases |ops|
  {
    hide Level, Gain, Applied, TimeOf, Limited, Earned;
    if ops == [] {
      LevelRange(b, from);
      LimitedFacts(b);
      EarnedPositive(b.rate, to - from);
    } else {
      var c, at := Applied(b, ops[0]), TimeOf(ops[0], from);
      OpLevel(b, ops[0], from);
      WindowLevel(c, ops[1..], at, to);
      EarnedSplit(b.rate, at - from, to - at);
      assert at - from + (to - at) == to - from;
    }
  }

  lemma LevelRange(b: Bucket, t: real)
    requires Limited(b)
    ensures 0.0 <= Level(b, t) <= MaxR(b.tokens, b.capacity)
  {
    RefillLimited(b, t);
  }

  /** Refunds no larger than the capacity keep the tokens within it. */
  lemma {:induction false} RunSane(b: Bucket, ops: seq<Op>)
    requires Sane(b) && RefundsFit(ops, b.capacity)
    ensures Sane(Run(b, ops)) && Run(b, ops).rate == b.rate
    decreases |ops|
  {
    hide Refilled, Consumed, Grant, Refunded;
    if ops != [] {
      OpSane(b, ops[0]);
      RunSane(Applied(b, ops[0]), ops[1..]);
    }
  }

  lemma OpSane(b: Bucket, op: Op)
    requires Sane(b) && (op.Refund? ==> op.n as real <= b.capacity)
    ensures Sane(Applied(b, op)) && Applied(b, op).rate == b.rate
  {
    match op
    case Consume(want, now) =>
      GrantBounds(b, want, now);
      RefillSane(b, now);
    case Ask(need, now) => RefillSane(b, now);
    case Refund(n) => RefundSane(b, n);
  }

  /** Net bytes granted in any window of length `t` never exceed 1.5 times the rate plus the
      rate times `t`, whatever is refunded in it. */
  lemma WindowBound(b: Bucket, ops: seq<Op>, from: real, to: real)
    requires Sane(b) && b.last <= from && Within(ops, from, to)
    ensures Net(b, ops) as real <= 1.5 * b.rate + Earned(b.rate, to - from)
    ensures RefundsFit(ops, b.capacity) ==> 0.0 <= Run(b, ops).tokens <= 1.5 * b.rate
  {
    hide Run, Net, Within, Level, Earned;
    WindowLevel(b, ops, from, to);
    LevelRange(b, from);
    if RefundsFit(ops, b.capacity) {
      RunSane(b, ops);
    }
  }

  // ---------------------------------------------------------------- waiting

  /** The clock after sleeping again and again for at least the delay asked for, with nobody
      else consuming: `naps[k]` is the actual length of the k-th sleep. */
  function Waited(b: Bucket, need: nat, now: real, naps: seq<real>): (Bucket, real)
    decreases |naps|
  {
    if naps == [] then (b, now) else Waited(Applied(b, Ask(need, now)), need, now + naps[0], naps[1..])
  }

  /** Each sleep is at least as long as the delay, and the loop sleeps only on a delay. */
  ghost predicate Sleeps(b: Bucket, need: nat, now: real, naps: seq<real>)
    decreases |naps|
  {
    naps != [] ==>
      && DelayOf(b, need, now) > 0.0 && naps[0] >= DelayOf(b, need, now)
      && Sleeps(Applied(b, Ask(need, now)), need, now + naps[0], naps[1..])
  }

  lemma DelayShape(b: Bucket, need: nat, now: real)
    requires Sane(b)
    ensures 0.0 <= DelayOf(b, need, now) <= 1.0
    ensures DelayOf(b, need, now) == 0.0 <==> need as real <= Level(b, now)
    ensures DelayOf(b, need, now) > 0.0 ==>
              DelayOf(b, need, now) == 1.0 || b.rate * DelayOf(b, need, now) >= need as real - Level(b, now)
    ensures DelayOf(b, need, now) > 0.001 ==> b.rate * DelayOf(b, need, now) <= need as real - Level(b, now)
  {
    RefillSane(b, now);
    hide Refilled;
    var r := Refilled(b, now);
    if need > 0 && r.tokens < need as real {
      DeficitTime(need as real - r.tokens, r.rate);
      ClampedTime(need as real - r.tokens, r.rate);
    }
  }

  lemma DeficitTime(deficit: real, rate: real)
    requires deficit > 0.0 && rate > 0.0
    ensures deficit / rate > 0.0 && rate * (deficit / rate) == deficit
    ensures rate * MaxR(deficit / rate, MIN_DELAY) >= deficit
  {
    var q := deficit / rate;
    assert q * rate == deficit;
    if q < MIN_DELAY {
      ProductPositive(rate, MIN_DELAY - q);
      assert rate * MIN_DELAY == rate * q + rate * (MIN_DELAY - q);
    }
  }

  /** Above the least delay the clamped time earns no more than the deficit, and between the
      limits exactly that. */
  lemma ClampedTime(deficit: real, rate: real)
    requires deficit > 0.0 && rate > 0.0
    ensures var d := MinR(MaxR(deficit / rate, 0.001), 1.0);
            && (0.001 < d < 1.0 ==> rate * d == deficit)
            && (d > 0.001 ==> rate * d <= deficit)
  {
    DeficitTime(deficit, rate);
    var q := deficit / rate;
    if q > 1.0 {
      ProductPositive(rate, q - 1.0);
      assert rate * q == rate * 1.0 + rate * (q - 1.0);
    }
  }

  /** After one sleep the level is the need, or one second's worth of tokens higher. */
  lemma OneNap(b: Bucket, need: nat, now: real, nap: real)
    requires Sane(b) && b.last <= now && need as real <= b.capacity
    requires DelayOf(b, need, now) > 0.0 && nap >= DelayOf(b, need, now)
    ensures var c := Applied(b, Ask(need, now));
            && Sane(c) && c.rate == b.rate && c.last <= now + nap
            && (need as real <= Level(c, now + nap) || Level(c, now + nap) >= Level(b, now) + b.rate)
  {
    DelayShape(b, need, now);
    AskKeeps(b, now);
    RefillSane(b, now);
    var d := DelayOf(b, need, now);
    var c := Refilled(b, now);
    assert need > 0;
    NapFills(c, now, nap, d);
  }

  /** Sleeping from a bucket just refilled adds rate times time, up to the capacity. */
  lemma NapFills(c: Bucket, now: real, nap: real, d: real)
    requires Sane(c) && c.last <= now && Level(c, now) == c.tokens && 0.0 < d <= nap
    ensures Level(c, now + nap) >= MinR(c.tokens + c.rate * d, c.capacity)
  {
    ProductPositive(c.rate, nap - d);
    ProductPositive(c.rate, now - c.last);
    assert c.rate * (now + nap - c.last) == c.rate * (now - c.last) + c.rate * d + c.rate * (nap - d);
  }

  /** A need within the capacity is met after at most two sleeps. */
  lemma TwoNapsSuffice(b: Bucket, need: nat, now: real, naps: seq<real>)
    requires Sane(b) && b.last <= now && need as real <= b.capacity && Sleeps(b, need, now, naps)
    ensures |naps| <= 2
  {
    if |naps| >= 3 {
      hide Refilled, DelayOf, Level, Applied;
      var c, t := Applied(b, Ask(need, now)), now + naps[0];
      var e, u := Applied(c, Ask(need, t)), t + naps[1];
      SleepsStep(b, need, now, naps);
      SleepsStep(c, need, t, naps[1..]);
      SleepsStep(e, need, u, naps[1..][1..]);
      LevelRange(b, now);
      OneNap(b, need, now, naps[0]);
      DelayShape(c, need, t);
      OneNap(c, need, t, naps[1]);
      DelayShape(e, need, u);
    }
  }

  lemma SleepsStep(b: Bucket, need: nat, now: real, naps: seq<real>)
    requires Sleeps(b, need, now, naps) && naps != []
    ensures DelayOf(b, need, now) > 0.0 && naps[0] >= DelayOf(b, need, now)
    ensures Sleeps(Applied(b, Ask(need, now)), need, now + naps[0], naps[1..])
  {}

  /** A need above the capacity is never met: the loop sleeps for ever. */
  lemma {:induction false} NeverEnough(b: Bucket, need: nat, now: real, naps: seq<real>)
    requires Sane(b) && need as real > b.capacity && Sleeps(b, need, now, naps)
    ensures var (c, t) := Waited(b, need, now, naps); Sane(c) && DelayOf(c, need, t) > 0.0
    decreases |naps|
  {
    hide Refilled, DelayOf;
    DelayShape(b, need, now);
    RefillSane(b, now);
    if naps != [] {
      NeverEnough(Applied(b, Ask(need, now)), need, now + naps[0], naps[1..]);
    }
  }
}
