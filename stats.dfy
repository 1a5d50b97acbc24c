/**
 * The counters of `struct l2fwd_port_statistics` that the forwarding and
 * receive paths change, the integer part of `calc_sw_latency`, the TX-drain
 * deadline and the statistics timer, all in `uint64_t` arithmetic.
 */
module Stats {
  import opened Ports
  import opened Ether

  const MAX_PKT_BURST: nat := 32
  const BURST_TX_DRAIN_US: nat := 100
  const US_PER_S: nat := 1000000

  /** `uint64_t` */
  type U64 = x: nat | x < TWO_64

  /** `uint64_t` addition: wraps past 2^64. */
  function Add64(a: U64, b: U64): (r: U64)
    ensures a + b < TWO_64 ==> r == a + b
    ensures a + b >= TWO_64 ==> r == a + b - TWO_64
  {
    (a + b) % TWO_64
  }

  /** `uint64_t` subtraction: the difference that, added back, gives `a`. */
  function Sub64(a: U64, b: U64): (r: U64)
    ensures Add64(b, r) == a
    ensures b <= a ==> r == a - b
  {
    if b <= a then a - b else a + TWO_64 - b
  }

  /** Subtraction undoes addition, wrap-around included. */
  lemma SubAdd(b: U64, d: U64)
    ensures Sub64(Add64(b, d), b) == d
  {
  }

  /** `uint64_t` multiplication: the product modulo 2^64, exact when it fits. */
  function Mul64(a: U64, b: U64): (r: U64)
    ensures a * b < TWO_64 ==> r == a * b
    ensures (a * b - r) % TWO_64 == 0
  {
    (a * b) % TWO_64
  }

  /**
   * The counters of `struct l2fwd_port_statistics` that the model tracks:
   * `tx`, `rx`, `dropped`, `rx_burst`, `timestamp` (the summed latency) and
   * `timestamp_us` (the last receive time).
   */
  datatype PortStats = PortStats(tx: U64, rx: U64, dropped: U64, rxBurst: U64, timestamp: U64, timestampUs: U64)

  /** `port_statistics` is a zero-initialised global. */
  const ZERO_STATS: PortStats := PortStats(0, 0, 0, 0, 0, 0)

  // ---------------------------------------------------------------------
  // calc_sw_latency
  // ---------------------------------------------------------------------

  /**
   * `calc_sw_latency` without its floating-point part: with `now` the clock
   * reading, the frame's latency `now - tx_tsp` is added to the port's
   * `timestamp` and to `total_latency`, and `timestamp_us` becomes `now`.
   */
  function SwLatency(s: PortStats, total: U64, frame: seq<u8>, now: U64): (r: (PortStats, U64))
    requires |frame| >= ETHER_HDR_LEN + TSC_LEN
  {
    var diff := Sub64(now, TxTimestamp(frame));
    (s.(timestampUs := now, timestamp := Add64(s.timestamp, diff)), Add64(total, diff))
  }

  /**
   * The latency added is the time from the sender's timestamp to `now`:
   * added to the timestamp it gives `now`, and it is the plain difference
   * when the clock has not wrapped. Only `timestamp` and `timestamp_us` change.
   */
  lemma SwLatencyMeasures(s: PortStats, total: U64, frame: seq<u8>, now: U64)
    requires |frame| >= ETHER_HDR_LEN + TSC_LEN
    ensures var (s', total') := SwLatency(s, total, frame, now);
            var diff := Sub64(total', total);
            && Add64(TxTimestamp(frame), diff) == now
            && (TxTimestamp(frame) <= now ==> diff == now - TxTimestamp(frame))
            && s'.timestamp == Add64(s.timestamp, diff)
            && s'.timestampUs == now
            && s'.(timestamp := s.timestamp, timestampUs := s.timestampUs) == s
  {
    var diff := Sub64(now, TxTimestamp(frame));
    SubAdd(total, diff);
  }

  /** Frames stamped by the sender at time `t`: the latency recorded is `now - t`. */
  lemma SwLatencyOfStamp(s: PortStats, total: U64, frame: seq<u8>, t: U64, now: U64)
    requires |frame| >= ETHER_HDR_LEN + TSC_LEN
    ensures var stamped := Overwrite(frame, ETHER_HDR_LEN, LE(t, TSC_LEN));
            SwLatency(s, total, stamped, now).1 == Add64(total, Sub64(now, t))
  {
    TimestampRoundTrip(frame, t);
  }

  /** The sum of the ports' `timestamp` counters, without wrap-around. */
  function SumTimestamps(stats: seq<PortStats>): nat {
    if |stats| == 0 then 0 else SumTimestamps(stats[..|stats| - 1]) + stats[|stats| - 1].timestamp
  }

  /**
   * On one lcore `total_latency` is the sum of the ports' `timestamp`
   * counters, modulo 2^64: both grow by the same latency for each frame.
   */
  predicate Balanced(stats: seq<PortStats>, total: U64) {
    total == SumTimestamps(stats) % TWO_64
  }

  lemma {:induction false} SumTimestampsUpdate(stats: seq<PortStats>, p: nat, s: PortStats)
    requires p < |stats|
    ensures SumTimestamps(stats[p := s]) == SumTimestamps(stats) - stats[p].timestamp + s.timestamp
  {
    var m := |stats| - 1;
    var u := stats[p := s];
    assert u[..m] == if p < m then stats[..m][p := s] else stats[..m];
    if p < m {
      SumTimestampsUpdate(stats[..m], p, s);
    }
  }

  /** Zeroed counters are balanced against a zero total. */
  lemma {:induction false} ZeroBalanced(stats: seq<PortStats>)
    requires forall p :: 0 <= p < |stats| ==> stats[p] == ZERO_STATS
    ensures Balanced(stats, 0)
    ensures SumTimestamps(stats) == 0
  {
    if |stats| > 0 {
      ZeroBalanced(stats[..|stats| - 1]);
    }
  }

  lemma ModShift(x: int, k: int)
    ensures (x + k * TWO_64) % TWO_64 == x % TWO_64
  {
  }

  /** Accounting one frame's latency to any port keeps the balance. */
  lemma SwLatencyBalanced(stats: seq<PortStats>, total: U64, p: nat, frame: seq<u8>, now: U64)
    requires p < |stats|
    requires |frame| >= ETHER_HDR_LEN + TSC_LEN
    requires Balanced(stats, total)
    ensures Balanced(stats[p := SwLatency(stats[p], total, frame, now).0], SwLatency(stats[p], total, frame, now).1)
  {
    var s' := SwLatency(stats[p], total, frame, now).0;
    var d := Sub64(now, TxTimestamp(frame));
    assert s'.timestamp == Add64(stats[p].timestamp, d);
    assert SwLatency(stats[p], total, frame, now).1 == Add64(total, d);
    SumTimestampsUpdate(stats, p, s');
    WrapBalance(SumTimestamps(stats), total, stats[p].timestamp, d, SumTimestamps(stats[p := s']));
  }

  /**
   * Replacing one summand `x` by `x + d` in wrapping arithmetic moves the
   * sum by `d` modulo 2^64.
   */
  lemma WrapBalance(sum: nat, total: U64, x: U64, d: U64, newSum: nat)
    requires total == sum % TWO_64
    requires newSum == sum - x + Add64(x, d)
    ensures Add64(total, d) == newSum % TWO_64
  {
    // The summand wrapped at most once.
    var i := if x + d >= TWO_64 then 1 else 0;
    assert newSum == (sum + d) + (-i) * TWO_64;
    ModShift(sum + d, -i);
    AddMod(sum, d, total);
  }

  /** Adding the same amount to congruent numbers keeps them congruent. */
  lemma AddMod(sum: nat, d: nat, total: nat)
    requires total == sum % TWO_64
    ensures (total + d) % TWO_64 == (sum + d) % TWO_64
  {
    var q := sum / TWO_64;
    assert sum == q * TWO_64 + total;
    ModShift(total + d, q);
  }

  /** Changing a port's counters other than `timestamp` keeps the balance. */
  lemma CountersBalanced(stats: seq<PortStats>, total: U64, p: nat, s: PortStats)
    requires p < |stats|
    requires s.timestamp == stats[p].timestamp
    requires Balanced(stats, total)
    ensures Balanced(stats[p := s], total)
  {
    SumTimestampsUpdate(stats, p, s);
  }

  // ---------------------------------------------------------------------
  // TX drain deadline and statistics timer
  // ---------------------------------------------------------------------

  /**
   * `drain_tsc`: `(hz + US_PER_S - 1) / US_PER_S * BURST_TX_DRAIN_US` in
   * `uint64_t`, the number of TSC cycles in BURST_TX_DRAIN_US microseconds,
   * rounded up to a whole number of cycles per microsecond.
   */
  function DrainTsc(hz: U64): U64 {
    Mul64(Add64(hz, US_PER_S - 1) / US_PER_S, BURST_TX_DRAIN_US)
  }

  /**
   * For any clock rate that does not overflow the rounding, the deadline
   * is 100 times the cycles per microsecond rounded up: at least 100 us
   * worth of cycles and less than 100 us plus 100 cycles' worth.
   */
  lemma DrainTscBounds(hz: U64)
    requires hz + US_PER_S - 1 < TWO_64
    ensures DrainTsc(hz) == (hz + US_PER_S - 1) / US_PER_S * BURST_TX_DRAIN_US
    ensures DrainTsc(hz) * US_PER_S >= hz * BURST_TX_DRAIN_US
    ensures DrainTsc(hz) * US_PER_S < (hz + US_PER_S) * BURST_TX_DRAIN_US
  {
    var q := (hz + US_PER_S - 1) / US_PER_S;
    assert q * US_PER_S <= hz + US_PER_S - 1 < q * US_PER_S + US_PER_S;
    assert q <= TWO_64 / US_PER_S;
  }

  /** The drain runs when more than `drain` cycles have passed since `prev`, counted modulo 2^64. */
  predicate DrainDue(prev: U64, cur: U64, drain: U64) {
    Sub64(cur, prev) > drain
  }

  /**
   * The statistics timer after one drain: it advances by `diff` when
   * `timer_period > 0`; on the main lcore, once it reaches the period,
   * statistics are printed (`true`) and it restarts from 0.
   */
  function TimerStep(period: U64, timer: U64, diff: U64, isMain: bool): (r: (U64, bool))
  {
    if period == 0 then (timer, false)
    else
      var t := Add64(timer, diff);
      if t >= period && isMain then (0, true) else (t, false)
  }

  /**
   * On the main lcore an enabled timer stays below its period and prints
   * exactly when the advanced count reaches it, restarting from 0; until
   * then, and on every other lcore, it advances by `diff`; other lcores
   * never print and never reset; a zero period disables the timer.
   */
  lemma TimerStepSpec(period: U64, timer: U64, diff: U64, isMain: bool)
    ensures period > 0 && isMain ==> TimerStep(period, timer, diff, isMain).0 < period
    ensures TimerStep(period, timer, diff, isMain).1 <==> period > 0 && isMain && Add64(timer, diff) >= period
    ensures TimerStep(period, timer, diff, isMain).1 ==> TimerStep(period, timer, diff, isMain).0 == 0
    ensures period > 0 && !TimerStep(period, timer, diff, isMain).1 ==> TimerStep(period, timer, diff, isMain).0 == Add64(timer, diff)
    ensures !isMain && period > 0 ==> TimerStep(period, timer, diff, isMain).0 == Add64(timer, diff)
    ensures period == 0 ==> TimerStep(period, timer, diff, isMain) == (timer, false)
  {
  }

  // ---------------------------------------------------------------------
  // print_stats totals
  // ---------------------------------------------------------------------

  /** The aggregate counters `print_stats` prints: sent, received and dropped over enabled ports. */
  datatype Totals = Totals(tx: U64, rx: U64, dropped: U64)

  /** The totals accumulated over ports `0 .. n-1`, skipping ports not in `mask`. */
  function TotalsBelow(stats: seq<PortStats>, mask: bv32, n: nat): Totals
    requires n <= |stats| && n <= MAX_ETHPORTS
  {
    if n == 0 then Totals(0, 0, 0)
    else
      var t := TotalsBelow(stats, mask, n - 1);
      var s := stats[n - 1];
      if InMask(mask, n - 1) then Totals(Add64(t.tx, s.tx), Add64(t.rx, s.rx), Add64(t.dropped, s.dropped))
      else t
  }

  /** The counters that `print_stats` adds up. */
  datatype Counter = Tx | Rx | Dropped

  function Count(s: PortStats, c: Counter): U64 {
    match c
    case Tx => s.tx
    case Rx => s.rx
    case Dropped => s.dropped
  }

  /** The plain sum of one counter over the enabled ports below `n`. */
  function SumEnabled(stats: seq<PortStats>, mask: bv32, n: nat, c: Counter): nat
    requires n <= |stats| && n <= MAX_ETHPORTS
  {
    if n == 0 then 0
    else SumEnabled(stats, mask, n - 1, c) + (if InMask(mask, n - 1) then Count(stats[n - 1], c) else 0)
  }

  /** Each total is the sum over the enabled ports, modulo 2^64. */
  lemma {:induction false} TotalsAreSums(stats: seq<PortStats>, mask: bv32, n: nat)
    requires n <= |stats| && n <= MAX_ETHPORTS
    ensures TotalsBelow(stats, mask, n).tx == SumEnabled(stats, mask, n, Tx) % TWO_64
    ensures TotalsBelow(stats, mask, n).rx == SumEnabled(stats, mask, n, Rx) % TWO_64
    ensures TotalsBelow(stats, mask, n).dropped == SumEnabled(stats, mask, n, Dropped) % TWO_64
  {
    if n > 0 {
      var m := n - 1;
      TotalsAreSums(stats, mask, m);
      var t := TotalsBelow(stats, mask, m);
      if InMask(mask, m) {
        AddMod(SumEnabled(stats, mask, m, Tx), stats[m].tx, t.tx);
        AddMod(SumEnabled(stats, mask, m, Rx), stats[m].rx, t.rx);
        AddMod(SumEnabled(stats, mask, m, Dropped), stats[m].dropped, t.dropped);
      }
    }
  }

  /** The counters of ports outside the mask do not reach the totals. */
  lemma {:induction false} TotalsIgnoreDisabled(stats: seq<PortStats>, other: seq<PortStats>, mask: bv32, n: nat)
    requires n <= |stats| == |other| && n <= MAX_ETHPORTS
    requires forall p: PortId :: p < n && InMask(mask, p) ==> stats[p] == other[p]
    ensures TotalsBelow(stats, mask, n) == TotalsBelow(other, mask, n)
  {
    if n > 0 {
      TotalsIgnoreDisabled(stats, other, mask, n - 1);
    }
  }
}
