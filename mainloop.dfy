/**
 * One pass of the `while (!force_quit)` loop of `l2fwd_main_loop` on one
 * lcore: the TX-buffer drain with the statistics timer, then the receive
 * poll of each of the lcore's ports with the latency accounting of each
 * frame. The DPDK calls are inputs: `rte_rdtsc`, the count each
 * `rte_eth_tx_buffer_flush` reports, the frames each `rte_eth_rx_burst`
 * returns and the realtime clock read for each frame.
 */
module MainLoop {
  import opened Ports
  import opened Ether
  import opened Stats

  /**
   * What an lcore works with: `rx_port_list[..n_rx_port]`, the
   * `l2fwd_dst_ports` table, `drain_tsc`, `timer_period` in cycles, and
   * whether it is the main lcore.
   */
  datatype Lcore = Lcore(rxPorts: seq<PortId>, dst: seq<PortId>, drain: U64, period: U64, isMain: bool)

  /** `port_statistics`, `latency_numbers.total_latency`, and the loop's `prev_tsc` and `timer_tsc`. */
  datatype LoopState = LoopState(stats: seq<PortStats>, total: U64, prevTsc: U64, timerTsc: U64)

  /**
   * The inputs of one pass: `cur_tsc`, the flush count for the destination
   * of each rx port, the frames polled on each rx port, and the clock
   * reading `calc_sw_latency` takes for each of those frames.
   */
  datatype Poll = Poll(cur: U64, sent: seq<U64>, frames: seq<seq<seq<u8>>>, clocks: seq<seq<U64>>)

  /** Each polled frame is long enough to hold the header and the timestamp. */
  predicate FramesFit(frames: seq<seq<u8>>) {
    forall j :: 0 <= j < |frames| ==> |frames[j]| >= ETHER_HDR_LEN + TSC_LEN
  }

  /** One frame list and its clock readings, as `rte_eth_rx_burst` can return them. */
  predicate Burst(frames: seq<seq<u8>>, clocks: seq<U64>) {
    |frames| <= MAX_PKT_BURST && |clocks| == |frames| && FramesFit(frames)
  }

  predicate Bursts(rxPorts: seq<PortId>, frames: seq<seq<seq<u8>>>, clocks: seq<seq<U64>>) {
    && |frames| == |rxPorts| && |clocks| == |rxPorts|
    && forall i :: 0 <= i < |rxPorts| ==> Burst(frames[i], clocks[i])
  }

  predicate Shaped(c: Lcore, st: LoopState, input: Poll) {
    && |c.dst| == MAX_ETHPORTS && |st.stats| == MAX_ETHPORTS
    && |input.sent| == |c.rxPorts|
    && Bursts(c.rxPorts, input.frames, input.clocks)
  }

  // ---------------------------------------------------------------------
  // Drain
  // ---------------------------------------------------------------------

  /** The drain loop over the first `k` rx ports: flush each one's destination, `tx += sent` when nonzero. */
  function Flush(stats: seq<PortStats>, rxPorts: seq<PortId>, dst: seq<PortId>, sent: seq<U64>, k: nat): (r: seq<PortStats>)
    requires k <= |rxPorts| == |sent|
    requires |dst| == MAX_ETHPORTS && |stats| == MAX_ETHPORTS
    ensures |r| == MAX_ETHPORTS
  {
    if k == 0 then stats
    else
      var s := Flush(stats, rxPorts, dst, sent, k - 1);
      var d := dst[rxPorts[k - 1]];
      if sent[k - 1] != 0 then s[d := s[d].(tx := Add64(s[d].tx, sent[k - 1]))] else s
  }

  /** What the flushes of the first `k` rx ports sent through port `q`. */
  function SentTo(rxPorts: seq<PortId>, dst: seq<PortId>, sent: seq<U64>, q: PortId, k: nat): nat
    requires k <= |rxPorts| == |sent|
    requires |dst| == MAX_ETHPORTS
  {
    if k == 0 then 0
    else SentTo(rxPorts, dst, sent, q, k - 1) + (if dst[rxPorts[k - 1]] == q then sent[k - 1] else 0)
  }

  /** The drain raises each port's `tx` by what was flushed through it, modulo 2^64, and changes nothing else. */
  lemma {:induction false} FlushEffect(stats: seq<PortStats>, rxPorts: seq<PortId>, dst: seq<PortId>, sent: seq<U64>, k: nat, q: PortId)
    requires k <= |rxPorts| == |sent|
    requires |dst| == MAX_ETHPORTS && |stats| == MAX_ETHPORTS
    ensures Flush(stats, rxPorts, dst, sent, k)[q].tx == (stats[q].tx + SentTo(rxPorts, dst, sent, q, k)) % TWO_64
    ensures Flush(stats, rxPorts, dst, sent, k)[q].(tx := stats[q].tx) == stats[q]
  {
    if k > 0 {
      var m := k - 1;
      FlushEffect(stats, rxPorts, dst, sent, m, q);
      var s := Flush(stats, rxPorts, dst, sent, m);
      if dst[rxPorts[m]] == q {
        AddMod(stats[q].tx + SentTo(rxPorts, dst, sent, q, m), sent[m], s[q].tx);
      }
    }
  }

  /** A port that is no rx port's destination is not flushed. */
  lemma {:induction false} SentToNone(rxPorts: seq<PortId>, dst: seq<PortId>, sent: seq<U64>, q: PortId, k: nat)
    requires k <= |rxPorts| == |sent|
    requires |dst| == MAX_ETHPORTS
    requires forall i :: 0 <= i < k ==> dst[rxPorts[i]] != q
    ensures SentTo(rxPorts, dst, sent, q, k) == 0
  {
    if k > 0 {
      SentToNone(rxPorts, dst, sent, q, k - 1);
    }
  }

  // ---------------------------------------------------------------------
  // Forwarding one frame
  // ---------------------------------------------------------------------

  /**
   * `l2fwd_simple_forward` for a frame received on `portid`: the frame as
   * handed to the TX buffer of `l2fwd_dst_ports[portid]`, rewritten when
   * MAC updating is on, and the counters after the buffer reports `sent`
   * frames transmitted.
   */
  function SimpleForward(stats: seq<PortStats>, dst: seq<PortId>, ethAddr: seq<EtherAddr>, macUpdating: bool,
                         portid: PortId, frame: seq<u8>, sent: U64): (r: (seq<u8>, seq<PortStats>))
    requires |stats| == MAX_ETHPORTS && |dst| == MAX_ETHPORTS && |ethAddr| == MAX_ETHPORTS
    requires |frame| >= ETHER_HDR_LEN
    ensures |r.0| == |frame| && |r.1| == MAX_ETHPORTS
  {
    var d := dst[portid];
    var out := if macUpdating then MacRewrite(frame, d, ethAddr[d]) else frame;
    (out, if sent != 0 then stats[d := stats[d].(tx := Add64(stats[d].tx, sent))] else stats)
  }

  /**
   * The frame leaves with destination `02:00:00:00:00:d` and the source
   * address of port `d` when MAC updating is on, untouched otherwise, and
   * only `tx` of the destination port `d` changes, by `sent` modulo 2^64.
   */
  lemma SimpleForwardEffect(stats: seq<PortStats>, dst: seq<PortId>, ethAddr: seq<EtherAddr>, macUpdating: bool,
                            portid: PortId, frame: seq<u8>, sent: U64, q: PortId)
    requires |stats| == MAX_ETHPORTS && |dst| == MAX_ETHPORTS && |ethAddr| == MAX_ETHPORTS
    requires |frame| >= ETHER_HDR_LEN
    ensures var (out, stats') := SimpleForward(stats, dst, ethAddr, macUpdating, portid, frame, sent);
            var d := dst[portid];
            && (macUpdating ==> out[..ETHER_ADDR_LEN] == PortMac(d)
                                && out[ETHER_ADDR_LEN..2 * ETHER_ADDR_LEN] == ethAddr[d]
                                && out[2 * ETHER_ADDR_LEN..] == frame[2 * ETHER_ADDR_LEN..])
            && (!macUpdating ==> out == frame)
            && stats'[d].tx == (stats[d].tx + sent) % TWO_64
            && stats'[d].(tx := stats[d].tx) == stats[d]
            && (q != d ==> stats'[q] == stats[q])
  {
    if macUpdating {
      MacRewriteHeader(frame, dst[portid], ethAddr[dst[portid]]);
    }
  }

  // ---------------------------------------------------------------------
  // Receive
  // ---------------------------------------------------------------------

  /** The first `j` frames of one poll on port `p`: `rx += 1`, then `calc_sw_latency`, for each. */
  function RxFrames(stats: seq<PortStats>, total: U64, p: PortId, frames: seq<seq<u8>>, clocks: seq<U64>, j: nat): (r: (seq<PortStats>, U64))
    requires |stats| == MAX_ETHPORTS
    requires j <= |frames| == |clocks| && FramesFit(frames)
    ensures |r.0| == MAX_ETHPORTS
  {
    if j == 0 then (stats, total)
    else
      var before := RxFrames(stats, total, p, frames, clocks, j - 1);
      RxFrame(before.0, before.1, p, frames[j - 1], clocks[j - 1])
  }

  /** One received frame on port `p`: `rx += 1`, then `calc_sw_latency` with the clock reading `now`. */
  function RxFrame(stats: seq<PortStats>, total: U64, p: PortId, frame: seq<u8>, now: U64): (r: (seq<PortStats>, U64))
    requires |stats| == MAX_ETHPORTS
    requires |frame| >= ETHER_HDR_LEN + TSC_LEN
    ensures |r.0| == MAX_ETHPORTS
  {
    var counted := stats[p].(rx := Add64(stats[p].rx, 1));
    var measured := SwLatency(counted, total, frame, now);
    (stats[p := measured.0], measured.1)
  }

  /** One poll of port `p`: `rx_burst = nb_rx`, then each frame. */
  function RxPort(stats: seq<PortStats>, total: U64, p: PortId, frames: seq<seq<u8>>, clocks: seq<U64>): (r: (seq<PortStats>, U64))
    requires |stats| == MAX_ETHPORTS
    requires Burst(frames, clocks)
    ensures |r.0| == MAX_ETHPORTS
  {
    RxFrames(stats[p := stats[p].(rxBurst := |frames|)], total, p, frames, clocks, |frames|)
  }

  /** The receive loop over the first `k` rx ports. */
  function RxAll(stats: seq<PortStats>, total: U64, rxPorts: seq<PortId>, frames: seq<seq<seq<u8>>>, clocks: seq<seq<U64>>, k: nat): (r: (seq<PortStats>, U64))
    requires |stats| == MAX_ETHPORTS
    requires Bursts(rxPorts, frames, clocks) && k <= |rxPorts|
    ensures |r.0| == MAX_ETHPORTS
  {
    if k == 0 then (stats, total)
    else
      var before := RxAll(stats, total, rxPorts, frames, clocks, k - 1);
      RxPort(before.0, before.1, rxPorts[k - 1], frames[k - 1], clocks[k - 1])
  }

  /**
   * Frames polled on `p` raise its `rx` by their number, modulo 2^64, and
   * leave its `tx`, `dropped` and `rx_burst` and every other port alone.
   */
  lemma RxFramesCounts(stats: seq<PortStats>, total: U64, p: PortId, frames: seq<seq<u8>>, clocks: seq<U64>, j: nat, q: PortId)
    requires |stats| == MAX_ETHPORTS
    requires j <= |frames| == |clocks| && FramesFit(frames)
    ensures RxFrames(stats, total, p, frames, clocks, j).0[p].rx == (stats[p].rx + j) % TWO_64
    ensures RxFrames(stats, total, p, frames, clocks, j).0[p].tx == stats[p].tx
    ensures RxFrames(stats, total, p, frames, clocks, j).0[p].dropped == stats[p].dropped
    ensures RxFrames(stats, total, p, frames, clocks, j).0[p].rxBurst == stats[p].rxBurst
    ensures q != p ==> RxFrames(stats, total, p, frames, clocks, j).0[q] == stats[q]
  {
    RxFramesRx(stats, total, p, frames, clocks, j);
    RxFramesKeeps(stats, total, p, frames, clocks, j, q);
  }

  lemma {:induction false} RxFramesRx(stats: seq<PortStats>, total: U64, p: PortId, frames: seq<seq<u8>>, clocks: seq<U64>, j: nat)
    requires |stats| == MAX_ETHPORTS
    requires j <= |frames| == |clocks| && FramesFit(frames)
    ensures RxFrames(stats, total, p, frames, clocks, j).0[p].rx == (stats[p].rx + j) % TWO_64
  {
    if j > 0 {
      var m := j - 1;
      RxFramesRx(stats, total, p, frames, clocks, m);
      RxFrameStep(stats, total, p, frames, clocks, m, p);
      CountOne(stats[p].rx, m, RxFrames(stats, total, p, frames, clocks, m).0[p].rx);
    }
  }

  lemma {:induction false} RxFramesKeeps(stats: seq<PortStats>, total: U64, p: PortId, frames: seq<seq<u8>>, clocks: seq<U64>, j: nat, q: PortId)
    requires |stats| == MAX_ETHPORTS
    requires j <= |frames| == |clocks| && FramesFit(frames)
    ensures RxFrames(stats, total, p, frames, clocks, j).0[p].tx == stats[p].tx
    ensures RxFrames(stats, total, p, frames, clocks, j).0[p].dropped == stats[p].dropped
    ensures RxFrames(stats, total, p, frames, clocks, j).0[p].rxBurst == stats[p].rxBurst
    ensures q != p ==> RxFrames(stats, total, p, frames, clocks, j).0[q] == stats[q]
  {
    if j > 0 {
      var m := j - 1;
      RxFramesKeeps(stats, total, p, frames, clocks, m, q);
      RxFrameStep(stats, total, p, frames, clocks, m, q);
    }
  }

  /** A counter `m` steps ahead of `start` in wrapping arithmetic, raised once more, is `m + 1` steps ahead. */
  lemma CountOne(start: nat, m: nat, x: U64)
    requires x == (start + m) % TWO_64
    ensures Add64(x, 1) == (start + (m + 1)) % TWO_64
  {
    AddMod(start + m, 1, x);
  }

  /** One more frame raises `rx` of the polled port by one and changes no other counter but the latency ones. */
  lemma RxFrameStep(stats: seq<PortStats>, total: U64, p: PortId, frames: seq<seq<u8>>, clocks: seq<U64>, m: nat, q: PortId)
    requires |stats| == MAX_ETHPORTS
    requires m < |frames| == |clocks| && FramesFit(frames)
    ensures RxFrames(stats, total, p, frames, clocks, m + 1).0[p].rx == Add64(RxFrames(stats, total, p, frames, clocks, m).0[p].rx, 1)
    ensures RxFrames(stats, total, p, frames, clocks, m + 1).0[p].tx == RxFrames(stats, total, p, frames, clocks, m).0[p].tx
    ensures RxFrames(stats, total, p, frames, clocks, m + 1).0[p].dropped == RxFrames(stats, total, p, frames, clocks, m).0[p].dropped
    ensures RxFrames(stats, total, p, frames, clocks, m + 1).0[p].rxBurst == RxFrames(stats, total, p, frames, clocks, m).0[p].rxBurst
    ensures q != p ==> RxFrames(stats, total, p, frames, clocks, m + 1).0[q] == RxFrames(stats, total, p, frames, clocks, m).0[q]
  {
    var before := RxFrames(stats, total, p, frames, clocks, m);
    var counted := before.0[p].(rx := Add64(before.0[p].rx, 1));
    SwLatencyMeasures(counted, before.1, frames[m], clocks[m]);
  }

  /** Polling keeps `total_latency` equal to the sum of the `timestamp` counters, modulo 2^64. */
  lemma {:induction false} RxFramesBalanced(stats: seq<PortStats>, total: U64, p: PortId, frames: seq<seq<u8>>, clocks: seq<U64>, j: nat)
    requires |stats| == MAX_ETHPORTS
    requires j <= |frames| == |clocks| && FramesFit(frames)
    requires Balanced(stats, total)
    ensures Balanced(RxFrames(stats, total, p, frames, clocks, j).0, RxFrames(stats, total, p, frames, clocks, j).1)
  {
    if j > 0 {
      var m := j - 1;
      RxFramesBalanced(stats, total, p, frames, clocks, m);
      var before := RxFrames(stats, total, p, frames, clocks, m);
      RxFrameBalanced(before.0, before.1, p, frames[m], clocks[m]);
    }
  }

  /** One frame keeps the balance: counting it touches no latency, measuring it moves both sides alike. */
  lemma RxFrameBalanced(stats: seq<PortStats>, total: U64, p: PortId, frame: seq<u8>, now: U64)
    requires |stats| == MAX_ETHPORTS
    requires |frame| >= ETHER_HDR_LEN + TSC_LEN
    requires Balanced(stats, total)
    ensures Balanced(RxFrame(stats, total, p, frame, now).0, RxFrame(stats, total, p, frame, now).1)
  {
    var counted := stats[p].(rx := Add64(stats[p].rx, 1));
    var measured := SwLatency(counted, total, frame, now).0;
    CountersBalanced(stats, total, p, counted);
    SwLatencyBalanced(stats[p := counted], total, p, frame, now);
    assert stats[p := counted][p := measured] == stats[p := measured];
  }

  /** One poll sets `rx_burst` to the number of frames and raises `rx` by it. */
  lemma RxPortEffect(stats: seq<PortStats>, total: U64, p: PortId, frames: seq<seq<u8>>, clocks: seq<U64>, q: PortId)
    requires |stats| == MAX_ETHPORTS
    requires Burst(frames, clocks)
    ensures RxPort(stats, total, p, frames, clocks).0[p].rx == (stats[p].rx + |frames|) % TWO_64
    ensures RxPort(stats, total, p, frames, clocks).0[p].rxBurst == |frames|
    ensures RxPort(stats, total, p, frames, clocks).0[p].tx == stats[p].tx
    ensures RxPort(stats, total, p, frames, clocks).0[p].dropped == stats[p].dropped
    ensures q != p ==> RxPort(stats, total, p, frames, clocks).0[q] == stats[q]
  {
    var burst := stats[p := stats[p].(rxBurst := |frames|)];
    RxFramesCounts(burst, total, p, frames, clocks, |frames|, q);
  }

  lemma RxPortBalanced(stats: seq<PortStats>, total: U64, p: PortId, frames: seq<seq<u8>>, clocks: seq<U64>)
    requires |stats| == MAX_ETHPORTS
    requires Burst(frames, clocks)
    requires Balanced(stats, total)
    ensures Balanced(RxPort(stats, total, p, frames, clocks).0, RxPort(stats, total, p, frames, clocks).1)
  {
    var burst := stats[p := stats[p].(rxBurst := |frames|)];
    CountersBalanced(stats, total, p, burst[p]);
    RxFramesBalanced(burst, total, p, frames, clocks, |frames|);
  }

  /**
   * The receive loop over the first `k` rx ports leaves `tx` and `dropped`
   * of every port alone, and every counter of a port it does not poll.
   */
  lemma {:induction false} RxAllKeeps(stats: seq<PortStats>, total: U64, rxPorts: seq<PortId>, frames: seq<seq<seq<u8>>>, clocks: seq<seq<U64>>, k: nat, q: PortId)
    requires |stats| == MAX_ETHPORTS
    requires Bursts(rxPorts, frames, clocks) && k <= |rxPorts|
    ensures RxAll(stats, total, rxPorts, frames, clocks, k).0[q].tx == stats[q].tx
    ensures RxAll(stats, total, rxPorts, frames, clocks, k).0[q].dropped == stats[q].dropped
    ensures (forall i :: 0 <= i < k ==> rxPorts[i] != q) ==> RxAll(stats, total, rxPorts, frames, clocks, k).0[q] == stats[q]
  {
    if k > 0 {
      var m := k - 1;
      RxAllKeeps(stats, total, rxPorts, frames, clocks, m, q);
      var before := RxAll(stats, total, rxPorts, frames, clocks, m);
      RxPortEffect(before.0, before.1, rxPorts[m], frames[m], clocks[m], q);
    }
  }

  /**
   * After the receive loop over the first `k` rx ports (each listed once),
   * the `i`-th of them has `rx_burst` = its poll's size and `rx` raised by it.
   */
  lemma {:induction false} RxAllPolled(stats: seq<PortStats>, total: U64, rxPorts: seq<PortId>, frames: seq<seq<seq<u8>>>, clocks: seq<seq<U64>>, k: nat, i: nat)
    requires |stats| == MAX_ETHPORTS
    requires Bursts(rxPorts, frames, clocks) && i < k <= |rxPorts|
    requires Distinct(rxPorts)
    ensures RxAll(stats, total, rxPorts, frames, clocks, k).0[rxPorts[i]].rx == (stats[rxPorts[i]].rx + |frames[i]|) % TWO_64
    ensures RxAll(stats, total, rxPorts, frames, clocks, k).0[rxPorts[i]].rxBurst == |frames[i]|
  {
    var m := k - 1;
    if i == m {
      RxAllPolledLast(stats, total, rxPorts, frames, clocks, m);
    } else {
      RxAllPolled(stats, total, rxPorts, frames, clocks, m, i);
      var before := RxAll(stats, total, rxPorts, frames, clocks, m);
      RxPortEffect(before.0, before.1, rxPorts[m], frames[m], clocks[m], rxPorts[i]);
      assert rxPorts[i] != rxPorts[m];
    }
  }

  /** The port polled last has not been touched before its poll. */
  lemma RxAllPolledLast(stats: seq<PortStats>, total: U64, rxPorts: seq<PortId>, frames: seq<seq<seq<u8>>>, clocks: seq<seq<U64>>, m: nat)
    requires |stats| == MAX_ETHPORTS
    requires Bursts(rxPorts, frames, clocks) && m < |rxPorts|
    requires Distinct(rxPorts)
    ensures RxAll(stats, total, rxPorts, frames, clocks, m + 1).0[rxPorts[m]].rx == (stats[rxPorts[m]].rx + |frames[m]|) % TWO_64
    ensures RxAll(stats, total, rxPorts, frames, clocks, m + 1).0[rxPorts[m]].rxBurst == |frames[m]|
  {
    var before := RxAll(stats, total, rxPorts, frames, clocks, m);
    assert forall j :: 0 <= j < m ==> rxPorts[j] != rxPorts[m];
    RxAllKeeps(stats, total, rxPorts, frames, clocks, m, rxPorts[m]);
    RxPortEffect(before.0, before.1, rxPorts[m], frames[m], clocks[m], rxPorts[m]);
  }

  /** The receive loop keeps the latency balance. */
  lemma {:induction false} RxAllBalanced(stats: seq<PortStats>, total: U64, rxPorts: seq<PortId>, frames: seq<seq<seq<u8>>>, clocks: seq<seq<U64>>, k: nat)
    requires |stats| == MAX_ETHPORTS
    requires Bursts(rxPorts, frames, clocks) && k <= |rxPorts|
    requires Balanced(stats, total)
    ensures Balanced(RxAll(stats, total, rxPorts, frames, clocks, k).0, RxAll(stats, total, rxPorts, frames, clocks, k).1)
  {
    if k > 0 {
      var m := k - 1;
      RxAllBalanced(stats, total, rxPorts, frames, clocks, m);
      var s := RxAll(stats, total, rxPorts, frames, clocks, m).0;
      var t := RxAll(stats, total, rxPorts, frames, clocks, m).1;
      RxPortBalanced(s, t, rxPorts[m], frames[m], clocks[m]);
    }
  }

  // ---------------------------------------------------------------------
  // One pass
  // ---------------------------------------------------------------------

  /** The counters after the drain step of a pass: flushed when due, untouched otherwise. */
  function Drained(c: Lcore, st: LoopState, input: Poll): (r: seq<PortStats>)
    requires Shaped(c, st, input)
    ensures |r| == MAX_ETHPORTS
  {
    if DrainDue(st.prevTsc, input.cur, c.drain) then Flush(st.stats, c.rxPorts, c.dst, input.sent, |c.rxPorts|)
    else st.stats
  }

  /**
   * One pass of the loop: when more than `drain_tsc` cycles have passed
   * since `prev_tsc`, flush, advance the timer and set `prev_tsc`; then
   * poll every rx port. The flag says whether statistics were printed.
   */
  function Pass(c: Lcore, st: LoopState, input: Poll): (r: (LoopState, bool))
    requires Shaped(c, st, input)
    ensures |r.0.stats| == MAX_ETHPORTS
  {
    var due := DrainDue(st.prevTsc, input.cur, c.drain);
    var (timer, printed) :=
      if due then TimerStep(c.period, st.timerTsc, Sub64(input.cur, st.prevTsc), c.isMain) else (st.timerTsc, false);
    var prev := if due then input.cur else st.prevTsc;
    var (stats, total) := RxAll(Drained(c, st, input), st.total, c.rxPorts, input.frames, input.clocks, |c.rxPorts|);
    (LoopState(stats, total, prev, timer), printed)
  }

  /**
   * The drain schedule: `prev_tsc` moves to `cur_tsc` exactly when the
   * drain is due, the timer moves only then, and printing happens only on
   * the main lcore.
   */
  lemma PassSchedule(c: Lcore, st: LoopState, input: Poll)
    requires Shaped(c, st, input)
    ensures var (st', printed) := Pass(c, st, input);
            && st'.prevTsc == (if DrainDue(st.prevTsc, input.cur, c.drain) then input.cur else st.prevTsc)
            && (!DrainDue(st.prevTsc, input.cur, c.drain) ==> st'.timerTsc == st.timerTsc && !printed)
            && (DrainDue(st.prevTsc, input.cur, c.drain) ==>
                  (st'.timerTsc, printed) == TimerStep(c.period, st.timerTsc, Sub64(input.cur, st.prevTsc), c.isMain))
            && (printed ==> c.isMain)
  {
  }

  /**
   * The drain raises `tx` of each port by what was flushed through it when
   * due, changes no other counter, and keeps a port that is no rx port's
   * destination as it was.
   */
  lemma DrainedEffect(c: Lcore, st: LoopState, input: Poll, q: PortId)
    requires Shaped(c, st, input)
    ensures var d := Drained(c, st, input);
            && d[q].tx == (if DrainDue(st.prevTsc, input.cur, c.drain)
                           then (st.stats[q].tx + SentTo(c.rxPorts, c.dst, input.sent, q, |c.rxPorts|)) % TWO_64
                           else st.stats[q].tx)
            && d[q].(tx := st.stats[q].tx) == st.stats[q]
            && ((forall i :: 0 <= i < |c.rxPorts| ==> c.dst[c.rxPorts[i]] != q) ==> d[q] == st.stats[q])
  {
    var n := |c.rxPorts|;
    if DrainDue(st.prevTsc, input.cur, c.drain) {
      FlushEffect(st.stats, c.rxPorts, c.dst, input.sent, n, q);
      if forall i :: 0 <= i < n ==> c.dst[c.rxPorts[i]] != q {
        SentToNone(c.rxPorts, c.dst, input.sent, q, n);
      }
    }
  }

  /**
   * The counters after one pass, port by port: `tx` grows by what was
   * flushed through the port when the drain was due, `dropped` does not
   * change, and a port that is neither polled nor flushed through keeps
   * all its counters.
   */
  lemma PassCounters(c: Lcore, st: LoopState, input: Poll, q: PortId)
    requires Shaped(c, st, input)
    ensures Pass(c, st, input).0.stats[q].tx
         == if DrainDue(st.prevTsc, input.cur, c.drain)
            then (st.stats[q].tx + SentTo(c.rxPorts, c.dst, input.sent, q, |c.rxPorts|)) % TWO_64
            else st.stats[q].tx
    ensures Pass(c, st, input).0.stats[q].dropped == st.stats[q].dropped
    ensures (forall i :: 0 <= i < |c.rxPorts| ==> c.rxPorts[i] != q && c.dst[c.rxPorts[i]] != q)
            ==> Pass(c, st, input).0.stats[q] == st.stats[q]
  {
    var d := Drained(c, st, input);
    DrainedEffect(c, st, input, q);
    RxAllKeeps(d, st.total, c.rxPorts, input.frames, input.clocks, |c.rxPorts|, q);
    assert Pass(c, st, input).0.stats == RxAll(d, st.total, c.rxPorts, input.frames, input.clocks, |c.rxPorts|).0;
  }

  /** After one pass each rx port's `rx` has grown by its poll's size, and `rx_burst` is that size. */
  lemma PassPolled(c: Lcore, st: LoopState, input: Poll, i: nat)
    requires Shaped(c, st, input)
    requires Distinct(c.rxPorts)
    requires i < |c.rxPorts|
    ensures Pass(c, st, input).0.stats[c.rxPorts[i]].rx == (st.stats[c.rxPorts[i]].rx + |input.frames[i]|) % TWO_64
    ensures Pass(c, st, input).0.stats[c.rxPorts[i]].rxBurst == |input.frames[i]|
  {
    var d := Drained(c, st, input);
    DrainedEffect(c, st, input, c.rxPorts[i]);
    RxAllPolled(d, st.total, c.rxPorts, input.frames, input.clocks, |c.rxPorts|, i);
    assert Pass(c, st, input).0.stats == RxAll(d, st.total, c.rxPorts, input.frames, input.clocks, |c.rxPorts|).0;
  }

  /** One pass keeps `total_latency` equal to the sum of the `timestamp` counters, modulo 2^64. */
  lemma PassBalanced(c: Lcore, st: LoopState, input: Poll)
    requires Shaped(c, st, input)
    requires Balanced(st.stats, st.total)
    ensures Balanced(Pass(c, st, input).0.stats, Pass(c, st, input).0.total)
  {
    var d := Drained(c, st, input);
    forall p: PortId ensures d[p].timestamp == st.stats[p].timestamp {
      DrainedEffect(c, st, input, p);
    }
    SameTimestamps(st.stats, d, st.total);
    RxAllBalanced(d, st.total, c.rxPorts, input.frames, input.clocks, |c.rxPorts|);
  }

  /** Counters whose `timestamp` fields agree are balanced against the same total. */
  lemma {:induction false} SameTimestamps(stats: seq<PortStats>, other: seq<PortStats>, total: U64)
    requires |stats| == |other|
    requires forall p :: 0 <= p < |stats| ==> other[p].timestamp == stats[p].timestamp
    ensures SumTimestamps(other) == SumTimestamps(stats)
    ensures Balanced(stats, total) ==> Balanced(other, total)
  {
    if |stats| > 0 {
      var m := |stats| - 1;
      SameTimestamps(stats[..m], other[..m], total);
    }
  }

  // ---------------------------------------------------------------------
  // The whole loop
  // ---------------------------------------------------------------------

  /**
   * `l2fwd_main_loop` until `force_quit` is seen after `|passes|` passes:
   * an lcore without rx ports returns before the loop. `prev_tsc` and
   * `timer_tsc` start at 0.
   */
  function Run(c: Lcore, stats: seq<PortStats>, total: U64, passes: seq<Poll>): (r: LoopState)
    requires |c.dst| == MAX_ETHPORTS && |stats| == MAX_ETHPORTS
    requires forall k :: 0 <= k < |passes| ==> |passes[k].sent| == |c.rxPorts| && Bursts(c.rxPorts, passes[k].frames, passes[k].clocks)
    ensures |r.stats| == MAX_ETHPORTS
  {
    if |c.rxPorts| == 0 then LoopState(stats, total, 0, 0)
    else RunFrom(c, LoopState(stats, total, 0, 0), passes, |passes|)
  }

  /** The state after the first `k` passes. */
  function RunFrom(c: Lcore, st: LoopState, passes: seq<Poll>, k: nat): (r: LoopState)
    requires |c.dst| == MAX_ETHPORTS && |st.stats| == MAX_ETHPORTS
    requires k <= |passes|
    requires forall i :: 0 <= i < |passes| ==> |passes[i].sent| == |c.rxPorts| && Bursts(c.rxPorts, passes[i].frames, passes[i].clocks)
    ensures |r.stats| == MAX_ETHPORTS
  {
    if k == 0 then st
    else Pass(c, RunFrom(c, st, passes, k - 1), passes[k - 1]).0
  }

  /** An lcore with nothing to do changes nothing, whatever the inputs. */
  lemma IdleLcore(c: Lcore, stats: seq<PortStats>, total: U64, passes: seq<Poll>)
    requires |c.dst| == MAX_ETHPORTS && |stats| == MAX_ETHPORTS
    requires forall k :: 0 <= k < |passes| ==> |passes[k].sent| == |c.rxPorts| && Bursts(c.rxPorts, passes[k].frames, passes[k].clocks)
    requires c.rxPorts == []
    ensures Run(c, stats, total, passes).stats == stats && Run(c, stats, total, passes).total == total
  {
  }

  /**
   * On a single lcore, `total_latency` stays equal to the sum of the ports'
   * `timestamp` counters, modulo 2^64, over any number of passes.
   */
  lemma {:induction false} RunBalanced(c: Lcore, st: LoopState, passes: seq<Poll>, k: nat)
    requires |c.dst| == MAX_ETHPORTS && |st.stats| == MAX_ETHPORTS
    requires k <= |passes|
    requires forall i :: 0 <= i < |passes| ==> |passes[i].sent| == |c.rxPorts| && Bursts(c.rxPorts, passes[i].frames, passes[i].clocks)
    requires Balanced(st.stats, st.total)
    ensures Balanced(RunFrom(c, st, passes, k).stats, RunFrom(c, st, passes, k).total)
  {
    if k > 0 {
      var m := k - 1;
      RunBalanced(c, st, passes, m);
      PassBalanced(c, RunFrom(c, st, passes, m), passes[m]);
    }
  }

  /** From zeroed counters the balance holds after every pass of the loop. */
  lemma RunFromZero(c: Lcore, stats: seq<PortStats>, passes: seq<Poll>)
    requires |c.dst| == MAX_ETHPORTS && |stats| == MAX_ETHPORTS
    requires forall p :: 0 <= p < |stats| ==> stats[p] == ZERO_STATS
    requires forall k :: 0 <= k < |passes| ==> |passes[k].sent| == |c.rxPorts| && Bursts(c.rxPorts, passes[k].frames, passes[k].clocks)
    ensures Balanced(Run(c, stats, 0, passes).stats, Run(c, stats, 0, passes).total)
  {
    ZeroBalanced(stats);
    if |c.rxPorts| > 0 {
      RunBalanced(c, LoopState(stats, 0, 0, 0), passes, |passes|);
    }
  }
}
