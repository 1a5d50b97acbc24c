/**
 * How `main` hands the enabled ports to the logical cores: each port goes
 * to the lowest enabled lcore, at or after the current one, whose receive
 * list is not yet full (`l2fwd_rx_queue_per_lcore` ports per lcore).
 */
module Lcores {
  import opened Wrappers
  import opened Ports

  /** RTE_MAX_LCORE in the default DPDK build configuration. */
  const MAX_LCORE: nat := 128

  /**
   * The assignment loop's state: each lcore's `rx_port_list[..n_rx_port]`,
   * `rx_lcore_id`, `qconf` (None for NULL, otherwise the lcore it points
   * at) and `nb_lcores`.
   */
  datatype Placement = Placement(conf: seq<seq<PortId>>, rx: nat, qconf: Option<nat>, nbLcores: nat)

  /** Before the loop: empty lists, `rx_lcore_id = 0`, `qconf = NULL`, `nb_lcores = 0`. */
  function Initial(): (s: Placement)
    ensures |s.conf| == MAX_LCORE && s.rx < MAX_LCORE
  {
    Placement(seq(MAX_LCORE, _ => []), 0, None, 0)
  }

  /**
   * The `while` loop that picks the lcore: the first lcore from `rx` on
   * that is enabled and whose list is not full; None when `rx_lcore_id`
   * reaches RTE_MAX_LCORE ("Not enough cores").
   */
  function Seek(lcores: set<nat>, qpl: nat, conf: seq<seq<PortId>>, rx: nat): (r: Option<nat>)
    requires |conf| == MAX_LCORE && rx < MAX_LCORE
    ensures r.Some? ==> rx <= r.value < MAX_LCORE && r.value in lcores && |conf[r.value]| != qpl
    ensures r.Some? ==> forall l :: rx <= l < r.value ==> l !in lcores || |conf[l]| == qpl
    ensures r.None? ==> forall l :: rx <= l < MAX_LCORE ==> l !in lcores || |conf[l]| == qpl
    decreases MAX_LCORE - rx
  {
    if rx in lcores && |conf[rx]| != qpl then Some(rx)
    else if rx + 1 >= MAX_LCORE then None
    else Seek(lcores, qpl, conf, rx + 1)
  }

  /** One turn of the port loop: place port `x`, or None when the program exits. */
  function Place(lcores: set<nat>, qpl: nat, s: Placement, x: PortId): (r: Option<Placement>)
    requires |s.conf| == MAX_LCORE && s.rx < MAX_LCORE
    ensures r.Some? ==> |r.value.conf| == MAX_LCORE && r.value.rx < MAX_LCORE
  {
    match Seek(lcores, qpl, s.conf, s.rx)
    case None => None
    case Some(l) =>
      var nb := if s.qconf != Some(l) then s.nbLcores + 1 else s.nbLcores;
      Some(Placement(s.conf[l := s.conf[l] + [x]], l, Some(l), nb))
  }

  /** The state after placing `ports` in order, or None once the program has exited. */
  function PlaceAll(lcores: set<nat>, qpl: nat, ports: seq<PortId>): (r: Option<Placement>)
    ensures r.Some? ==> |r.value.conf| == MAX_LCORE && r.value.rx < MAX_LCORE
  {
    if |ports| == 0 then Some(Initial())
    else match PlaceAll(lcores, qpl, ports[..|ports| - 1])
      case None => None
      case Some(s) => Place(lcores, qpl, s, ports[|ports| - 1])
  }

  /** The receive lists of lcores `0 .. k-1`, concatenated in lcore order. */
  function Flatten(conf: seq<seq<PortId>>, k: nat): seq<PortId>
    requires k <= |conf|
  {
    if k == 0 then [] else Flatten(conf, k - 1) + conf[k - 1]
  }

  /** The number of enabled lcores below `k`. */
  function CountEnabled(lcores: set<nat>, k: nat): nat {
    if k == 0 then 0 else CountEnabled(lcores, k - 1) + (if k - 1 in lcores then 1 else 0)
  }

  /** The number of lcores below `k` that received a port. */
  function CountUsed(conf: seq<seq<PortId>>, k: nat): nat
    requires k <= |conf|
  {
    if k == 0 then 0 else CountUsed(conf, k - 1) + (if conf[k - 1] != [] then 1 else 0)
  }

  /**
   * What the loop keeps true after placing `placed`: read in lcore order the
   * lists hold exactly the placed ports; the enabled lcores before the
   * current one are full; disabled lcores and those after the current one
   * are empty; `qconf` is NULL only before the first port; `nb_lcores`
   * counts the lcores that received a port.
   */
  predicate Layout(lcores: set<nat>, qpl: nat, s: Placement, placed: seq<PortId>) {
    && |s.conf| == MAX_LCORE && s.rx < MAX_LCORE
    && Flatten(s.conf, MAX_LCORE) == placed
    && (forall l :: 0 <= l < s.rx && l in lcores ==> |s.conf[l]| == qpl)
    && (forall l :: 0 <= l < MAX_LCORE && (l !in lcores || l > s.rx) ==> s.conf[l] == [])
    && |s.conf[s.rx]| <= qpl
    && (s.qconf.None? ==> placed == [] && forall l :: 0 <= l < MAX_LCORE ==> s.conf[l] == [])
    && (s.qconf.Some? ==> s.qconf == Some(s.rx) && s.conf[s.rx] != [])
    && s.nbLcores == CountUsed(s.conf, MAX_LCORE)
  }

  // ---------------------------------------------------------------------
  // Lemmas about the lists
  // ---------------------------------------------------------------------

  lemma {:induction false} FlattenSame(c1: seq<seq<PortId>>, c2: seq<seq<PortId>>, k: nat)
    requires k <= |c1| && k <= |c2|
    requires forall l :: 0 <= l < k ==> c1[l] == c2[l]
    ensures Flatten(c1, k) == Flatten(c2, k)
  {
    if k > 0 {
      FlattenSame(c1, c2, k - 1);
    }
  }

  lemma {:induction false} FlattenEmptyFrom(c: seq<seq<PortId>>, k: nat, n: nat)
    requires k <= n <= |c|
    requires forall l :: k <= l < n ==> c[l] == []
    ensures Flatten(c, n) == Flatten(c, k)
    decreases n
  {
    if n > k {
      FlattenEmptyFrom(c, k, n - 1);
      assert Flatten(c, n) == Flatten(c, n - 1) + [];
    }
  }

  lemma Associate<T>(x: seq<T>, y: seq<T>, z: seq<T>)
    ensures x + (y + z) == (x + y) + z
  {
  }

  /** Appending to lcore `l`'s list, when every later list is empty, appends to the flattened lists. */
  lemma FlattenAppend(c: seq<seq<PortId>>, l: nat, x: PortId)
    requires |c| == MAX_LCORE && l < MAX_LCORE
    requires forall j :: l < j < MAX_LCORE ==> c[j] == []
    ensures Flatten(c[l := c[l] + [x]], MAX_LCORE) == Flatten(c, MAX_LCORE) + [x]
  {
    var c' := c[l := c[l] + [x]];
    FlattenEmptyFrom(c, l + 1, MAX_LCORE);
    FlattenEmptyFrom(c', l + 1, MAX_LCORE);
    FlattenSame(c, c', l);
    assert Flatten(c', l + 1) == Flatten(c, l) + (c[l] + [x]);
    Associate(Flatten(c, l), c[l], [x]);
  }

  lemma {:induction false} CountUsedUpdate(c: seq<seq<PortId>>, l: nat, v: seq<PortId>, k: nat)
    requires l < |c| && k <= |c| && v != []
    ensures CountUsed(c[l := v], k) == CountUsed(c, k) + (if l < k && c[l] == [] then 1 else 0)
  {
    if k > 0 {
      CountUsedUpdate(c, l, v, k - 1);
    }
  }

  lemma MulStep(q: nat, a: nat)
    ensures q * (a + 1) == q * a + q
  {
  }

  lemma MulMono(q: nat, a: nat, b: nat)
    requires a <= b
    ensures q * a <= q * b
  {
  }

  lemma {:induction false} CountEnabledMono(lcores: set<nat>, a: nat, b: nat)
    requires a <= b
    ensures CountEnabled(lcores, a) <= CountEnabled(lcores, b)
    decreases b
  {
    if a < b {
      CountEnabledMono(lcores, a, b - 1);
    }
  }

  lemma {:induction false} CountEnabledTail(lcores: set<nat>, k: nat, n: nat)
    requires k <= n
    requires forall l :: k <= l < n ==> l !in lcores
    ensures CountEnabled(lcores, n) == CountEnabled(lcores, k)
    decreases n
  {
    if k < n {
      CountEnabledTail(lcores, k, n - 1);
    }
  }

  /** The lcores before the current one hold `qpl` ports each if enabled and none otherwise. */
  lemma {:induction false} FlattenLength(lcores: set<nat>, qpl: nat, c: seq<seq<PortId>>, k: nat)
    requires k <= |c|
    requires forall l :: 0 <= l < k && l in lcores ==> |c[l]| == qpl
    requires forall l :: 0 <= l < k && l !in lcores ==> c[l] == []
    ensures |Flatten(c, k)| == qpl * CountEnabled(lcores, k)
  {
    if k > 0 {
      var m := k - 1;
      FlattenLength(lcores, qpl, c, m);
      MulStep(qpl, CountEnabled(lcores, m));
    }
  }

  /** The number of ports placed so far, counted from the layout. */
  lemma PlacedCount(lcores: set<nat>, qpl: nat, s: Placement, placed: seq<PortId>)
    requires Layout(lcores, qpl, s, placed)
    ensures |placed| == qpl * CountEnabled(lcores, s.rx) + |s.conf[s.rx]|
    ensures |placed| <= qpl * CountEnabled(lcores, MAX_LCORE)
  {
    FlattenEmptyFrom(s.conf, s.rx + 1, MAX_LCORE);
    FlattenLength(lcores, qpl, s.conf, s.rx);
    MulStep(qpl, CountEnabled(lcores, s.rx));
    CountEnabledMono(lcores, s.rx + 1, MAX_LCORE);
    MulMono(qpl, CountEnabled(lcores, s.rx + 1), CountEnabled(lcores, MAX_LCORE));
    MulMono(qpl, CountEnabled(lcores, s.rx), CountEnabled(lcores, s.rx + 1));
  }

  /** Placing one more port keeps the layout when a lcore is found. */
  lemma PlaceKeepsLayout(lcores: set<nat>, qpl: nat, s: Placement, placed: seq<PortId>, x: PortId)
    requires 1 <= qpl
    requires Layout(lcores, qpl, s, placed)
    requires Place(lcores, qpl, s, x).Some?
    ensures Layout(lcores, qpl, Place(lcores, qpl, s, x).value, placed + [x])
  {
    var l := Seek(lcores, qpl, s.conf, s.rx).value;
    var v := s.conf[l] + [x];
    var c := s.conf[l := v];
    var t := Place(lcores, qpl, s, x).value;
    assert t.conf == c && t.rx == l && t.qconf == Some(l);
    // Enabled lcores strictly between the current one and `l` would be empty and so not full.
    assert forall j :: s.rx < j < l ==> j !in lcores;
    FlattenAppend(s.conf, l, x);
    CountUsedUpdate(s.conf, l, v, MAX_LCORE);
    assert |s.conf[l]| < qpl;
  }

  /** No lcore is found exactly when every enabled lcore is full. */
  lemma PlaceFails(lcores: set<nat>, qpl: nat, s: Placement, placed: seq<PortId>, x: PortId)
    requires 1 <= qpl
    requires Layout(lcores, qpl, s, placed)
    ensures Place(lcores, qpl, s, x).None? <==> |placed| == qpl * CountEnabled(lcores, MAX_LCORE)
  {
    PlacedCount(lcores, qpl, s, placed);
    var cap := qpl * CountEnabled(lcores, MAX_LCORE);
    if Place(lcores, qpl, s, x).None? {
      assert forall j :: s.rx < j < MAX_LCORE ==> j !in lcores;
      CountEnabledTail(lcores, s.rx + 1, MAX_LCORE);
      MulStep(qpl, CountEnabled(lcores, s.rx));
    } else {
      PlaceKeepsLayout(lcores, qpl, s, placed, x);
      PlacedCount(lcores, qpl, Place(lcores, qpl, s, x).value, placed + [x]);
    }
  }

  /**
   * The assignment succeeds exactly when the enabled lcores can take all
   * ports at `qpl` each, and then it leaves the lists in the layout above.
   */
  lemma {:induction false} PlaceAllExact(lcores: set<nat>, qpl: nat, ports: seq<PortId>)
    requires 1 <= qpl
    ensures PlaceAll(lcores, qpl, ports).Some? <==> |ports| <= qpl * CountEnabled(lcores, MAX_LCORE)
    ensures PlaceAll(lcores, qpl, ports).Some? ==> Layout(lcores, qpl, PlaceAll(lcores, qpl, ports).value, ports)
  {
    if |ports| == 0 {
      var s := Initial();
      assert Flatten(s.conf, MAX_LCORE) == [] by {
        FlattenEmptyFrom(s.conf, 0, MAX_LCORE);
      }
      CountUsedNone(s.conf, MAX_LCORE);
    } else {
      var m := |ports| - 1;
      var init := ports[..m];
      assert ports == init + [ports[m]];
      PlaceAllExact(lcores, qpl, init);
      var prev := PlaceAll(lcores, qpl, init);
      if prev.Some? {
        PlaceFails(lcores, qpl, prev.value, init, ports[m]);
        if Place(lcores, qpl, prev.value, ports[m]).Some? {
          PlaceKeepsLayout(lcores, qpl, prev.value, init, ports[m]);
        }
        PlacedCount(lcores, qpl, prev.value, init);
      }
    }
  }

  lemma {:induction false} CountUsedNone(c: seq<seq<PortId>>, k: nat)
    requires k <= |c|
    requires forall l :: 0 <= l < k ==> c[l] == []
    ensures CountUsed(c, k) == 0
  {
    if k > 0 {
      CountUsedNone(c, k - 1);
    }
  }

  /**
   * After a successful assignment every lcore holds at most `qpl` ports,
   * only enabled lcores hold any, and `nb_lcores` counts the lcores used.
   */
  lemma PlacementBounds(lcores: set<nat>, qpl: nat, ports: seq<PortId>, l: nat)
    requires 1 <= qpl
    requires PlaceAll(lcores, qpl, ports).Some?
    requires l < MAX_LCORE
    ensures |PlaceAll(lcores, qpl, ports).value.conf[l]| <= qpl
    ensures PlaceAll(lcores, qpl, ports).value.conf[l] != [] ==> l in lcores
    ensures PlaceAll(lcores, qpl, ports).value.nbLcores == CountUsed(PlaceAll(lcores, qpl, ports).value.conf, MAX_LCORE)
  {
    PlaceAllExact(lcores, qpl, ports);
  }

  /** Once the program has exited, the ports after that change nothing. */
  lemma {:induction false} PlaceAllStops(lcores: set<nat>, qpl: nat, xs: seq<PortId>, ys: seq<PortId>)
    requires PlaceAll(lcores, qpl, xs).None?
    ensures PlaceAll(lcores, qpl, xs + ys).None?
    decreases |ys|
  {
    if |ys| > 0 {
      var m := |ys| - 1;
      PlaceAllStops(lcores, qpl, xs, ys[..m]);
      assert (xs + ys)[..|xs + ys| - 1] == xs + ys[..m];
    } else {
      assert xs + ys == xs;
    }
  }

  /** Placing one more port: the loop's state after `xs`, then one more turn. */
  lemma PlaceAllSnoc(lcores: set<nat>, qpl: nat, xs: seq<PortId>, x: PortId)
    ensures PlaceAll(lcores, qpl, xs + [x])
         == match PlaceAll(lcores, qpl, xs)
            case None => None
            case Some(s) => Place(lcores, qpl, s, x)
  {
    assert (xs + [x])[..|xs|] == xs;
  }

  /** Once the program has exited at an enabled port, it has exited for all the enabled ports. */
  lemma PlaceAllEnabledStops(lcores: set<nat>, qpl: nat, valid: set<nat>, mask: bv32, n: nat)
    requires n <= MAX_ETHPORTS
    requires PlaceAll(lcores, qpl, EnabledBelow(valid, mask, n)).None?
    ensures PlaceAll(lcores, qpl, EnabledPorts(valid, mask)).None?
  {
    PlaceAllStops(lcores, qpl, EnabledBelow(valid, mask, n), EnabledFrom(valid, mask, n));
    EnabledSplit(valid, mask, n);
  }

  // ---------------------------------------------------------------------
  // No port twice
  // ---------------------------------------------------------------------

  /** The two halves of a repeat-free sequence repeat nothing and share nothing. */
  lemma DistinctSplit(a: seq<PortId>, b: seq<PortId>)
    requires Distinct(a + b)
    ensures Distinct(a) && Distinct(b)
    ensures forall x :: x in a ==> x !in b
  {
    forall i, j | 0 <= i < j < |a| ensures a[i] != a[j] {
      assert (a + b)[i] == a[i] && (a + b)[j] == a[j];
    }
    forall i, j | 0 <= i < j < |b| ensures b[i] != b[j] {
      assert (a + b)[|a| + i] == b[i] && (a + b)[|a| + j] == b[j];
    }
    forall i, j | 0 <= i < |a| && 0 <= j < |b| ensures a[i] != b[j] {
      assert (a + b)[i] == a[i] && (a + b)[|a| + j] == b[j];
    }
  }

  /** Every port on an lcore below `k` is in the concatenated lists. */
  lemma {:induction false} FlattenContains(conf: seq<seq<PortId>>, k: nat, l: nat, x: PortId)
    requires k <= |conf| && l < k && x in conf[l]
    ensures x in Flatten(conf, k)
  {
    if l < k - 1 {
      FlattenContains(conf, k - 1, l, x);
    }
  }

  /** Lists whose concatenation repeats no port: none repeats a port, and no two share one. */
  lemma {:induction false} FlattenDistinct(conf: seq<seq<PortId>>, k: nat, l: nat, m: nat, x: PortId)
    requires k <= |conf| && Distinct(Flatten(conf, k))
    requires l < k && m < k
    ensures Distinct(conf[l])
    ensures l != m && x in conf[l] ==> x !in conf[m]
  {
    DistinctSplit(Flatten(conf, k - 1), conf[k - 1]);
    if l < k - 1 {
      FlattenDistinct(conf, k - 1, l, if m < k - 1 then m else l, x);
      if x in conf[l] {
        FlattenContains(conf, k - 1, l, x);
      }
    }
    if m < k - 1 && x in conf[m] {
      FlattenContains(conf, k - 1, m, x);
    }
  }

  /**
   * After a successful assignment every lcore's `rx_port_list` holds enabled
   * ports, none twice, and no port is on two lcores.
   */
  lemma PlacedListsDistinct(lcores: set<nat>, qpl: nat, valid: set<nat>, mask: bv32, l: nat, m: nat, x: PortId)
    requires 1 <= qpl
    requires PlaceAll(lcores, qpl, EnabledPorts(valid, mask)).Some?
    requires l < MAX_LCORE && m < MAX_LCORE
    ensures Distinct(PlaceAll(lcores, qpl, EnabledPorts(valid, mask)).value.conf[l])
    ensures x in PlaceAll(lcores, qpl, EnabledPorts(valid, mask)).value.conf[l] ==> IsEnabled(valid, mask, x)
    ensures l != m && x in PlaceAll(lcores, qpl, EnabledPorts(valid, mask)).value.conf[l]
            ==> x !in PlaceAll(lcores, qpl, EnabledPorts(valid, mask)).value.conf[m]
  {
    var conf := PlaceAll(lcores, qpl, EnabledPorts(valid, mask)).value.conf;
    PlaceAllExact(lcores, qpl, EnabledPorts(valid, mask));
    EnabledDistinct(valid, mask);
    FlattenDistinct(conf, MAX_LCORE, l, m, x);
    EnabledFromExact(valid, mask, 0);
    if x in conf[l] {
      FlattenContains(conf, MAX_LCORE, l, x);
    }
  }
}
