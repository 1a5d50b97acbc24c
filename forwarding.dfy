/**
 * The destination-port table `l2fwd_dst_ports` that `main` fills before
 * the lcores start: from the `--portmap` pairs when they were given,
 * otherwise by pairing the enabled ports in ascending order.
 */
module Forwarding {
  import opened Ports
  import opened PairCheck

  /** The table after the reset loop: every entry 0. */
  function Zeros(): (t: seq<PortId>)
    ensures |t| == MAX_ETHPORTS
    ensures forall x :: 0 <= x < |t| ==> t[x] == 0
  {
    seq(MAX_ETHPORTS, _ => 0 as PortId)
  }

  // ---------------------------------------------------------------------
  // Explicit pairs (`--portmap`)
  // ---------------------------------------------------------------------

  /** The port written by step `idx` of the pair loop: `port[idx & 1]` of pair `idx >> 1`. */
  function Source(pairs: seq<PortPair>, idx: nat): PortId
    requires idx < 2 * |pairs|
  {
    if idx % 2 == 0 then pairs[idx / 2].a else pairs[idx / 2].b
  }

  /** The value written by step `idx`: `port[(idx & 1) ^ 1]` of the same pair. */
  function Target(pairs: seq<PortPair>, idx: nat): PortId
    requires idx < 2 * |pairs|
  {
    if idx % 2 == 0 then pairs[idx / 2].b else pairs[idx / 2].a
  }

  /** The table after the first `k` steps of the pair loop. */
  function ExplicitTable(pairs: seq<PortPair>, k: nat): (t: seq<PortId>)
    requires k <= 2 * |pairs|
    ensures |t| == MAX_ETHPORTS
  {
    if k == 0 then Zeros()
    else ExplicitTable(pairs, k - 1)[Source(pairs, k - 1) := Target(pairs, k - 1)]
  }

  /** No two pairs share a port: what a successful `check_port_pair_config` guarantees. */
  predicate Disjoint(pairs: seq<PortPair>) {
    forall i, j :: 0 <= i < j < |pairs| ==> !Shares(pairs[i], pairs[j])
  }

  /** An accepted pair list is disjoint. */
  lemma AcceptedDisjoint(valid: set<nat>, mask: bv32, pairs: seq<PortPair>)
    requires CheckPairs(valid, mask, pairs).Some?
    ensures Disjoint(pairs)
  {
    CheckPairsExact(valid, mask, pairs);
  }

  /** Two steps that write the same port write the same value, when the pairs are disjoint. */
  lemma SameSourceSameTarget(pairs: seq<PortPair>, i: nat, j: nat)
    requires Disjoint(pairs)
    requires i < j < 2 * |pairs|
    requires Source(pairs, i) == Source(pairs, j)
    ensures Target(pairs, i) == Target(pairs, j)
  {
    if i / 2 != j / 2 {
      assert Shares(pairs[i / 2], pairs[j / 2]);
    }
  }

  /**
   * Entry `x` after `k` steps: 0 when no step has written it, otherwise
   * what every step that wrote it wrote.
   */
  lemma {:induction false} ExplicitEntry(pairs: seq<PortPair>, k: nat, x: PortId)
    requires Disjoint(pairs)
    requires k <= 2 * |pairs|
    ensures (forall j :: 0 <= j < k ==> Source(pairs, j) != x) ==> ExplicitTable(pairs, k)[x] == 0
    ensures forall j :: 0 <= j < k && Source(pairs, j) == x ==> ExplicitTable(pairs, k)[x] == Target(pairs, j)
  {
    if k > 0 {
      var m := k - 1;
      ExplicitEntry(pairs, m, x);
      var prev := ExplicitTable(pairs, m);
      assert ExplicitTable(pairs, k) == prev[Source(pairs, m) := Target(pairs, m)];
      if Source(pairs, m) == x {
        forall j | 0 <= j < m && Source(pairs, j) == x
          ensures Target(pairs, j) == Target(pairs, m)
        {
          SameSourceSameTarget(pairs, j, m);
        }
      }
    }
  }

  /**
   * After the whole pair loop over disjoint pairs, each pair's ports point at
   * each other, ports no pair names stay 0, and following the table twice
   * from a pair port comes back to it.
   */
  lemma ExplicitTableExact(pairs: seq<PortPair>, i: nat, x: PortId)
    requires Disjoint(pairs)
    requires i < |pairs|
    ensures ExplicitTable(pairs, 2 * |pairs|)[pairs[i].a] == pairs[i].b
    ensures ExplicitTable(pairs, 2 * |pairs|)[pairs[i].b] == pairs[i].a
    ensures !Named(pairs, x) ==> ExplicitTable(pairs, 2 * |pairs|)[x] == 0
  {
    var n := 2 * |pairs|;
    ExplicitEntry(pairs, n, pairs[i].a);
    ExplicitEntry(pairs, n, pairs[i].b);
    assert (2 * i) % 2 == 0 && (2 * i) / 2 == i;
    assert (2 * i + 1) % 2 == 1 && (2 * i + 1) / 2 == i;
    assert Source(pairs, 2 * i) == pairs[i].a;
    assert Source(pairs, 2 * i + 1) == pairs[i].b;
    ExplicitEntry(pairs, n, x);
    if !Named(pairs, x) {
      forall j | 0 <= j < n ensures Source(pairs, j) != x {
        assert j / 2 < |pairs|;
      }
    }
  }

  /** Forwarding is symmetric: a frame sent back from the destination returns to its origin port. */
  lemma ExplicitTableInvolution(pairs: seq<PortPair>, i: nat)
    requires Disjoint(pairs)
    requires i < |pairs|
    ensures var t := ExplicitTable(pairs, 2 * |pairs|);
            t[t[pairs[i].a]] == pairs[i].a && t[t[pairs[i].b]] == pairs[i].b
  {
    ExplicitTableExact(pairs, i, 0);
  }

  // ---------------------------------------------------------------------
  // Default pairing of the enabled ports
  // ---------------------------------------------------------------------

  /** The loop state: the table, `nb_ports_in_mask` and `last_port`. */
  datatype Pairing = Pairing(table: seq<PortId>, count: nat, last: PortId)

  /** One turn of the default loop for enabled port `x`. */
  function PairStep(s: Pairing, x: PortId): (r: Pairing)
    requires |s.table| == MAX_ETHPORTS
    ensures |r.table| == MAX_ETHPORTS
  {
    if s.count % 2 == 1 then Pairing(s.table[x := s.last][s.last := x], s.count + 1, s.last)
    else Pairing(s.table, s.count + 1, x)
  }

  /** The loop state after visiting the enabled ports `ports`, in order. */
  function PairFold(ports: seq<PortId>): (s: Pairing)
    ensures |s.table| == MAX_ETHPORTS
  {
    if |ports| == 0 then Pairing(Zeros(), 0, 0)
    else PairStep(PairFold(ports[..|ports| - 1]), ports[|ports| - 1])
  }

  /** The finished table: with an odd number of ports the last one forwards to itself. */
  function DefaultTable(ports: seq<PortId>): (t: seq<PortId>)
    ensures |t| == MAX_ETHPORTS
  {
    var s := PairFold(ports);
    if s.count % 2 == 1 then s.table[s.last := s.last] else s.table
  }

  /** The `Notice: odd number of ports` branch is taken. */
  predicate OddNotice(ports: seq<PortId>) {
    PairFold(ports).count % 2 == 1
  }

  /**
   * The position `k` is paired with among `n` ports: 0 with 1, 2 with 3 and
   * so on; an unpaired last position is paired with itself.
   */
  function Partner(n: nat, k: nat): (j: nat)
    requires k < n
    ensures j < n
  {
    if k % 2 == 1 then k - 1 else if k + 1 < n then k + 1 else k
  }

  /** Pairing is an involution on positions. */
  lemma PartnerInvolution(n: nat, k: nat)
    requires k < n
    ensures Partner(n, Partner(n, k)) == k
  {
  }

  /** A position is its own partner only when it is the last of an odd count. */
  lemma PartnerSelf(n: nat, k: nat)
    requires k < n
    ensures Partner(n, k) == k <==> n % 2 == 1 && k == n - 1
  {
  }

  lemma PrefixOfSnoc(ports: seq<PortId>, x: PortId)
    ensures (ports + [x])[..|ports|] == ports
  {
  }

  /** The counter counts the ports, and after an odd count `last_port` is the last one. */
  lemma {:induction false} FoldCounter(ports: seq<PortId>)
    ensures PairFold(ports).count == |ports|
    ensures |ports| % 2 == 1 ==> PairFold(ports).last == ports[|ports| - 1]
  {
    if |ports| > 0 {
      FoldCounter(ports[..|ports| - 1]);
    }
  }

  /** A port that was not visited keeps entry 0. */
  lemma {:induction false} FoldOutside(ports: seq<PortId>, y: PortId)
    requires y !in ports
    ensures PairFold(ports).table[y] == 0
  {
    if |ports| > 0 {
      var init := ports[..|ports| - 1];
      FoldCounter(init);
      assert y !in init by {
        assert forall i :: 0 <= i < |init| ==> init[i] == ports[i];
      }
      FoldOutside(init, y);
    }
  }

  /**
   * Entry of the `k`-th visited port before the odd fix-up: its partner
   * position, or 0 when it is the unpaired last one.
   */
  lemma {:induction false} FoldEntry(ports: seq<PortId>, k: nat)
    requires Distinct(ports)
    requires k < |ports|
    ensures PairFold(ports).table[ports[k]]
         == if k % 2 == 0 && k + 1 == |ports| then 0 else ports[Partner(|ports|, k)]
  {
    var m := |ports| - 1;
    if k < m {
      var init := ports[..m];
      assert forall i :: 0 <= i < m ==> init[i] == ports[i];
      FoldEntry(init, k);
      FoldEntryBefore(ports, k);
    } else {
      FoldEntryLast(ports);
    }
  }

  /** The last port visited: paired with the one before it after an even count, unpaired otherwise. */
  lemma FoldEntryLast(ports: seq<PortId>)
    requires Distinct(ports)
    requires |ports| > 0
    ensures PairFold(ports).table[ports[|ports| - 1]] == if (|ports| - 1) % 2 == 0 then 0 else ports[|ports| - 2]
  {
    var m := |ports| - 1;
    var init := ports[..m];
    FoldLastState(ports);
    PairStepTable(PairFold(init), ports[m], ports[m]);
    if m % 2 == 0 {
      assert ports[m] !in init by {
        assert forall i :: 0 <= i < m ==> init[i] == ports[i];
      }
      FoldOutside(init, ports[m]);
    }
  }

  /**
   * Visiting one more port changes the entry of an earlier port only when
   * it completes that port's pair.
   */
  lemma FoldEntryBefore(ports: seq<PortId>, k: nat)
    requires Distinct(ports)
    requires k + 1 < |ports|
    ensures PairFold(ports).table[ports[k]]
         == if (|ports| - 1) % 2 == 1 && k == |ports| - 2 then ports[|ports| - 1]
            else PairFold(ports[..|ports| - 1]).table[ports[k]]
  {
    var m := |ports| - 1;
    FoldLastState(ports);
    PairStepTable(PairFold(ports[..m]), ports[m], ports[k]);
  }

  /** The state before the last port: the last turn, the count, and `last_port` after an odd count. */
  lemma FoldLastState(ports: seq<PortId>)
    requires |ports| > 0
    ensures PairFold(ports) == PairStep(PairFold(ports[..|ports| - 1]), ports[|ports| - 1])
    ensures PairFold(ports[..|ports| - 1]).count == |ports| - 1
    ensures (|ports| - 1) % 2 == 1 ==> PairFold(ports[..|ports| - 1]).last == ports[|ports| - 2]
  {
    FoldBeforeLast(ports);
  }

  lemma FoldBeforeLast(ports: seq<PortId>)
    requires |ports| > 0
    ensures PairFold(ports[..|ports| - 1]).count == |ports| - 1
    ensures (|ports| - 1) % 2 == 1 ==> PairFold(ports[..|ports| - 1]).last == ports[|ports| - 2]
  {
    var m := |ports| - 1;
    var init := ports[..m];
    FoldCounter(init);
    if m % 2 == 1 {
      assert |init| % 2 == 1;
      assert PairFold(init).last == init[|init| - 1];
      assert init[m - 1] == ports[m - 1];
    }
  }

  /** The entry of `y` after one turn: a completed pair points its two ports at each other. */
  lemma PairStepTable(s: Pairing, x: PortId, y: PortId)
    requires |s.table| == MAX_ETHPORTS
    ensures PairStep(s, x).table[y]
         == if s.count % 2 == 1 && y == s.last then x
            else if s.count % 2 == 1 && y == x then s.last
            else s.table[y]
  {
  }

  /**
   * The default table pairs the `k`-th enabled port with its partner
   * position: the 1st with the 2nd, the 3rd with the 4th and so on, an
   * odd last port with itself.
   */
  lemma DefaultTableEntry(ports: seq<PortId>, k: nat)
    requires Distinct(ports)
    requires k < |ports|
    ensures DefaultTable(ports)[ports[k]] == ports[Partner(|ports|, k)]
  {
    FoldCounter(ports);
    FoldEntry(ports, k);
  }

  /** Ports that are not enabled keep destination 0. */
  lemma DefaultTableOutside(ports: seq<PortId>, y: PortId)
    requires y !in ports
    ensures DefaultTable(ports)[y] == 0
  {
    FoldCounter(ports);
    FoldOutside(ports, y);
  }

  /**
   * Following the default table twice comes back to the start, and a port
   * forwards to itself exactly when it is the last of an odd count, the case
   * the notice reports.
   */
  lemma DefaultTableSymmetric(ports: seq<PortId>, k: nat)
    requires Distinct(ports)
    requires k < |ports|
    ensures var t := DefaultTable(ports); t[t[ports[k]]] == ports[k]
    ensures DefaultTable(ports)[ports[k]] == ports[k] <==> OddNotice(ports) && k == |ports| - 1
  {
    var j := Partner(|ports|, k);
    DefaultTableEntry(ports, k);
    DefaultTableEntry(ports, j);
    PartnerInvolution(|ports|, k);
    PartnerSelf(|ports|, k);
    FoldCounter(ports);
  }
}
