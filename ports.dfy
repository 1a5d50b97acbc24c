/**
 * Port identities and the 32-bit enabled-port mask of the listener
 * (`l2fwd_enabled_port_mask`), with the bit arithmetic the source does on it.
 */
module Ports {
  /** RTE_MAX_ETHPORTS in the default DPDK build configuration. */
  const MAX_ETHPORTS: nat := 32
  /** Capacity of `port_pair_params_array`. */
  const MAX_PAIRS: nat := MAX_ETHPORTS / 2

  type PortId = p: nat | p < MAX_ETHPORTS

  /** `struct port_pair_params`: `port[0]` is `a`, `port[1]` is `b`. */
  datatype PortPair = PortPair(a: PortId, b: PortId)

  /** `1 << portid` */
  function Bit(p: PortId): bv32 {
    1 << p
  }

  /** `(mask & (1 << p)) != 0`: port `p` is enabled in `mask`. */
  predicate InMask(mask: bv32, p: PortId) {
    mask & Bit(p) != 0
  }

  /** A port is enabled when the device exists and its bit is set. */
  predicate IsEnabled(valid: set<nat>, mask: bv32, p: PortId) {
    p in valid && InMask(mask, p)
  }

  /**
   * The enabled ports from `from` upward, in ascending id order: the ports
   * that `RTE_ETH_FOREACH_DEV` visits and the mask test does not skip.
   */
  function EnabledFrom(valid: set<nat>, mask: bv32, from: nat): (ports: seq<PortId>)
    requires from <= MAX_ETHPORTS
    decreases MAX_ETHPORTS - from
  {
    if from == MAX_ETHPORTS then []
    else
      var rest := EnabledFrom(valid, mask, from + 1);
      if IsEnabled(valid, mask, from) then [from as PortId] + rest else rest
  }

  /** A strictly ascending list of distinct ports, each enabled. */
  predicate AscendingEnabled(valid: set<nat>, mask: bv32, ports: seq<PortId>) {
    && (forall i :: 0 <= i < |ports| ==> IsEnabled(valid, mask, ports[i]))
    && (forall i, j :: 0 <= i < j < |ports| ==> ports[i] < ports[j])
  }

  /** No port is listed twice. */
  predicate Distinct(ports: seq<PortId>) {
    forall i, j :: 0 <= i < j < |ports| ==> ports[i] != ports[j]
  }

  /**
   * `EnabledFrom` lists exactly the enabled ports at or above `from`, each
   * once, in ascending order.
   */
  lemma EnabledFromExact(valid: set<nat>, mask: bv32, from: nat)
    requires from <= MAX_ETHPORTS
    ensures AscendingEnabled(valid, mask, EnabledFrom(valid, mask, from))
    ensures forall p: PortId :: p in EnabledFrom(valid, mask, from) <==> from <= p && IsEnabled(valid, mask, p)
  {
    EnabledFromBounds(valid, mask, from);
    EnabledFromAscending(valid, mask, from);
    EnabledFromMembers(valid, mask, from);
  }

  /** The enabled ports in ascending order are distinct. */
  lemma EnabledDistinct(valid: set<nat>, mask: bv32)
    ensures Distinct(EnabledPorts(valid, mask))
  {
    EnabledFromExact(valid, mask, 0);
  }

  /** Every port listed is enabled and at least `from`. */
  lemma {:induction false} EnabledFromBounds(valid: set<nat>, mask: bv32, from: nat)
    requires from <= MAX_ETHPORTS
    ensures forall i :: 0 <= i < |EnabledFrom(valid, mask, from)| ==> IsEnabled(valid, mask, EnabledFrom(valid, mask, from)[i])
    ensures forall i :: 0 <= i < |EnabledFrom(valid, mask, from)| ==> from <= EnabledFrom(valid, mask, from)[i]
    decreases MAX_ETHPORTS - from
  {
    if from < MAX_ETHPORTS {
      EnabledFromBounds(valid, mask, from + 1);
      var rest := EnabledFrom(valid, mask, from + 1);
      if IsEnabled(valid, mask, from) {
        var ports := [from as PortId] + rest;
        assert forall i :: 1 <= i < |ports| ==> ports[i] == rest[i - 1];
      }
    }
  }

  /** The ports are listed in strictly ascending order. */
  lemma {:induction false} EnabledFromAscending(valid: set<nat>, mask: bv32, from: nat)
    requires from <= MAX_ETHPORTS
    ensures forall i, j :: 0 <= i < j < |EnabledFrom(valid, mask, from)| ==> EnabledFrom(valid, mask, from)[i] < EnabledFrom(valid, mask, from)[j]
    decreases MAX_ETHPORTS - from
  {
    if from < MAX_ETHPORTS {
      EnabledFromAscending(valid, mask, from + 1);
      EnabledFromBounds(valid, mask, from + 1);
      var rest := EnabledFrom(valid, mask, from + 1);
      if IsEnabled(valid, mask, from) {
        var ports := [from as PortId] + rest;
        assert forall i :: 1 <= i < |ports| ==> ports[i] == rest[i - 1];
      }
    }
  }

  /** A port is listed exactly when it is enabled and at least `from`. */
  lemma {:induction false} EnabledFromMembers(valid: set<nat>, mask: bv32, from: nat)
    requires from <= MAX_ETHPORTS
    ensures forall p: PortId :: p in EnabledFrom(valid, mask, from) <==> from <= p && IsEnabled(valid, mask, p)
    decreases MAX_ETHPORTS - from
  {
    if from < MAX_ETHPORTS {
      EnabledFromMembers(valid, mask, from + 1);
    }
  }

  /** All enabled ports, ascending. */
  function EnabledPorts(valid: set<nat>, mask: bv32): seq<PortId>
  {
    EnabledFrom(valid, mask, 0)
  }

  /** The enabled ports below `n`, ascending: what a loop over port ids has seen when it reaches `n`. */
  function EnabledBelow(valid: set<nat>, mask: bv32, n: nat): seq<PortId>
    requires n <= MAX_ETHPORTS
  {
    if n == 0 then []
    else EnabledBelow(valid, mask, n - 1) + (if IsEnabled(valid, mask, n - 1) then [(n - 1) as PortId] else [])
  }

  /** One more port id: the enabled ports seen grow by it exactly when it is enabled. */
  lemma EnabledBelowStep(valid: set<nat>, mask: bv32, n: nat)
    requires n < MAX_ETHPORTS
    ensures IsEnabled(valid, mask, n) ==> EnabledBelow(valid, mask, n + 1) == EnabledBelow(valid, mask, n) + [n as PortId]
    ensures !IsEnabled(valid, mask, n) ==> EnabledBelow(valid, mask, n + 1) == EnabledBelow(valid, mask, n)
  {
    assert EnabledBelow(valid, mask, n) + [] == EnabledBelow(valid, mask, n);
  }

  /** After the last port id, every enabled port has been seen. */
  lemma EnabledBelowAll(valid: set<nat>, mask: bv32)
    ensures EnabledBelow(valid, mask, MAX_ETHPORTS) == EnabledPorts(valid, mask)
  {
    EnabledSplit(valid, mask, MAX_ETHPORTS);
    assert EnabledBelow(valid, mask, MAX_ETHPORTS) + [] == EnabledBelow(valid, mask, MAX_ETHPORTS);
  }

  /** The ports seen below `n` followed by those from `n` upward are all the enabled ports. */
  lemma {:induction false} EnabledSplit(valid: set<nat>, mask: bv32, n: nat)
    requires n <= MAX_ETHPORTS
    ensures EnabledBelow(valid, mask, n) + EnabledFrom(valid, mask, n) == EnabledPorts(valid, mask)
    decreases n
  {
    if n > 0 {
      EnabledSplit(valid, mask, n - 1);
      var below := EnabledBelow(valid, mask, n - 1);
      var here: seq<PortId> := if IsEnabled(valid, mask, n - 1) then [(n - 1) as PortId] else [];
      assert EnabledFrom(valid, mask, n - 1) == here + EnabledFrom(valid, mask, n);
      assert EnabledBelow(valid, mask, n) == below + here;
      assert (below + here) + EnabledFrom(valid, mask, n) == below + (here + EnabledFrom(valid, mask, n));
    }
  }

  // ---------------------------------------------------------------------
  // Bit arithmetic on port masks
  // ---------------------------------------------------------------------

  /** The empty mask enables no port. */
  lemma EmptyMask(p: PortId)
    ensures !InMask(0, p)
  {
  }

  /** A word with exactly one bit set. */
  predicate OneBit(b: bv32) {
    b != 0 && b & (b - 1) == 0
  }

  /** `1 << p` sets exactly one bit. */
  lemma BitIsOne(p: PortId)
    ensures OneBit(Bit(p))
  {
  }

  /** The bit of `q` is set in `Bit(q)` and in no other position. */
  lemma SingleBit(q: PortId, p: PortId)
    ensures InMask(Bit(q), p) <==> p == q
  {
    if p == q {
      BitIsOne(p);
    } else {
      BitInjective(p, q);
      BitIsOne(p);
      BitIsOne(q);
      DistinctWord(Bit(q), Bit(p));
    }
  }

  /** Different ports have different bits. */
  lemma BitInjective(p: PortId, q: PortId)
    requires p != q
    ensures Bit(p) != Bit(q)
  {
    Position(p);
    Position(q);
    ShortShift(p);
    ShortShift(q);
    ShiftDistinct(p as bv5, q as bv5);
  }

  // A port id fits in five bits; shifting by the five-bit form keeps the
  // solver away from the integer-to-word conversion of the shift count.

  lemma Position(p: PortId)
    ensures (p as bv5) as int == p
  {
  }

  lemma ShortShift(p: PortId)
    ensures Bit(p) == (1 as bv32) << (p as bv5)
  {
  }

  lemma ShiftDistinct(x: bv5, y: bv5)
    requires x != y
    ensures (1 as bv32) << x != (1 as bv32) << y
  {
  }

  /** Two different one-bit words share no bit. */
  lemma DistinctWord(a: bv32, b: bv32)
    requires OneBit(a) && OneBit(b) && a != b
    ensures a & b == 0
  {
  }

  // The facts below are first proved for an arbitrary word `b`, then for
  // `Bit(p)`, then for `InMask`: stating them directly on `InMask` leaves
  // the solver with the shift inside every bit-vector term.

  lemma OrWord(x: bv32, y: bv32, b: bv32)
    ensures (x | y) & b != 0 <==> x & b != 0 || y & b != 0
  {
  }

  lemma AndWord(x: bv32, y: bv32, b: bv32)
    requires OneBit(b)
    ensures (x & y) & b != 0 <==> x & b != 0 && y & b != 0
  {
  }

  lemma NotWord(x: bv32, b: bv32)
    requires OneBit(b)
    ensures !x & b != 0 <==> x & b == 0
  {
  }

  lemma OrBit(x: bv32, y: bv32, p: PortId)
    ensures (x | y) & Bit(p) != 0 <==> x & Bit(p) != 0 || y & Bit(p) != 0
  {
    OrWord(x, y, Bit(p));
  }

  lemma AndBit(x: bv32, y: bv32, p: PortId)
    ensures (x & y) & Bit(p) != 0 <==> x & Bit(p) != 0 && y & Bit(p) != 0
  {
    BitIsOne(p);
    AndWord(x, y, Bit(p));
  }

  lemma NotBit(x: bv32, p: PortId)
    ensures !x & Bit(p) != 0 <==> x & Bit(p) == 0
  {
    BitIsOne(p);
    NotWord(x, Bit(p));
  }

  /** `|` sets the bits set in either operand. */
  lemma UnionBit(x: bv32, y: bv32, p: PortId)
    ensures InMask(x | y, p) <==> InMask(x, p) || InMask(y, p)
  {
    OrBit(x, y, p);
  }

  /** `&` keeps the bits set in both operands. */
  lemma IntersectBit(x: bv32, y: bv32, p: PortId)
    ensures InMask(x & y, p) <==> InMask(x, p) && InMask(y, p)
  {
    AndBit(x, y, p);
  }

  /** `~` flips every bit. */
  lemma ComplementBit(x: bv32, p: PortId)
    ensures InMask(!x, p) <==> !InMask(x, p)
  {
    NotBit(x, p);
  }

  lemma OverlapWords(x: bv32, y: bv32, z: bv32)
    ensures x & (y | z) != 0 <==> x & y != 0 || x & z != 0
  {
  }

  lemma OverlapBits(x: bv32, a: PortId, b: PortId)
    ensures x & (Bit(a) | Bit(b)) != 0 <==> x & Bit(a) != 0 || x & Bit(b) != 0
  {
    OverlapWords(x, Bit(a), Bit(b));
  }

  /** A mask overlaps the two bits of a pair exactly when it holds one of the two ports. */
  lemma OverlapPair(x: bv32, a: PortId, b: PortId)
    ensures x & (Bit(a) | Bit(b)) != 0 <==> InMask(x, a) || InMask(x, b)
  {
    OverlapBits(x, a, b);
  }

  // ---------------------------------------------------------------------
  // The possible-port check in `main`
  // ---------------------------------------------------------------------

  /** The mask has no bit outside `possible`: `(mask & ~possible) == 0`. */
  predicate MaskFits(mask: bv32, possible: bv32) {
    mask & !possible == 0
  }

  /**
   * `(1 << nb_ports) - 1` as compiled for x86: the shift count of a 32-bit
   * shift is taken modulo 32, so 32 ports give `1 - 1 == 0`.
   */
  function PossibleMaskAsWritten(nbPorts: nat): bv32
    requires nbPorts <= MAX_ETHPORTS
  {
    ((1 as bv32) << (nbPorts % 32)) - 1
  }

  /** With all 32 ports present the check as written refuses every mask `parse_portmask` lets through. */
  lemma AllPortsRefused(mask: bv32)
    requires mask != 0
    ensures !MaskFits(mask, PossibleMaskAsWritten(MAX_ETHPORTS))
  {
  }

  /** The evidently intended mask: the bits of the ports below `nbPorts`. */
  function PossibleMask(nbPorts: nat): bv32
    requires nbPorts <= MAX_ETHPORTS
  {
    if nbPorts == 0 then 0 else PossibleMask(nbPorts - 1) | Bit(nbPorts - 1)
  }

  /** One more port in the shifted form adds that port's bit. */
  lemma ShiftStep(m: nat)
    requires m + 1 < MAX_ETHPORTS
    ensures ((1 as bv32) << (m + 1)) - 1 == (((1 as bv32) << m) - 1) | Bit(m)
  {
    ShiftBit(m);
    BitIsOne(m);
    ShiftWord(Bit(m));
  }

  lemma ShiftBit(m: nat)
    requires m + 1 < MAX_ETHPORTS
    ensures (1 as bv32) << (m + 1) == Bit(m) << 1
  {
    ShortShift(m);
    ShortShift(m + 1);
    NextPosition(m);
    ShortShiftStep(m as bv5);
  }

  lemma NextPosition(m: nat)
    requires m + 1 < MAX_ETHPORTS
    ensures ((m + 1) as bv5) == (m as bv5) + 1
  {
    Position(m);
    Position(m + 1);
  }

  lemma ShortShiftStep(x: bv5)
    requires x < 31
    ensures (1 as bv32) << (x + 1) == ((1 as bv32) << x) << 1
  {
  }

  /** Doubling a one-bit word and subtracting one sets every bit up to and including it. */
  lemma ShiftWord(b: bv32)
    requires OneBit(b)
    ensures (b << 1) - 1 == (b - 1) | b
  {
  }

  /** Below 32 ports the intended mask is the one the source computes. */
  lemma {:induction false} PossibleMaskAgrees(nbPorts: nat)
    requires nbPorts < MAX_ETHPORTS
    ensures PossibleMask(nbPorts) == PossibleMaskAsWritten(nbPorts)
  {
    if nbPorts > 0 {
      var m := nbPorts - 1;
      PossibleMaskAgrees(m);
      ShiftStep(m);
    }
  }

  /** The intended mask enables exactly the ports below `nbPorts`. */
  lemma {:induction false} PossibleMaskExact(nbPorts: nat, p: PortId)
    requires nbPorts <= MAX_ETHPORTS
    ensures InMask(PossibleMask(nbPorts), p) <==> p < nbPorts
  {
    if nbPorts > 0 {
      var m := nbPorts - 1;
      PossibleMaskExact(m, p);
      UnionBit(PossibleMask(m), Bit(m), p);
      SingleBit(m, p);
    }
  }

  /** A port is outside `possible` in `mask` when `mask` has it and `possible` does not. */
  lemma OutsideBit(mask: bv32, possible: bv32, p: PortId)
    ensures InMask(mask & !possible, p) <==> InMask(mask, p) && !InMask(possible, p)
  {
    ComplementBit(possible, p);
    IntersectBit(mask, !possible, p);
  }

  /** A mask fits exactly when each port it enables is one of the first `nbPorts`. */
  lemma MaskFitsExact(mask: bv32, nbPorts: nat)
    requires nbPorts <= MAX_ETHPORTS
    ensures MaskFits(mask, PossibleMask(nbPorts)) <==> forall p: PortId :: InMask(mask, p) ==> p < nbPorts
  {
    if MaskFits(mask, PossibleMask(nbPorts)) {
      forall p: PortId | InMask(mask, p) ensures p < nbPorts {
        FitsBelow(mask, nbPorts, p);
      }
    } else {
      var p := Escapee(mask, nbPorts);
    }
  }

  /** A port of a fitting mask is below `nbPorts`. */
  lemma FitsBelow(mask: bv32, nbPorts: nat, p: PortId)
    requires nbPorts <= MAX_ETHPORTS
    requires MaskFits(mask, PossibleMask(nbPorts)) && InMask(mask, p)
    ensures p < nbPorts
  {
    var possible := PossibleMask(nbPorts);
    OutsideBit(mask, possible, p);
    PossibleMaskExact(nbPorts, p);
  }

  /** A mask that does not fit enables a port at or above `nbPorts`. */
  lemma Escapee(mask: bv32, nbPorts: nat) returns (p: PortId)
    requires nbPorts <= MAX_ETHPORTS
    requires !MaskFits(mask, PossibleMask(nbPorts))
    ensures InMask(mask, p)
    ensures nbPorts <= p
  {
    p := OutsidePort(mask, nbPorts);
    OutsideAbove(mask, nbPorts, p);
  }

  /** A mask that does not fit has a bit outside the intended mask. */
  lemma OutsidePort(mask: bv32, nbPorts: nat) returns (p: PortId)
    requires nbPorts <= MAX_ETHPORTS
    requires !MaskFits(mask, PossibleMask(nbPorts))
    ensures InMask(mask & !PossibleMask(nbPorts), p)
  {
    p := SomePort(mask & !PossibleMask(nbPorts));
  }

  /** A port outside the intended mask is at or above `nbPorts`. */
  lemma OutsideAbove(mask: bv32, nbPorts: nat, p: PortId)
    requires nbPorts <= MAX_ETHPORTS
    requires InMask(mask & !PossibleMask(nbPorts), p)
    ensures InMask(mask, p) && nbPorts <= p
  {
    OutsideBit(mask, PossibleMask(nbPorts), p);
    PossibleMaskExact(nbPorts, p);
  }

  /** The mask of all 32 ports keeps every bit. */
  lemma AllBits(x: bv32)
    ensures x & PossibleMask(MAX_ETHPORTS) == x
  {
    PossibleMaskAgrees(31);
    assert PossibleMask(31) == 0x7FFF_FFFF;
    assert PossibleMask(32) == 0x7FFF_FFFF | Bit(31);
  }

  /** A nonzero mask enables some port. */
  lemma SomePort(x: bv32) returns (p: PortId)
    requires x != 0
    ensures InMask(x, p)
  {
    AllBits(x);
    p := SomeBit(x, MAX_ETHPORTS);
  }

  /** A mask with a bit set below position `k` enables some port below `k`. */
  lemma {:induction false} SomeBit(x: bv32, k: nat) returns (p: PortId)
    requires k <= MAX_ETHPORTS
    requires x & PossibleMask(k) != 0
    ensures p < k && InMask(x, p)
  {
    if k > 0 {
      var m := k - 1;
      if InMask(x, m) {
        p := m;
      } else {
        SplitLow(x, PossibleMask(m), Bit(m));
        p := SomeBit(x, m);
      }
    }
  }

  /** Adding bits that `x` does not have leaves `x & low` unchanged. */
  lemma SplitLow(x: bv32, low: bv32, b: bv32)
    requires x & b == 0
    ensures x & (low | b) == x & low
  {
  }
}
