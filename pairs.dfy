/**
 * `check_port_pair_config`: every port named in a `--portmap` pair must be
 * enabled, and no port may belong to two pairs. On success the enabled-port
 * mask is narrowed to the ports the pairs name.
 */
module PairCheck {
  import opened Wrappers
  import opened Ports

  /** `port_pair_mask` of one pair: the bits of both its ports. */
  function PairBits(p: PortPair): bv32 {
    Bit(p.a) | Bit(p.b)
  }

  /**
   * The outcome of the loop of `check_port_pair_config` over the first `n`
   * pairs: `None` once it has returned -1, otherwise `port_pair_config_mask`,
   * the ports of the pairs seen so far.
   */
  function CheckPrefix(valid: set<nat>, mask: bv32, pairs: seq<PortPair>, n: nat): Option<bv32>
    requires n <= |pairs|
  {
    if n == 0 then Some(0)
    else match CheckPrefix(valid, mask, pairs, n - 1)
      case None => None
      case Some(config) =>
        var p := pairs[n - 1];
        if !IsEnabled(valid, mask, p.a) || !IsEnabled(valid, mask, p.b) then None
        else AddPair(config, p)
  }

  /** Admitting a pair whose ports are enabled: refused when it overlaps the mask so far. */
  function AddPair(config: bv32, p: PortPair): Option<bv32> {
    AddMask(config, PairBits(p))
  }

  /** `if (port_pair_config_mask & port_pair_mask) return -1; port_pair_config_mask |= port_pair_mask;` */
  function AddMask(config: bv32, pairMask: bv32): Option<bv32> {
    if config & pairMask != 0 then None else Some(config | pairMask)
  }

  /** The whole check: `None` when it returns -1, otherwise the union of the pairs' ports. */
  function CheckPairs(valid: set<nat>, mask: bv32, pairs: seq<PortPair>): Option<bv32> {
    CheckPrefix(valid, mask, pairs, |pairs|)
  }

  /** `port_pair_params[index].port[i]` */
  function PairPort(p: PortPair, i: nat): PortId
    requires i < 2
  {
    if i == 0 then p.a else p.b
  }

  /** `port_pair_mask` after the inner loop has visited the first `i` ports of a pair. */
  function PartialBits(p: PortPair, i: nat): bv32
    requires i <= 2
  {
    if i == 0 then 0 else PartialBits(p, i - 1) | Bit(PairPort(p, i - 1))
  }

  /** After both ports the inner loop has built the pair's bits. */
  lemma PartialBitsWhole(p: PortPair)
    ensures PartialBits(p, 2) == PairBits(p)
  {
    calc {
      PartialBits(p, 2);
      PartialBits(p, 1) | Bit(p.b);
      (0 | Bit(p.a)) | Bit(p.b);
      { ZeroWord(Bit(p.a)); }
      Bit(p.a) | Bit(p.b);
    }
  }

  /** Once the loop has returned -1 it stays returned: later pairs change nothing. */
  lemma {:induction false} CheckPrefixStops(valid: set<nat>, mask: bv32, pairs: seq<PortPair>, m: nat, n: nat)
    requires m <= n <= |pairs|
    requires CheckPrefix(valid, mask, pairs, m).None?
    ensures CheckPrefix(valid, mask, pairs, n).None?
    decreases n - m
  {
    if m < n {
      assert CheckPrefix(valid, mask, pairs, m + 1).None?;
      CheckPrefixStops(valid, mask, pairs, m + 1, n);
    }
  }

  /** Two pairs share a port. */
  predicate Shares(p: PortPair, q: PortPair) {
    p.a == q.a || p.a == q.b || p.b == q.a || p.b == q.b
  }

  /** Port `x` is named by one of the first `n` pairs. */
  predicate NamedBefore(pairs: seq<PortPair>, n: nat, x: PortId)
    requires n <= |pairs|
  {
    exists i :: 0 <= i < n && (pairs[i].a == x || pairs[i].b == x)
  }

  /**
   * The rule the check enforces on the first `n` pairs, stated directly:
   * both ports of each pair are enabled, and no two pairs share a port.
   * A pair may name the same port twice.
   */
  predicate AcceptablePrefix(valid: set<nat>, mask: bv32, pairs: seq<PortPair>, n: nat)
    requires n <= |pairs|
  {
    && (forall i :: 0 <= i < n ==> IsEnabled(valid, mask, pairs[i].a) && IsEnabled(valid, mask, pairs[i].b))
    && (forall i, j :: 0 <= i < j < n ==> !Shares(pairs[i], pairs[j]))
  }

  predicate Acceptable(valid: set<nat>, mask: bv32, pairs: seq<PortPair>) {
    AcceptablePrefix(valid, mask, pairs, |pairs|)
  }

  /** Port `x` is named by some pair. */
  predicate Named(pairs: seq<PortPair>, x: PortId) {
    NamedBefore(pairs, |pairs|, x)
  }

  /** The loop accepts the first `n` pairs exactly when they satisfy the rule. */
  lemma {:induction false} CheckPrefixAccepts(valid: set<nat>, mask: bv32, pairs: seq<PortPair>, n: nat)
    requires n <= |pairs|
    ensures CheckPrefix(valid, mask, pairs, n).Some? <==> AcceptablePrefix(valid, mask, pairs, n)
  {
    if n > 0 {
      var m := n - 1;
      CheckPrefixAccepts(valid, mask, pairs, m);
      ExtendAcceptable(valid, mask, pairs, m);
      if CheckPrefix(valid, mask, pairs, m).Some? {
        StepAccepts(valid, mask, pairs, m);
      } else {
        assert CheckPrefix(valid, mask, pairs, m + 1) == None;
      }
    }
  }

  /** After `m` accepted pairs, the next one is accepted exactly when its ports are enabled and not yet named. */
  lemma StepAccepts(valid: set<nat>, mask: bv32, pairs: seq<PortPair>, m: nat)
    requires m < |pairs|
    requires CheckPrefix(valid, mask, pairs, m).Some?
    ensures CheckPrefix(valid, mask, pairs, m + 1).Some?
        <==> && IsEnabled(valid, mask, pairs[m].a) && IsEnabled(valid, mask, pairs[m].b)
             && !NamedBefore(pairs, m, pairs[m].a) && !NamedBefore(pairs, m, pairs[m].b)
  {
    var config, p := CheckPrefix(valid, mask, pairs, m).value, pairs[m];
    CheckPrefixMask(valid, mask, pairs, m, p.a);
    CheckPrefixMask(valid, mask, pairs, m, p.b);
    CheckStep(valid, mask, pairs, m, config);
    AddPairExact(config, p);
  }

  /** While the loop accepts, its mask holds port `x` exactly when one of the pairs seen names it. */
  lemma {:induction false} CheckPrefixMask(valid: set<nat>, mask: bv32, pairs: seq<PortPair>, n: nat, x: PortId)
    requires n <= |pairs|
    requires CheckPrefix(valid, mask, pairs, n).Some?
    ensures InMask(CheckPrefix(valid, mask, pairs, n).value, x) <==> NamedBefore(pairs, n, x)
  {
    if n == 0 {
      EmptyMask(x);
    } else {
      var m := n - 1;
      var prev := CheckPrefix(valid, mask, pairs, m);
      assert prev.Some?;
      var config, p := prev.value, pairs[m];
      CheckPrefixMask(valid, mask, pairs, m, x);
      CheckStep(valid, mask, pairs, m, config);
      AddPairExact(config, p);
      assert CheckPrefix(valid, mask, pairs, m + 1) == Some(config | PairBits(p));
      ExtendMask(config, p, x);
      ExtendNamed(pairs, m, x);
    }
  }

  /** One turn of the loop, unfolded: a pair with a disabled port is refused, otherwise it is added to the mask. */
  lemma CheckStep(valid: set<nat>, mask: bv32, pairs: seq<PortPair>, m: nat, config: bv32)
    requires m < |pairs|
    requires CheckPrefix(valid, mask, pairs, m) == Some(config)
    ensures !IsEnabled(valid, mask, pairs[m].a) || !IsEnabled(valid, mask, pairs[m].b) ==>
              CheckPrefix(valid, mask, pairs, m + 1) == None
    ensures IsEnabled(valid, mask, pairs[m].a) && IsEnabled(valid, mask, pairs[m].b) ==>
              CheckPrefix(valid, mask, pairs, m + 1) == AddPair(config, pairs[m])
  {
  }

  /**
   * One turn of the loop as the code takes it: `ok` says both ports are
   * enabled and `pairMask` is then the pair's bits. A refused pair ends the
   * whole check with -1; an accepted one extends the mask.
   */
  lemma CheckTurn(valid: set<nat>, mask: bv32, pairs: seq<PortPair>, m: nat, config: bv32, ok: bool, pairMask: bv32)
    requires m < |pairs|
    requires CheckPrefix(valid, mask, pairs, m) == Some(config)
    requires ok <==> IsEnabled(valid, mask, pairs[m].a) && IsEnabled(valid, mask, pairs[m].b)
    requires ok ==> pairMask == PairBits(pairs[m])
    ensures !ok || AddMask(config, pairMask).None? ==> CheckPairs(valid, mask, pairs).None?
    ensures ok ==> CheckPrefix(valid, mask, pairs, m + 1) == AddMask(config, pairMask)
  {
    CheckStep(valid, mask, pairs, m, config);
    if !ok || AddMask(config, pairMask).None? {
      CheckPrefixStops(valid, mask, pairs, m + 1, |pairs|);
    }
  }

  /** A pair is refused exactly when the mask already holds one of its ports. */
  lemma AddPairExact(config: bv32, p: PortPair)
    ensures AddPair(config, p).None? <==> InMask(config, p.a) || InMask(config, p.b)
    ensures AddPair(config, p).Some? ==> AddPair(config, p) == Some(config | PairBits(p))
  {
    var bits := PairBits(p);
    PairOverlap(config, p);
    if config & bits != 0 {
      assert AddPair(config, p) == None;
    } else {
      assert AddPair(config, p) == Some(config | bits);
    }
  }

  /** The rule holds for `m + 1` pairs when it held for `m` and the new pair is enabled and unused. */
  lemma ExtendAcceptable(valid: set<nat>, mask: bv32, pairs: seq<PortPair>, m: nat)
    requires m < |pairs|
    ensures AcceptablePrefix(valid, mask, pairs, m + 1)
        <==> && AcceptablePrefix(valid, mask, pairs, m)
             && IsEnabled(valid, mask, pairs[m].a) && IsEnabled(valid, mask, pairs[m].b)
             && !NamedBefore(pairs, m, pairs[m].a) && !NamedBefore(pairs, m, pairs[m].b)
  {
    var p := pairs[m];
    if AcceptablePrefix(valid, mask, pairs, m + 1) {
      if NamedBefore(pairs, m, p.a) {
        var i :| 0 <= i < m && (pairs[i].a == p.a || pairs[i].b == p.a);
        assert Shares(pairs[i], pairs[m]);
      }
      if NamedBefore(pairs, m, p.b) {
        var i :| 0 <= i < m && (pairs[i].a == p.b || pairs[i].b == p.b);
        assert Shares(pairs[i], pairs[m]);
      }
    }
  }

  /** The ports named by one more pair. */
  lemma ExtendNamed(pairs: seq<PortPair>, m: nat, x: PortId)
    requires m < |pairs|
    ensures NamedBefore(pairs, m + 1, x) <==> NamedBefore(pairs, m, x) || x == pairs[m].a || x == pairs[m].b
  {
    if NamedBefore(pairs, m + 1, x) && !(x == pairs[m].a || x == pairs[m].b) {
      var i :| 0 <= i < m + 1 && (pairs[i].a == x || pairs[i].b == x);
      assert i < m;
    }
  }

  /** A mask overlaps a pair's bits exactly when it holds one of its ports. */
  lemma PairOverlap(config: bv32, p: PortPair)
    ensures config & PairBits(p) != 0 <==> InMask(config, p.a) || InMask(config, p.b)
  {
    OverlapPair(config, p.a, p.b);
  }

  /** Adding a pair's bits to the mask sets exactly its two ports. */
  lemma ExtendMask(config: bv32, p: PortPair, x: PortId)
    ensures InMask(config | PairBits(p), x) <==> InMask(config, x) || x == p.a || x == p.b
  {
    UnionBit(config, PairBits(p), x);
    PairBitsExact(p, x);
  }

  /** The mask of a pair holds its two ports and no other. */
  lemma PairBitsExact(p: PortPair, x: PortId)
    ensures InMask(PairBits(p), x) <==> x == p.a || x == p.b
  {
    UnionBit(Bit(p.a), Bit(p.b), x);
    SingleBit(p.a, x);
    SingleBit(p.b, x);
  }

  /**
   * `check_port_pair_config` returns 0 exactly when every pair port is
   * enabled and no port is used by two pairs; its mask then holds exactly the
   * ports the pairs name.
   */
  lemma CheckPairsExact(valid: set<nat>, mask: bv32, pairs: seq<PortPair>)
    ensures CheckPairs(valid, mask, pairs).Some? <==> Acceptable(valid, mask, pairs)
    ensures CheckPairs(valid, mask, pairs).Some? ==>
              forall x: PortId :: InMask(CheckPairs(valid, mask, pairs).value, x) <==> Named(pairs, x)
  {
    CheckPrefixAccepts(valid, mask, pairs, |pairs|);
    if CheckPairs(valid, mask, pairs).Some? {
      forall x: PortId ensures InMask(CheckPairs(valid, mask, pairs).value, x) <==> Named(pairs, x) {
        CheckPrefixMask(valid, mask, pairs, |pairs|, x);
      }
    }
  }

  /** The mask after a successful check: `l2fwd_enabled_port_mask &= port_pair_config_mask`. */
  function NarrowedMask(mask: bv32, config: bv32): (m: bv32)
    ensures forall x: PortId :: InMask(m, x) <==> InMask(mask, x) && InMask(config, x)
  {
    forall x: PortId ensures InMask(mask & config, x) <==> InMask(mask, x) && InMask(config, x) {
      IntersectBit(mask, config, x);
    }
    mask & config
  }

  /**
   * After a successful check a port stays enabled exactly when it was
   * enabled and some pair names it; since every pair port was enabled, the
   * new mask holds exactly the pair ports.
   */
  lemma NarrowedToPairs(valid: set<nat>, mask: bv32, pairs: seq<PortPair>)
    requires CheckPairs(valid, mask, pairs).Some?
    ensures forall x: PortId :: InMask(NarrowedMask(mask, CheckPairs(valid, mask, pairs).value), x) <==> Named(pairs, x)
  {
    CheckPairsExact(valid, mask, pairs);
    forall x: PortId | Named(pairs, x) ensures InMask(mask, x) {
      var i :| 0 <= i < |pairs| && (pairs[i].a == x || pairs[i].b == x);
    }
  }

  /** A pair that names one port twice, `(a,a)`, is accepted when `a` is enabled. */
  lemma SelfPairAccepted(valid: set<nat>, mask: bv32, a: PortId)
    requires IsEnabled(valid, mask, a)
    ensures CheckPairs(valid, mask, [PortPair(a, a)]) == Some(Bit(a))
  {
    var pairs := [PortPair(a, a)];
    assert CheckPrefix(valid, mask, pairs, 0) == Some(0);
    var bits := PairBits(PortPair(a, a));
    assert bits == Bit(a) by {
      OrSelf(Bit(a));
    }
    ZeroWord(bits);
  }

  /** A port that two pairs share makes the check fail, even when all ports are enabled. */
  lemma SharedPortRejected(valid: set<nat>, mask: bv32, pairs: seq<PortPair>, i: nat, j: nat)
    requires i < j < |pairs| && Shares(pairs[i], pairs[j])
    ensures CheckPairs(valid, mask, pairs) == None
  {
    CheckPairsExact(valid, mask, pairs);
  }

  /** A pair port that is not enabled makes the check fail. */
  lemma DisabledPortRejected(valid: set<nat>, mask: bv32, pairs: seq<PortPair>, i: nat)
    requires i < |pairs|
    requires !IsEnabled(valid, mask, pairs[i].a) || !IsEnabled(valid, mask, pairs[i].b)
    ensures CheckPairs(valid, mask, pairs) == None
  {
    CheckPairsExact(valid, mask, pairs);
  }

  lemma OrSelf(x: bv32)
    ensures x | x == x
  {
  }

  lemma ZeroWord(x: bv32)
    ensures 0 & x == 0 && 0 | x == x
  {
  }
}
