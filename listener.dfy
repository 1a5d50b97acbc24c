/**
 * The listener's global state and the code of `main.c` that updates it in
 * place: the option handlers, `l2fwd_parse_port_pair_config`,
 * `check_port_pair_config`, the destination-table and lcore blocks of
 * `main`, `l2fwd_mac_updating`, `l2fwd_simple_forward`, `calc_sw_latency`,
 * the main loop and the totals of `print_stats`. Each method is proved
 * against the specification function of its module.
 */
module Listener {
  import opened Wrappers
  import opened CLib
  import opened Ports
  import opened Ether
  import opened Stats
  import Options
  import PairCheck
  import Forwarding
  import Lcores
  import MainLoop

  /** The globals of `main.c` that the modelled code reads and writes. */
  class L2fwd {
    /** `l2fwd_enabled_port_mask` */
    var enabledPortMask: bv32
    /** `l2fwd_dst_ports` */
    const dstPorts: array<PortId>
    /** `port_pair_params_array` and `nb_port_pair_params` */
    const pairParams: array<PortPair>
    var nbPairParams: nat
    /** `port_pair_params != NULL`: a `--portmap` list was parsed successfully. */
    var havePairs: bool
    /** `rx_port_list[..n_rx_port]` of each `lcore_queue_conf` */
    const lcoreQueueConf: array<seq<PortId>>
    /** `l2fwd_rx_queue_per_lcore` */
    var rxQueuePerLcore: nat
    /** `nb_lcores` */
    var nbLcores: nat
    /** `port_statistics` */
    const portStatistics: array<PortStats>
    /** `l2fwd_ports_eth_addr` */
    const portsEthAddr: array<EtherAddr>
    /** `latency_numbers.total_latency` */
    var totalLatency: U64
    /** `timer_period`: seconds until `main` converts it to cycles. */
    var timerPeriod: U64
    /** `mac_updating` */
    var macUpdating: bool

    ghost predicate Valid()
      reads this
    {
      && dstPorts.Length == MAX_ETHPORTS
      && pairParams.Length == MAX_PAIRS
      && nbPairParams <= MAX_PAIRS
      && lcoreQueueConf.Length == Lcores.MAX_LCORE
      && portStatistics.Length == MAX_ETHPORTS
      && portsEthAddr.Length == MAX_ETHPORTS
    }

    /**
     * The zero-initialised globals with their declared initial values
     * (`l2fwd_rx_queue_per_lcore = 1`, `timer_period = 10`,
     * `mac_updating = 1`); the port addresses are those `rte_eth_macaddr_get`
     * reports.
     */
    constructor (ethAddrs: seq<EtherAddr>)
      requires |ethAddrs| == MAX_ETHPORTS
      ensures Valid()
      ensures enabledPortMask == 0 && nbPairParams == 0 && !havePairs
      ensures rxQueuePerLcore == 1 && nbLcores == 0 && totalLatency == 0 && timerPeriod == 10 && macUpdating
      ensures dstPorts[..] == Forwarding.Zeros()
      ensures forall l :: 0 <= l < Lcores.MAX_LCORE ==> lcoreQueueConf[l] == []
      ensures forall p :: 0 <= p < MAX_ETHPORTS ==> portStatistics[p] == ZERO_STATS
      ensures portsEthAddr[..] == ethAddrs
      ensures fresh(dstPorts) && fresh(pairParams) && fresh(lcoreQueueConf) && fresh(portStatistics) && fresh(portsEthAddr)
    {
      enabledPortMask := 0;
      dstPorts := new PortId[MAX_ETHPORTS](_ => 0);
      pairParams := new PortPair[MAX_PAIRS](_ => PortPair(0, 0));
      nbPairParams := 0;
      havePairs := false;
      lcoreQueueConf := new seq<PortId>[Lcores.MAX_LCORE](_ => []);
      rxQueuePerLcore := 1;
      nbLcores := 0;
      portStatistics := new PortStats[MAX_ETHPORTS](_ => ZERO_STATS);
      portsEthAddr := new EtherAddr[MAX_ETHPORTS](i requires 0 <= i < MAX_ETHPORTS => ethAddrs[i]);
      totalLatency := 0;
      timerPeriod := 10;
      macUpdating := true;
    }

    // -------------------------------------------------------------------
    // l2fwd_parse_args, one option at a time
    // -------------------------------------------------------------------

    /** `-p`: store the parsed mask; a zero mask is an error. */
    method OptionPortmask(arg: string) returns (ret: int)
      requires IsCString(arg)
      modifies this`enabledPortMask
      ensures enabledPortMask == Options.ParsePortmask(arg)
      ensures ret == (if enabledPortMask == 0 then -1 else 0)
    {
      enabledPortMask := Options.ParsePortmask(arg);
      if enabledPortMask == 0 {
        return -1;
      }
      return 0;
    }

    /** `-q`: store the parsed queue count; zero is an error. */
    method OptionNqueue(arg: string) returns (ret: int)
      requires IsCString(arg)
      modifies this`rxQueuePerLcore
      ensures rxQueuePerLcore == Options.ParseNqueue(arg)
      ensures ret == 0 <==> 1 <= rxQueuePerLcore < Options.MAX_RX_QUEUE_PER_LCORE
      ensures ret == 0 || ret == -1
    {
      rxQueuePerLcore := Options.ParseNqueue(arg);
      if rxQueuePerLcore == 0 {
        return -1;
      }
      return 0;
    }

    /** `-T`: a negative result is an error and leaves the period alone. */
    method OptionTimerPeriod(arg: string) returns (ret: int)
      requires IsCString(arg)
      modifies this`timerPeriod
      ensures ret == 0 || ret == -1
      ensures ret == 0 <==> Options.TimerOption(arg).Some?
      ensures ret == 0 ==> timerPeriod == Options.TimerOption(arg).value
      ensures ret != 0 ==> timerPeriod == old(timerPeriod)
    {
      var timerSecs := Options.ParseTimerPeriod(arg);
      if timerSecs < 0 {
        return -1;
      }
      timerPeriod := timerSecs;
      return 0;
    }

    /** `timer_period *= rte_get_timer_hz()`, in `uint64_t`. */
    method TimerPeriodToCycles(hz: U64)
      modifies this`timerPeriod
      ensures timerPeriod == Mul64(old(timerPeriod), hz)
    {
      timerPeriod := Mul64(timerPeriod, hz);
    }

    // -------------------------------------------------------------------
    // l2fwd_parse_port_pair_config
    // -------------------------------------------------------------------

    /**
     * One group of `l2fwd_parse_port_pair_config`, the text between a `(` and
     * its `)`: it must fit the 256-byte buffer, split into two fields, and
     * each field must be a port number below `RTE_MAX_ETHPORTS`.
     */
    static method ParseGroup(group: string) returns (pair: Option<PortPair>)
      ensures pair == Options.GroupPair(group)
    {
      if |group| >= Options.GROUP_BUFFER {
        return None;
      }
      var fields := SplitTwo(group);
      if fields.None? {
        return None;
      }
      var port1 := Options.PortField(fields.value.0);
      if port1.None? {
        return None;
      }
      var port2 := Options.PortField(fields.value.1);
      if port2.None? {
        return None;
      }
      return Some(PortPair(port1.value, port2.value));
    }

    /**
     * `--portmap`: scan the `(a,b)` groups left to right into
     * `port_pair_params_array`. Returns 0 and sets `port_pair_params` when
     * every group is well formed and there are at most 16; otherwise -1,
     * with the pairs recorded before the failing group left in place.
     */
    method ParsePortPairConfig(q: string) returns (ret: int)
      requires Valid() && IsCString(q)
      modifies this`nbPairParams, this`havePairs, pairParams
      ensures Valid()
      ensures ret == 0 || ret == -1
      ensures ret == 0 <==> Options.ParsePortPairConfig(q).ok
      ensures pairParams[..nbPairParams] == Options.ParsePortPairConfig(q).pairs
      ensures havePairs == (ret == 0 || old(havePairs))
    {
      nbPairParams := 0;
      var p0 := q;
      while true
        invariant Valid()
        invariant Options.ParseGroups(p0, pairParams[..nbPairParams]) == Options.ParseGroups(q, [])
        invariant havePairs == old(havePairs)
        decreases |p0|
      {
        var step := NextGroup(p0);
        if step.Done? {
          break;
        } else if step.Fail? {
          return -1;
        }
        if nbPairParams >= MAX_PAIRS {
          return -1;
        }
        AppendPair(step.pair);
        p0 := step.next;
      }
      havePairs := true;
      return 0;
    }

    /** Record one more pair in `port_pair_params_array`. */
    method AppendPair(pair: PortPair)
      requires Valid() && nbPairParams < MAX_PAIRS
      modifies this`nbPairParams, pairParams
      ensures Valid()
      ensures pairParams[..nbPairParams] == old(pairParams[..nbPairParams]) + [pair]
    {
      var n := nbPairParams;
      ghost var acc := pairParams[..n];
      pairParams[n] := pair;
      assert pairParams[..n] == acc;
      nbPairParams := n + 1;
      assert pairParams[..nbPairParams] == acc + [pair];
    }

    /**
     * One turn of the loop of `l2fwd_parse_port_pair_config`: find the next
     * `(`, then its `)`, then parse the text between them.
     */
    static method NextGroup(p0: string) returns (step: Options.Step)
      ensures step == Options.NextGroup(p0)
    {
      var open := Find(p0, '(');
      if open.None? {
        return Options.Done;
      }
      step := GroupAfter(p0[open.value + 1..]);
    }

    /** The text after a `(`: find its `)` and parse the group in between. */
    static method GroupAfter(p: string) returns (step: Options.Step)
      ensures step == Options.GroupAfter(p)
    {
      var close := Find(p, ')');
      if close.None? {
        return Options.Fail;
      }
      var size := close.value;
      var group := ParseGroup(p[..size]);
      if group.None? {
        return Options.Fail;
      }
      return Options.Found(group.value, p[size..]);
    }

    // -------------------------------------------------------------------
    // check_port_pair_config
    // -------------------------------------------------------------------

    /**
     * Every port of every recorded pair must be enabled in the mask and
     * present on the board, and no two pairs may share a port; on success
     * the enabled mask keeps only the pairs' ports, on failure it is left
     * alone. `valid` is the set of ports `rte_eth_dev_is_valid_port` accepts.
     */
    method CheckPortPairConfig(valid: set<nat>) returns (ret: int)
      requires Valid()
      modifies this`enabledPortMask
      ensures ret == 0 || ret == -1
      ensures ret == 0 <==> PairCheck.CheckPairs(valid, old(enabledPortMask), pairParams[..nbPairParams]).Some?
      ensures ret == 0 ==>
                enabledPortMask
                == PairCheck.NarrowedMask(old(enabledPortMask), PairCheck.CheckPairs(valid, old(enabledPortMask), pairParams[..nbPairParams]).value)
      ensures ret != 0 ==> enabledPortMask == old(enabledPortMask)
    {
      var configMask := PairConfigMask(valid);
      if configMask.None? {
        return -1;
      }
      enabledPortMask := enabledPortMask & configMask.value;
      return 0;
    }

    /**
     * The loop of `check_port_pair_config` over the recorded pairs: `None`
     * where it returns -1, otherwise `port_pair_config_mask`.
     */
    method PairConfigMask(valid: set<nat>) returns (config: Option<bv32>)
      requires Valid()
      ensures config == PairCheck.CheckPairs(valid, enabledPortMask, pairParams[..nbPairParams])
    {
      ghost var pairs := pairParams[..nbPairParams];
      var configMask: bv32 := 0;
      var index := 0;
      while index < nbPairParams
        invariant index <= nbPairParams
        invariant PairCheck.CheckPrefix(valid, enabledPortMask, pairs, index) == Some(configMask)
      {
        var pair := pairParams[index];
        assert pair == pairs[index];
        var ok, pairMask := PairMask(valid, pair);
        PairCheck.CheckTurn(valid, enabledPortMask, pairs, index, configMask, ok, pairMask);
        if !ok {
          return None;
        }
        var added := PairCheck.AddMask(configMask, pairMask);
        if added.None? {
          return None;
        }
        configMask := added.value;
        index := index + 1;
      }
      return Some(configMask);
    }

    /**
     * The inner loop of `check_port_pair_config`: both ports of a pair must
     * be enabled and present; `port_pair_mask` collects their bits.
     */
    method PairMask(valid: set<nat>, pair: PortPair) returns (ok: bool, pairMask: bv32)
      ensures ok <==> IsEnabled(valid, enabledPortMask, pair.a) && IsEnabled(valid, enabledPortMask, pair.b)
      ensures ok ==> pairMask == PairCheck.PairBits(pair)
    {
      pairMask := 0;
      for i := 0 to 2
        invariant pairMask == PairCheck.PartialBits(pair, i)
        invariant forall k :: 0 <= k < i ==> IsEnabled(valid, enabledPortMask, PairCheck.PairPort(pair, k))
      {
        var portid := PairCheck.PairPort(pair, i);
        // "not enabled in port mask" or "not present on the board"
        if !IsEnabled(valid, enabledPortMask, portid) {
          return false, pairMask;
        }
        pairMask := pairMask | Bit(portid);
      }
      PairCheck.PartialBitsWhole(pair);
      assert PairCheck.PairPort(pair, 0) == pair.a && PairCheck.PairPort(pair, 1) == pair.b;
      return true, pairMask;
    }

    // -------------------------------------------------------------------
    // main: check the port mask, then fill l2fwd_dst_ports
    // -------------------------------------------------------------------

    /**
     * `l2fwd_enabled_port_mask & ~((1 << nb_ports) - 1)` must be zero: every
     * enabled port lies below the number of ports found. The possible mask
     * is the one `main` intends; see `Ports.PossibleMaskAsWritten` for the
     * shift as written.
     */
    method CheckPortmask(nbPorts: nat) returns (ok: bool)
      requires nbPorts <= MAX_ETHPORTS
      ensures ok <==> forall p: PortId :: InMask(enabledPortMask, p) ==> p < nbPorts
    {
      ok := MaskFits(enabledPortMask, PossibleMask(nbPorts));
      MaskFitsExact(enabledPortMask, nbPorts);
    }

    /** Reset `l2fwd_dst_ports` to all zeros. */
    method ResetDstPorts()
      requires Valid()
      modifies dstPorts
      ensures dstPorts[..] == Forwarding.Zeros()
    {
      for portid := 0 to MAX_ETHPORTS
        invariant forall x :: 0 <= x < portid ==> dstPorts[x] == 0
      {
        dstPorts[portid] := 0;
      }
    }

    /**
     * The `--portmap` branch: step `idx` writes port `idx & 1` of pair
     * `idx >> 1`, mapping it to the other port of the same pair.
     */
    method ExplicitDstPorts()
      requires Valid()
      requires dstPorts[..] == Forwarding.Zeros()
      modifies dstPorts
      ensures dstPorts[..] == Forwarding.ExplicitTable(pairParams[..nbPairParams], 2 * nbPairParams)
    {
      ghost var pairs := pairParams[..nbPairParams];
      for idx := 0 to 2 * nbPairParams
        invariant dstPorts[..] == Forwarding.ExplicitTable(pairs, idx)
      {
        var p := idx % 2;
        var pair := pairParams[idx / 2];
        assert pair == pairs[idx / 2];
        var portid := PairCheck.PairPort(pair, p);
        dstPorts[portid] := PairCheck.PairPort(pair, 1 - p);
      }
    }

    /**
     * The default branch: walk the enabled ports in ascending order, pairing
     * each second one with the one before it; with an odd count the last
     * port is paired with itself and the notice is printed (`odd`).
     */
    method DefaultDstPorts(valid: set<nat>) returns (odd: bool)
      requires Valid()
      requires dstPorts[..] == Forwarding.Zeros()
      modifies dstPorts
      ensures dstPorts[..] == Forwarding.DefaultTable(EnabledPorts(valid, enabledPortMask))
      ensures odd == Forwarding.OddNotice(EnabledPorts(valid, enabledPortMask))
    {
      var nbPortsInMask, lastPort := PairEnabledPorts(valid);
      Forwarding.FoldCounter(EnabledPorts(valid, enabledPortMask));
      odd := nbPortsInMask % 2 == 1;
      if odd {
        dstPorts[lastPort] := lastPort;
      }
    }

    /** The loop of the default branch over the ports, before the odd-count fix-up. */
    method PairEnabledPorts(valid: set<nat>) returns (nbPortsInMask: nat, lastPort: PortId)
      requires Valid()
      requires dstPorts[..] == Forwarding.Zeros()
      modifies dstPorts
      ensures Forwarding.Pairing(dstPorts[..], nbPortsInMask, lastPort)
              == Forwarding.PairFold(EnabledPorts(valid, enabledPortMask))
    {
      lastPort := 0;
      nbPortsInMask := 0;
      for portid := 0 to MAX_ETHPORTS
        invariant Forwarding.Pairing(dstPorts[..], nbPortsInMask, lastPort)
                  == Forwarding.PairFold(EnabledBelow(valid, enabledPortMask, portid))
      {
        ghost var seen := EnabledBelow(valid, enabledPortMask, portid);
        ghost var before := Forwarding.PairFold(seen);
        EnabledBelowStep(valid, enabledPortMask, portid);
        if portid !in valid || !InMask(enabledPortMask, portid) {
          continue;
        }
        if nbPortsInMask % 2 == 1 {
          dstPorts[portid] := lastPort;
          dstPorts[lastPort] := portid;
        } else {
          lastPort := portid;
        }
        nbPortsInMask := nbPortsInMask + 1;
        Forwarding.PrefixOfSnoc(seen, portid);
        assert Forwarding.PairFold(seen + [portid]) == Forwarding.PairStep(before, portid);
      }
      EnabledBelowAll(valid, enabledPortMask);
    }

    /**
     * Reset `l2fwd_dst_ports`, then fill it from the `--portmap` pairs when
     * a list was given, otherwise by pairing the enabled ports in order.
     * `oddNotice` is true when the notice about an odd port count is printed.
     */
    method BuildDstPorts(valid: set<nat>) returns (oddNotice: bool)
      requires Valid()
      modifies dstPorts
      ensures havePairs ==> dstPorts[..] == Forwarding.ExplicitTable(pairParams[..nbPairParams], 2 * nbPairParams)
      ensures havePairs ==> !oddNotice
      ensures !havePairs ==> dstPorts[..] == Forwarding.DefaultTable(EnabledPorts(valid, enabledPortMask))
      ensures !havePairs ==> oddNotice == Forwarding.OddNotice(EnabledPorts(valid, enabledPortMask))
    {
      ResetDstPorts();
      if havePairs {
        ExplicitDstPorts();
        oddNotice := false;
      } else {
        oddNotice := DefaultDstPorts(valid);
      }
    }

    // -------------------------------------------------------------------
    // main: the port/queue configuration of each logical core
    // -------------------------------------------------------------------

    /**
     * Hand every enabled port, in ascending order, to the first enabled
     * lcore from `rx_lcore_id` on whose list is not full. `ok` is false
     * when `rx_lcore_id` runs past RTE_MAX_LCORE ("Not enough cores").
     * `lcores` is the set `rte_lcore_is_enabled` accepts.
     */
    method AssignLcores(valid: set<nat>, lcores: set<nat>) returns (ok: bool)
      requires Valid()
      requires forall l :: 0 <= l < Lcores.MAX_LCORE ==> lcoreQueueConf[l] == []
      requires nbLcores == 0
      modifies lcoreQueueConf, this`nbLcores
      ensures ok == Lcores.PlaceAll(lcores, rxQueuePerLcore, EnabledPorts(valid, enabledPortMask)).Some?
      ensures ok ==> lcoreQueueConf[..] == Lcores.PlaceAll(lcores, rxQueuePerLcore, EnabledPorts(valid, enabledPortMask)).value.conf
      ensures ok ==> nbLcores == Lcores.PlaceAll(lcores, rxQueuePerLcore, EnabledPorts(valid, enabledPortMask)).value.nbLcores
    {
      var rxLcoreId: nat := 0;
      var qconf: Option<nat> := None;
      assert lcoreQueueConf[..] == Lcores.Initial().conf;
      for portid := 0 to MAX_ETHPORTS
        invariant Lcores.PlaceAll(lcores, rxQueuePerLcore, EnabledBelow(valid, enabledPortMask, portid))
                  == Some(Lcores.Placement(lcoreQueueConf[..], rxLcoreId, qconf, nbLcores))
      {
        EnabledBelowStep(valid, enabledPortMask, portid);
        if portid !in valid || !InMask(enabledPortMask, portid) {
          continue;
        }
        Lcores.PlaceAllSnoc(lcores, rxQueuePerLcore, EnabledBelow(valid, enabledPortMask, portid), portid);
        var placed;
        placed, rxLcoreId, qconf := PlacePort(lcores, portid, rxLcoreId, qconf);
        if !placed {
          Lcores.PlaceAllEnabledStops(lcores, rxQueuePerLcore, valid, enabledPortMask, portid + 1);
          return false;
        }
      }
      EnabledBelowAll(valid, enabledPortMask);
      return true;
    }

    /**
     * One turn of the port loop for an enabled port: seek the lcore, count
     * it in `nb_lcores` when `qconf` moves to it, append the port to its list.
     */
    method PlacePort(lcores: set<nat>, portid: PortId, rx: nat, qconf: Option<nat>) returns (placed: bool, rx': nat, qconf': Option<nat>)
      requires Valid() && rx < Lcores.MAX_LCORE
      modifies lcoreQueueConf, this`nbLcores
      ensures placed == Lcores.Place(lcores, rxQueuePerLcore, Lcores.Placement(old(lcoreQueueConf[..]), rx, qconf, old(nbLcores)), portid).Some?
      ensures placed ==> Lcores.Place(lcores, rxQueuePerLcore, Lcores.Placement(old(lcoreQueueConf[..]), rx, qconf, old(nbLcores)), portid)
                         == Some(Lcores.Placement(lcoreQueueConf[..], rx', qconf', nbLcores))
    {
      var lcore := SeekLcore(lcores, rx);
      if lcore.None? {
        return false, rx, qconf;
      }
      rx' := lcore.value;
      qconf' := qconf;
      if qconf' != Some(rx') {
        qconf' := Some(rx');
        nbLcores := nbLcores + 1;
      }
      lcoreQueueConf[rx'] := lcoreQueueConf[rx'] + [portid];
      placed := true;
    }

    /**
     * The `while` loop that picks the lcore for the next port: skip lcores
     * that are disabled or full; None once `rx_lcore_id` reaches RTE_MAX_LCORE.
     */
    method SeekLcore(lcores: set<nat>, rx: nat) returns (lcore: Option<nat>)
      requires Valid() && rx < Lcores.MAX_LCORE
      ensures lcore == Lcores.Seek(lcores, rxQueuePerLcore, lcoreQueueConf[..], rx)
    {
      var rxLcoreId := rx;
      while rxLcoreId !in lcores || |lcoreQueueConf[rxLcoreId]| == rxQueuePerLcore
        invariant rx <= rxLcoreId < Lcores.MAX_LCORE
        invariant Lcores.Seek(lcores, rxQueuePerLcore, lcoreQueueConf[..], rxLcoreId)
                  == Lcores.Seek(lcores, rxQueuePerLcore, lcoreQueueConf[..], rx)
        decreases Lcores.MAX_LCORE - rxLcoreId
      {
        rxLcoreId := rxLcoreId + 1;
        if rxLcoreId >= Lcores.MAX_LCORE {
          return None;
        }
      }
      return Some(rxLcoreId);
    }

    // -------------------------------------------------------------------
    // Forwarding one frame and measuring its latency
    // -------------------------------------------------------------------

    /**
     * `l2fwd_mac_updating`: one 8-byte store of `0x02 + (dest << 40)` at the
     * start of the header (the destination address and the first two bytes
     * of the source), then the port's own address copied over the source.
     */
    method MacUpdating(frame: array<u8>, destPortid: PortId)
      requires Valid() && frame.Length >= ETHER_HDR_LEN
      modifies frame
      ensures frame[..] == MacRewrite(old(frame[..]), destPortid, portsEthAddr[destPortid])
    {
      var word := LE(MacWord(destPortid), 8);
      forall k | 0 <= k < 8 {
        frame[k] := word[k];
      }
      ghost var stored := frame[..];
      assert stored == Overwrite(old(frame[..]), 0, word);
      var src := portsEthAddr[destPortid];
      forall k | ETHER_ADDR_LEN <= k < 2 * ETHER_ADDR_LEN {
        frame[k] := src[k - ETHER_ADDR_LEN];
      }
      assert frame[..] == Overwrite(stored, ETHER_ADDR_LEN, src);
    }

    /**
     * `l2fwd_simple_forward`: rewrite the header for the destination port when
     * MAC updating is on, then count what the transmit buffer reports sent
     * (`sent`, the result of `rte_eth_tx_buffer`).
     */
    method SimpleForward(frame: array<u8>, portid: PortId, sent: U64)
      requires Valid() && frame.Length >= ETHER_HDR_LEN
      modifies frame, portStatistics
      ensures (frame[..], portStatistics[..])
              == MainLoop.SimpleForward(old(portStatistics[..]), dstPorts[..], portsEthAddr[..], macUpdating,
                                        portid, old(frame[..]), sent)
    {
      var dstPort := dstPorts[portid];
      if macUpdating {
        MacUpdating(frame, dstPort);
      }
      if sent != 0 {
        var s := portStatistics[dstPort];
        portStatistics[dstPort] := s.(tx := Add64(s.tx, sent));
      }
    }

    /**
     * The integer part of `calc_sw_latency`: read the sender's timestamp
     * after the Ethernet header, and add the wrapping difference to `rxTsp`
     * (the realtime clock reading, in nanoseconds) to the port's and the
     * global latency sums.
     */
    method CalcSwLatency(frame: seq<u8>, portid: PortId, rxTsp: U64)
      requires Valid() && |frame| >= ETHER_HDR_LEN + TSC_LEN
      modifies portStatistics, this`totalLatency
      ensures portStatistics[..] == old(portStatistics[..])[portid := SwLatency(old(portStatistics[portid]), old(totalLatency), frame, rxTsp).0]
      ensures totalLatency == SwLatency(old(portStatistics[portid]), old(totalLatency), frame, rxTsp).1
    {
      var txTsp := TxTimestamp(frame);
      var diffTsp := Sub64(rxTsp, txTsp);
      var s := portStatistics[portid];
      portStatistics[portid] := s.(timestampUs := rxTsp);
      portStatistics[portid] := portStatistics[portid].(timestamp := Add64(s.timestamp, diffTsp));
      totalLatency := Add64(totalLatency, diffTsp);
    }

    // -------------------------------------------------------------------
    // l2fwd_main_loop
    // -------------------------------------------------------------------

    /**
     * The TX drain: flush the transmit buffer of each receive port's
     * destination and count what the flush reports sent (`sent[i]`, the
     * result of `rte_eth_tx_buffer_flush` for the `i`th port).
     */
    method DrainTx(rxPorts: seq<PortId>, sent: seq<U64>)
      requires Valid() && |sent| == |rxPorts|
      modifies portStatistics
      ensures portStatistics[..] == MainLoop.Flush(old(portStatistics[..]), rxPorts, dstPorts[..], sent, |rxPorts|)
    {
      for i := 0 to |rxPorts|
        invariant portStatistics[..] == MainLoop.Flush(old(portStatistics[..]), rxPorts, dstPorts[..], sent, i)
      {
        var portid := dstPorts[rxPorts[i]];
        if sent[i] != 0 {
          var s := portStatistics[portid];
          portStatistics[portid] := s.(tx := Add64(s.tx, sent[i]));
        }
      }
    }

    /**
     * One receive port: record the burst size, then count each frame and
     * take its latency. `frames` is what `rte_eth_rx_burst` returned and
     * `clocks[j]` the clock reading when frame `j` is measured.
     */
    method ReadPort(portid: PortId, frames: seq<seq<u8>>, clocks: seq<U64>)
      requires Valid() && MainLoop.Burst(frames, clocks)
      modifies portStatistics, this`totalLatency
      ensures portStatistics[..] == MainLoop.RxPort(old(portStatistics[..]), old(totalLatency), portid, frames, clocks).0
      ensures totalLatency == MainLoop.RxPort(old(portStatistics[..]), old(totalLatency), portid, frames, clocks).1
    {
      var nbRx := |frames|;
      portStatistics[portid] := portStatistics[portid].(rxBurst := nbRx);
      ghost var start := portStatistics[..];
      ghost var total0 := totalLatency;
      assert start == old(portStatistics[..])[portid := old(portStatistics[portid]).(rxBurst := nbRx)];
      for j := 0 to nbRx
        invariant portStatistics[..] == MainLoop.RxFrames(start, total0, portid, frames, clocks, j).0
        invariant totalLatency == MainLoop.RxFrames(start, total0, portid, frames, clocks, j).1
      {
        ReadFrame(portid, frames[j], clocks[j]);
      }
    }

    /** One frame of a burst: `port_statistics[portid].rx += 1`, then `calc_sw_latency`. */
    method ReadFrame(portid: PortId, frame: seq<u8>, now: U64)
      requires Valid() && |frame| >= ETHER_HDR_LEN + TSC_LEN
      modifies portStatistics, this`totalLatency
      ensures portStatistics[..] == MainLoop.RxFrame(old(portStatistics[..]), old(totalLatency), portid, frame, now).0
      ensures totalLatency == MainLoop.RxFrame(old(portStatistics[..]), old(totalLatency), portid, frame, now).1
    {
      ghost var before := portStatistics[..];
      var counted := portStatistics[portid].(rx := Add64(portStatistics[portid].rx, 1));
      portStatistics[portid] := counted;
      CalcSwLatency(frame, portid, now);
      assert before[portid := counted][portid := SwLatency(counted, old(totalLatency), frame, now).0]
          == before[portid := SwLatency(counted, old(totalLatency), frame, now).0];
    }

    /** The receive loop over the lcore's ports, in list order. */
    method ReadPorts(rxPorts: seq<PortId>, frames: seq<seq<seq<u8>>>, clocks: seq<seq<U64>>)
      requires Valid() && MainLoop.Bursts(rxPorts, frames, clocks)
      modifies portStatistics, this`totalLatency
      ensures portStatistics[..] == MainLoop.RxAll(old(portStatistics[..]), old(totalLatency), rxPorts, frames, clocks, |rxPorts|).0
      ensures totalLatency == MainLoop.RxAll(old(portStatistics[..]), old(totalLatency), rxPorts, frames, clocks, |rxPorts|).1
    {
      for i := 0 to |rxPorts|
        invariant portStatistics[..] == MainLoop.RxAll(old(portStatistics[..]), old(totalLatency), rxPorts, frames, clocks, i).0
        invariant totalLatency == MainLoop.RxAll(old(portStatistics[..]), old(totalLatency), rxPorts, frames, clocks, i).1
      {
        ReadPort(rxPorts[i], frames[i], clocks[i]);
      }
    }

    /**
     * One turn of the `while (!force_quit)` loop: when more than `drain`
     * cycles have passed since the last drain, drain the transmit buffers
     * and advance the statistics timer (`printed` when `print_stats` runs,
     * which is only on the main lcore); then read every receive port.
     */
    method LoopPass(rxPorts: seq<PortId>, drainTsc: U64, isMain: bool, prevTsc: U64, timerTsc: U64, input: MainLoop.Poll)
      returns (prev: U64, timer: U64, printed: bool)
      requires Valid()
      requires MainLoop.Shaped(Lcore(rxPorts, drainTsc, isMain), MainLoop.LoopState(portStatistics[..], totalLatency, prevTsc, timerTsc), input)
      modifies portStatistics, this`totalLatency
      ensures MainLoop.Pass(Lcore(rxPorts, drainTsc, isMain), MainLoop.LoopState(old(portStatistics[..]), old(totalLatency), prevTsc, timerTsc), input).0
              == MainLoop.LoopState(portStatistics[..], totalLatency, prev, timer)
      ensures printed == MainLoop.Pass(Lcore(rxPorts, drainTsc, isMain), MainLoop.LoopState(old(portStatistics[..]), old(totalLatency), prevTsc, timerTsc), input).1
    {
      ghost var c := Lcore(rxPorts, drainTsc, isMain);
      ghost var st := MainLoop.LoopState(portStatistics[..], totalLatency, prevTsc, timerTsc);
      prev, timer, printed := prevTsc, timerTsc, false;
      var curTsc := input.cur;
      var diffTsc := Sub64(curTsc, prevTsc);
      if diffTsc > drainTsc {
        DrainTx(rxPorts, input.sent);
        if timerPeriod > 0 {
          timer := Add64(timer, diffTsc);
          if timer >= timerPeriod {
            if isMain {
              printed := true;
              timer := 0;
            }
          }
        }
        prev := curTsc;
      }
      assert portStatistics[..] == MainLoop.Drained(c, st, input);
      ReadPorts(rxPorts, input.frames, input.clocks);
    }

    /** The parameters of the loop on one lcore, with the current table and timer period. */
    ghost function Lcore(rxPorts: seq<PortId>, drainTsc: U64, isMain: bool): MainLoop.Lcore
      reads this, dstPorts
    {
      MainLoop.Lcore(rxPorts, dstPorts[..], drainTsc, timerPeriod, isMain)
    }

    /**
     * `l2fwd_main_loop` on lcore `lcoreId`, for as many turns as `passes`
     * has polls. An lcore with no receive ports returns at once. `hz` is
     * `rte_get_tsc_hz()`; `isMain` says whether this is the main lcore.
     */
    method RunMainLoop(lcoreId: nat, isMain: bool, hz: U64, passes: seq<MainLoop.Poll>)
      requires Valid() && lcoreId < Lcores.MAX_LCORE
      requires forall k :: 0 <= k < |passes| ==>
                 |passes[k].sent| == |lcoreQueueConf[lcoreId]|
                 && MainLoop.Bursts(lcoreQueueConf[lcoreId], passes[k].frames, passes[k].clocks)
      modifies portStatistics, this`totalLatency
      ensures portStatistics[..]
              == MainLoop.Run(MainLoop.Lcore(lcoreQueueConf[lcoreId], dstPorts[..], DrainTsc(hz), timerPeriod, isMain),
                              old(portStatistics[..]), old(totalLatency), passes).stats
      ensures totalLatency
              == MainLoop.Run(MainLoop.Lcore(lcoreQueueConf[lcoreId], dstPorts[..], DrainTsc(hz), timerPeriod, isMain),
                              old(portStatistics[..]), old(totalLatency), passes).total
    {
      var drainTsc := DrainTsc(hz);
      var prevTsc: U64 := 0;
      var timerTsc: U64 := 0;
      var rxPorts := lcoreQueueConf[lcoreId];
      if |rxPorts| == 0 {
        return;
      }
      ghost var c := Lcore(rxPorts, drainTsc, isMain);
      ghost var st0 := MainLoop.LoopState(portStatistics[..], totalLatency, 0, 0);
      for k := 0 to |passes|
        invariant MainLoop.RunFrom(c, st0, passes, k) == MainLoop.LoopState(portStatistics[..], totalLatency, prevTsc, timerTsc)
      {
        var printed;
        prevTsc, timerTsc, printed := LoopPass(rxPorts, drainTsc, isMain, prevTsc, timerTsc, passes[k]);
      }
    }

    // -------------------------------------------------------------------
    // print_stats: the aggregate counters
    // -------------------------------------------------------------------

    /** The totals `print_stats` accumulates over the ports enabled in the mask. */
    method StatsTotals() returns (totals: Totals)
      requires Valid()
      ensures totals == TotalsBelow(portStatistics[..], enabledPortMask, MAX_ETHPORTS)
    {
      var totalPacketsDropped: U64 := 0;
      var totalPacketsTx: U64 := 0;
      var totalPacketsRx: U64 := 0;
      for portid := 0 to MAX_ETHPORTS
        invariant Totals(totalPacketsTx, totalPacketsRx, totalPacketsDropped) == TotalsBelow(portStatistics[..], enabledPortMask, portid)
      {
        if !InMask(enabledPortMask, portid) {
          continue;
        }
        totalPacketsDropped := Add64(totalPacketsDropped, portStatistics[portid].dropped);
        totalPacketsTx := Add64(totalPacketsTx, portStatistics[portid].tx);
        totalPacketsRx := Add64(totalPacketsRx, portStatistics[portid].rx);
      }
      return Totals(totalPacketsTx, totalPacketsRx, totalPacketsDropped);
    }
  }
}
