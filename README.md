# Verified model of the DPDK latency listener (`listener/main.c`)

The listener is a DPDK layer-2 forwarding application. It was adapted to
measure latency: every received frame carries, right after its 14-byte
Ethernet header, the 8-byte time at which the sender stamped it. The
listener adds the difference to its clock to per-port and global sums.

This project models the deterministic core of `main.c` in Dafny and proves
what that code promises:

- **Option parsers.** `l2fwd_parse_portmask`, `l2fwd_parse_nqueue`,
  `l2fwd_parse_timer_period` and `l2fwd_parse_port_pair_config`, with the
  `l2fwd_parse_args` case that consumes each of them.
- **Pair check.** `check_port_pair_config` and the port-mask check of
  `main`.
- **Destination table.** The `l2fwd_dst_ports` construction in `main`, from
  the `--portmap` pairs or by pairing the enabled ports in order.
- **Lcore assignment.** The block of `main` that hands every enabled port to
  a logical core, at most `l2fwd_rx_queue_per_lcore` ports per lcore.
- **Header rewrite and forwarding.** `l2fwd_mac_updating` and
  `l2fwd_simple_forward`.
- **Main loop.** `l2fwd_main_loop`: the TX-drain deadline in wrapping 64-bit
  cycles, the statistics timer, and the per-port `rx`, `rx_burst` and `tx`
  counters.
- **Latency.** The integer part of `calc_sw_latency` and `tsc_field`.
- **Totals.** The aggregate counters summed by `print_stats`.

The globals that this code updates in place live in one class,
`Listener.L2fwd`. Its methods keep the loops and array writes of the C code.
Each method is proved against a specification function in a value-level
module:

| module | what it holds |
|---|---|
| `CLib` | `strchr`, the two-field `rte_strsplit`, and the `strtoul`/`strtol` front end |
| `Ports` | port ids, 32-bit port masks, the ports `RTE_ETH_FOREACH_DEV` visits and the mask does not skip |
| `Options` | the value parsers |
| `PairCheck` | `check_port_pair_config` |
| `Forwarding` | both ways of filling `l2fwd_dst_ports` |
| `Lcores` | the port-to-lcore placement |
| `Ether` | byte layout, the MAC rewrite and the timestamp field |
| `Stats` | `uint64_t` arithmetic, latency accounting, the drain deadline, the timer, and the `print_stats` totals |
| `MainLoop` | one pass of `l2fwd_main_loop`, and any number of passes |

Properties are then proved about those functions:

- **Round trips.** A mask, a queue count and a pair list written out as
  text parse back to the same values.
- **Pair check.** `check_port_pair_config` succeeds exactly when every pair
  port is enabled and no port is in two pairs. The narrowed mask is then
  exactly the pair ports.
- **Destination table.** Both ways of filling the table are involutions
  (`dst[dst[p]] == p`). Only the last port of an odd count forwards to
  itself.
- **Lcore assignment.** It lists every enabled port once, in ascending
  order, over ascending lcores. It never exceeds the per-lcore capacity, and
  it fails exactly when the enabled lcores are too few.
- **Latency accounting.** On one lcore, `total_latency` stays equal to the
  sum of the ports' `timestamp` counters modulo 2^64.

DPDK calls and clocks are inputs of the model:

- the ports `rte_eth_dev_is_valid_port` accepts (`valid`);
- the enabled lcores (`lcores`);
- `rte_get_tsc_hz()` and `rte_get_timer_hz()` (`hz`);
- `rte_rdtsc()` for each pass (`Poll.cur`);
- the frames each `rte_eth_rx_burst` returns;
- the `CLOCK_REALTIME` reading taken for each frame;
- the counts the TX flush and `rte_eth_tx_buffer` report sent.

Where the usage text and the code disagree, the model follows the code. The
usage text of `-T` says "86400 maximum", but the code refuses 86400:
`Options.TimerPeriodBound` proves the code's behaviour.

Constants used:

| constant | value |
|---|---|
| `RTE_MAX_ETHPORTS` | 32 |
| `RTE_MAX_LCORE` | 128, the DPDK default build configuration |
| `MAX_PKT_BURST` | 32 |
| `MAX_RX_QUEUE_PER_LCORE` | 16 |
| `MAX_TIMER_PERIOD` | 86400 |
| `BURST_TX_DRAIN_US` | 100 |

Multi-byte loads and stores are little-endian, as on x86. `unsigned long`
and `long` are 64 bits wide.

## Model

| member | source | states |
|---|---|---|
| Listener.L2fwd.constructor | listener/main.c:46-147 | the globals start zeroed, with `l2fwd_rx_queue_per_lcore = 1`, `timer_period = 10` and `mac_updating = 1` |
| Listener.L2fwd.OptionPortmask | listener/main.c:895-902 | `-p` stores `l2fwd_parse_portmask`'s result in the mask and fails exactly when it is 0 |
| Listener.L2fwd.OptionNqueue | listener/main.c:905-912 | `-q` stores the parsed count; it succeeds exactly when the count is in 1..15 |
| Listener.L2fwd.OptionTimerPeriod | listener/main.c:915-923 | `-T` succeeds exactly when the parsed period is not negative and then stores it; on failure `timer_period` is unchanged |
| Listener.L2fwd.TimerPeriodToCycles | listener/main.c:1097 | `timer_period *= hz` in `uint64_t`: the product modulo 2^64 (`Stats.Mul64`) |
| Listener.L2fwd.ParsePortPairConfig | listener/main.c:763-816 | returns 0 exactly when the text parses; `port_pair_params_array[..nb_port_pair_params]` holds the pairs in input order, including those recorded before a failure; `port_pair_params` is set only on success |
| Listener.L2fwd.ParseGroup | listener/main.c:787-802 | a group is refused when it does not fit the 256-byte buffer, does not split into two fields, or has a field that is not a port id |
| Listener.L2fwd.AppendPair | listener/main.c:808-812 | the recorded pairs grow by exactly the new pair at the end |
| Listener.L2fwd.NextGroup | listener/main.c:781-783 | finds the next `(`; reports done exactly when there is none |
| Listener.L2fwd.GroupAfter | listener/main.c:783-802 | no `)` after a `(` is a failure; otherwise parses the text up to it and continues from it |
| Listener.L2fwd.CheckPortPairConfig | listener/main.c:953-989 | returns 0 exactly when the pair check accepts; the mask is then ANDed with the union of the pair ports, otherwise unchanged |
| Listener.L2fwd.PairConfigMask | listener/main.c:960-984 | the outer loop's result is the check's result: -1 on the first bad pair, else `port_pair_config_mask` |
| Listener.L2fwd.PairMask | listener/main.c:963-978 | ok exactly when both ports of the pair are enabled and present; `port_pair_mask` is then the bits of both |
| Listener.L2fwd.CheckPortmask | listener/main.c:1108-1111 | passes exactly when every enabled port is below `nb_ports` (corrected shift, see Findings) |
| Listener.L2fwd.ResetDstPorts | listener/main.c:1113-1116 | every table entry becomes 0 |
| Listener.L2fwd.ExplicitDstPorts | listener/main.c:1119-1127 | the table after the loop over `nb_port_pair_params << 1` steps, each writing one port of a pair to the other |
| Listener.L2fwd.DefaultDstPorts | listener/main.c:1128-1146 | the table pairs the enabled ports in ascending order, and the notice is printed exactly for an odd count |
| Listener.L2fwd.PairEnabledPorts | listener/main.c:1129-1142 | the table, `nb_ports_in_mask` and `last_port` after the port loop equal the fold over the enabled ports |
| Listener.L2fwd.BuildDstPorts | listener/main.c:1113-1147 | the explicit table when pairs were given, otherwise the default table and its notice |
| Listener.L2fwd.AssignLcores | listener/main.c:1149-1177 | fails ("Not enough cores") exactly when the placement of the enabled ports fails; otherwise the lists and `nb_lcores` are the placement's |
| Listener.L2fwd.PlacePort | listener/main.c:1158-1176 | one port: seek the lcore; on success append the port to it and count the lcore when `qconf` moves |
| Listener.L2fwd.SeekLcore | listener/main.c:1159-1165 | the first lcore from `rx_lcore_id` on that is enabled and not full, or none before RTE_MAX_LCORE |
| Listener.L2fwd.MacUpdating | listener/main.c:572-586 | the array afterwards holds the rewritten frame: the 8-byte store, then the source address copy |
| Listener.L2fwd.SimpleForward | listener/main.c:588-606 | the frame and the counters afterwards are those of the forwarding function |
| Listener.L2fwd.CalcSwLatency | listener/main.c:178-192 | only the port's latency fields and `total_latency` change, as the latency function says |
| Listener.L2fwd.DrainTx | listener/main.c:654-663 | the counters after the flush loop over the lcore's rx ports |
| Listener.L2fwd.ReadPort | listener/main.c:696-712 | the counters and `total_latency` after one poll: `rx_burst = nb_rx`, then each frame |
| Listener.L2fwd.ReadFrame | listener/main.c:706-710 | one frame: `rx += 1`, then the latency |
| Listener.L2fwd.ReadPorts | listener/main.c:691-719 | the state after polling every rx port in list order |
| Listener.L2fwd.LoopPass | listener/main.c:644-719 | one pass of the `while` loop: the new counters, `prev_tsc`, `timer_tsc` and whether stats print |
| Listener.L2fwd.RunMainLoop | listener/main.c:609-721 | the counters and `total_latency` after any number of passes; an lcore without rx ports changes nothing |
| Listener.L2fwd.StatsTotals | listener/main.c:333-411 | the three totals are accumulated over the enabled ports |
| CLib.Find | listener/main.c:781-783 | `strchr`: the first occurrence, or none when the character is absent |
| CLib.SplitTwo | listener/main.c:793-795 | two fields exactly when a comma comes before the last character; the first field is the text before the first comma. The second is the rest, which equals `rte_strsplit`'s field except when the rest starts with a comma (C then gives ""), and the port parse refuses both |
| CLib.StrToUL | listener/main.c:798-801 | result within `unsigned long`; a range error exactly when the magnitude exceeds ULONG_MAX |
| CLib.StrToL | listener/main.c:843 | result within `long`; a range error exactly when the signed magnitude lies outside LONG_MIN..LONG_MAX |
| CLib.ScanNumber | listener/main.c:798 | the C scan behind `strtoul`/`strtol` stops within the string, and reading no digit yields end 0 and no sign; its meaning on numerals is `CLib.ScanNumeral` |
| CLib.ScanNumeral | listener/main.c:825 | a decimal or hex numeral, optionally followed by a non-digit, is read back as its value and ends after the digits |
| CLib.ScanHexPrefixed | listener/main.c:756 | base-16 `strtoul` skips a `0x`/`0X` prefix |
| CLib.ScanNegativeNumeral | listener/main.c:843 | a leading `-` is read as the sign |
| CLib.ScanNumeralAutoBase | listener/main.c:798 | base 0 reads a decimal numeral as decimal, `0` included |
| Ports.EnabledFromExact | listener/main.c:1129-1132 | the visited enabled ports are exactly the enabled ones, each once, ascending |
| Ports.EnabledFrom | listener/main.c:1129-1132 | the ports `RTE_ETH_FOREACH_DEV` visits from id `from` that the mask does not skip; described by `Ports.EnabledFromExact` |
| Ports.EnabledSplit | listener/main.c:1153-1156 | the ports seen before id `n` followed by the ones from `n` make up all enabled ports |
| Ports.EnabledBelowStep | listener/main.c:1153-1156 | one more port id adds it to the ports seen exactly when it is enabled |
| Ports.EnabledBelowAll | listener/main.c:1153 | after the last id, every enabled port has been seen |
| Ports.MaskFits | listener/main.c:1110 | the check `l2fwd_enabled_port_mask & ~possible` is zero; meaning in `Ports.MaskFitsExact` |
| Ports.PossibleMaskAsWritten | listener/main.c:1109 | `(1 << nb_ports) - 1` with the x86 shift count taken modulo 32; its consequence is `Ports.AllPortsRefused` |
| Ports.PossibleMask | listener/main.c:1109 | the intended mask of ports below `nb_ports`; described by `Ports.PossibleMaskExact` and `Ports.PossibleMaskAgrees` |
| Ports.AllPortsRefused | listener/main.c:1108-1111 | as written, 32 ports make the check refuse every nonzero mask |
| Ports.PossibleMaskAgrees | listener/main.c:1109 | below 32 ports, the shift as written equals the intended mask |
| Ports.PossibleMaskExact | listener/main.c:1109-1111 | the intended mask holds exactly the ports below `nb_ports` |
| Ports.MaskFitsExact | listener/main.c:1108-1111 | the check passes exactly when every enabled port is below `nb_ports` |
| Options.ToInt32 | listener/main.c:840-843 | the `long` to `int` conversion keeps the value modulo 2^32, in int range, and leaves in-range values alone |
| Options.ParsePortmask | listener/main.c:749-761 | empty text gives 0; a nonzero mask comes from a fully consumed base-16 `strtoul` and is its low 32 bits; round trips in `Options.PortmaskRoundTrip` |
| Options.ParseNqueue | listener/main.c:818-834 | the result is below 16; a nonzero result is the whole string read as decimal |
| Options.ParseTimerPeriod | listener/main.c:836-850 | the result is an `int` below 86400; anything but -1 comes from a fully consumed string |
| Options.TimerOption | listener/main.c:915-921 | the option is refused exactly when the parser returns a negative value |
| Options.PortmaskRoundTrip | listener/main.c:749-761 | every 32-bit mask written in hex parses back to itself |
| Options.PortmaskRoundTripPrefixed | listener/main.c:756-760 | the same with a `0x` prefix |
| Options.PortmaskTrailingJunk | listener/main.c:757-758 | a trailing non-hex character makes the result 0 |
| Options.PortmaskKeepsLow32Bits | listener/main.c:760 | a longer hex number keeps only its low 32 bits |
| Options.NqueueRoundTrip | listener/main.c:818-834 | a decimal count is accepted exactly in 1..15, otherwise 0 |
| Options.TimerPeriodOfNumeral | listener/main.c:836-850 | a decimal period is truncated to `int`, then accepted only below 86400 |
| Options.TimerPeriodBound | listener/main.c:846-847 | 0..86399 is accepted as written; 86400 and above (up to INT_MAX) is refused |
| Options.TimerPeriodWraps | listener/main.c:840-843 | 2^32 + k seconds is accepted as k |
| Options.TimerPeriodNegative | listener/main.c:916-921 | `-n` parses to -n and the option refuses it |
| Options.PortField | listener/main.c:796-802 | an accepted field was read by `strtoul` as that port number |
| Options.GroupPair | listener/main.c:787-795 | an accepted group fits the buffer and splits into two fields |
| Options.PortFieldOfNumeral | listener/main.c:798-801 | a decimal field is a port exactly when it is below 32 |
| Options.SplitNumerals | listener/main.c:793-795 | `a,b` splits into its two numerals |
| Options.GroupOfNumerals | listener/main.c:787-802 | the group `a,b` is accepted exactly when both are below 32 |
| Options.NextGroup | listener/main.c:781-783 | done exactly when no `(` remains; the scan always moves forward |
| Options.GroupAfter | listener/main.c:783-785 | the text after a `(` never ends the scan successfully |
| Options.ParseGroups | listener/main.c:781-813 | the pairs recorded earlier are kept as a prefix; at most 16 are held |
| Options.ParsePortPairConfig | listener/main.c:779-816 | at most 16 pairs; input without `(` gives success and no pairs |
| Options.SkipText | listener/main.c:781 | text without `(` is skipped |
| Options.GroupFound | listener/main.c:781-802 | the text `(a,b)` is found as the next group, and the scan resumes at its `)` |
| Options.GroupStep | listener/main.c:803-812 | a well-formed group is recorded while fewer than 16 pairs are held; the 17th fails |
| Options.PairsRoundTrip | listener/main.c:779-816 | the text of a pair list parses back to it, or fails with its first 16 pairs |
| Options.PortPairConfigRoundTrip | listener/main.c:763-816 | `--portmap` text of up to 16 pairs parses to those pairs in order; more fails |
| Options.UnclosedGroup | listener/main.c:783-785 | a `(` without `)` fails |
| Options.GroupTooLong | listener/main.c:787-789 | a group of 256 characters or more fails |
| PairCheck.PartialBitsWhole | listener/main.c:962-977 | the inner loop builds the bits of both ports |
| PairCheck.CheckPrefix | listener/main.c:960-984 | the outer loop after `n` pairs: -1 at the first refused pair, else `port_pair_config_mask`; described by `PairCheck.CheckPrefixAccepts` and `PairCheck.CheckPrefixMask` |
| PairCheck.CheckPairs | listener/main.c:953-989 | the whole check; its promise is `PairCheck.CheckPairsExact` |
| PairCheck.CheckPrefixStops | listener/main.c:960-984 | once -1 is returned, later pairs do not matter |
| PairCheck.CheckPrefixAccepts | listener/main.c:960-984 | the first `n` pairs are accepted exactly when each port is enabled and no two pairs share a port |
| PairCheck.StepAccepts | listener/main.c:960-984 | the next pair is accepted exactly when its ports are enabled and not named yet |
| PairCheck.CheckPrefixMask | listener/main.c:976-983 | `port_pair_config_mask` holds exactly the ports named so far |
| PairCheck.CheckStep | listener/main.c:960-984 | one turn: a disabled port ends the check, otherwise the overlap test decides |
| PairCheck.CheckTurn | listener/main.c:960-984 | one turn as the code takes it: a refused pair makes the whole check fail, an accepted one extends the mask |
| PairCheck.AddPairExact | listener/main.c:979-983 | a pair is refused exactly when the mask already holds one of its ports; otherwise the mask gains its bits |
| PairCheck.PairOverlap | listener/main.c:979 | the overlap test is nonzero exactly when the mask holds one of the pair's ports |
| PairCheck.ExtendMask | listener/main.c:983 | `|=` adds exactly the pair's ports |
| PairCheck.PairBitsExact | listener/main.c:976 | a pair's mask holds its two ports and no other |
| PairCheck.PairBits | listener/main.c:976 | `port_pair_mask` of one pair; described by `PairCheck.PairBitsExact` |
| PairCheck.AddMask | listener/main.c:979-983 | the overlap test then the `|=`; described by `PairCheck.AddPairExact` |
| PairCheck.CheckPairsExact | listener/main.c:953-989 | success exactly when every port is enabled and none is shared; the mask then holds exactly the named ports |
| PairCheck.NarrowedMask | listener/main.c:986 | a port stays enabled exactly when it was enabled and is in the pair mask |
| PairCheck.NarrowedToPairs | listener/main.c:986 | after success the enabled ports are exactly the pair ports |
| PairCheck.SelfPairAccepted | listener/main.c:963-983 | `(a,a)` with `a` enabled is accepted |
| PairCheck.SharedPortRejected | listener/main.c:979-981 | a port in two pairs makes the check fail |
| PairCheck.DisabledPortRejected | listener/main.c:965-974 | a disabled or absent port makes the check fail |
| Forwarding.Zeros | listener/main.c:1113-1115 | the table after the reset: 32 zero entries |
| Forwarding.ExplicitTable | listener/main.c:1119-1127 | the table after `k` steps of the explicit loop, 32 entries; described by `Forwarding.ExplicitTableExact` and `Forwarding.ExplicitTableInvolution` |
| Forwarding.AcceptedDisjoint | listener/main.c:1103-1106 | pairs that passed the check are disjoint |
| Forwarding.SameSourceSameTarget | listener/main.c:1122-1127 | two steps that write the same entry write the same value |
| Forwarding.ExplicitEntry | listener/main.c:1122-1127 | an entry no step wrote is 0; otherwise it holds what its writers wrote |
| Forwarding.Source | listener/main.c:1123-1124 | `port_pair_params[idx >> 1].port[idx & 1]`, the entry step `idx` writes; described by `Forwarding.ExplicitEntry` |
| Forwarding.Target | listener/main.c:1125-1126 | `port_pair_params[idx >> 1].port[(idx & 1) ^ 1]`, the value step `idx` writes; described by `Forwarding.ExplicitEntry` |
| Forwarding.ExplicitTableExact | listener/main.c:1119-1127 | each pair's ports point at each other; unnamed ports keep 0 |
| Forwarding.ExplicitTableInvolution | listener/main.c:1119-1127 | `dst[dst[p]] == p` for every pair port |
| Forwarding.Partner | listener/main.c:1134-1146 | the reference pairing of positions stays in range |
| Forwarding.PartnerInvolution | listener/main.c:1134-1146 | the reference pairing is an involution |
| Forwarding.PartnerSelf | listener/main.c:1143-1146 | a position is its own partner exactly when it is the last of an odd count |
| Forwarding.PairStep | listener/main.c:1134-1141 | one turn of the default pairing loop, keeping 32 entries; described by `Forwarding.PairStepTable` |
| Forwarding.PairFold | listener/main.c:1129-1141 | the loop over the enabled ports; described by `Forwarding.FoldCounter`, `Forwarding.FoldOutside` and `Forwarding.FoldEntry` |
| Forwarding.DefaultTable | listener/main.c:1128-1147 | the default table including the odd fix-up; described by `Forwarding.DefaultTableEntry` and `Forwarding.DefaultTableSymmetric` |
| Forwarding.FoldCounter | listener/main.c:1134-1141 | `nb_ports_in_mask` counts the ports; after an odd count `last_port` is the last one |
| Forwarding.FoldOutside | listener/main.c:1129-1132 | a skipped port keeps entry 0 |
| Forwarding.FoldEntry | listener/main.c:1134-1141 | the entry of each visited port before the odd fix-up: its partner, or 0 when unpaired |
| Forwarding.PairStepTable | listener/main.c:1134-1139 | one turn that completes a pair points both ports at each other |
| Forwarding.DefaultTableEntry | listener/main.c:1129-1146 | the k-th enabled port forwards to the port at its partner position |
| Forwarding.DefaultTableOutside | listener/main.c:1113-1132 | ports that are not enabled keep destination 0 |
| Forwarding.DefaultTableSymmetric | listener/main.c:1143-1146 | `dst[dst[p]] == p`, and `p` forwards to itself exactly when it is the odd last port |
| Ports.EnabledDistinct | listener/main.c:1129 | the visited ports are distinct |
| Lcores.Seek | listener/main.c:1159-1165 | the first enabled, not-full lcore at or after `rx_lcore_id`, or none before RTE_MAX_LCORE |
| Lcores.Place | listener/main.c:1158-1176 | one turn of the port loop keeps 128 lists and an lcore id below RTE_MAX_LCORE; described by `Lcores.PlaceKeepsLayout` and `Lcores.PlaceFails` |
| Lcores.PlaceAll | listener/main.c:1149-1177 | the whole assignment; its promise is `Lcores.PlaceAllExact` |
| Lcores.PlaceKeepsLayout | listener/main.c:1158-1176 | placing a port keeps the layout: lists in lcore order hold the placed ports, full lcores before the current one, `nb_lcores` counts used lcores |
| Lcores.PlaceFails | listener/main.c:1159-1165 | no lcore is found exactly when every enabled lcore is full |
| Lcores.PlaceAllExact | listener/main.c:1149-1177 | the assignment succeeds exactly when the enabled lcores can hold all ports, and then yields the layout |
| Lcores.PlacementBounds | listener/main.c:1159-1174 | no list exceeds `l2fwd_rx_queue_per_lcore`; only enabled lcores get ports; `nb_lcores` counts the lcores used |
| Lcores.PlacedCount | listener/main.c:1159-1174 | the ports placed so far are the full lcores' share plus the current list |
| Lcores.FlattenAppend | listener/main.c:1173-1174 | appending to the current lcore appends to the lists read in lcore order |
| Lcores.CountUsedUpdate | listener/main.c:1167-1171 | an lcore that receives its first port adds one to the used count |
| Lcores.PlaceAllStops | listener/main.c:1163-1164 | after the exit, later ports change nothing |
| Lcores.PlaceAllSnoc | listener/main.c:1153-1177 | placing one more port is one more turn of the loop |
| Lcores.PlaceAllEnabledStops | listener/main.c:1153-1164 | an exit at some port is an exit of the whole assignment |
| Lcores.PlacedListsDistinct | listener/main.c:1149-1177 | after a successful assignment each lcore's list holds enabled ports, none twice, and no port is on two lcores |
| Ether.LoadStore | listener/main.c:170-176 | loading a stored value that fits gives it back |
| Ether.StoreLoad | listener/main.c:582 | storing a loaded value gives back the bytes |
| Ether.OverwriteRead | listener/main.c:581-585 | written bytes read back; the rest of the frame is kept |
| Ether.TxTimestamp | listener/main.c:186-187 | the timestamp is a `uint64_t` |
| Ether.TimestampRoundTrip | listener/main.c:170-187 | the timestamp the sender stores after the header is the one read |
| Ether.MacWordBytes | listener/main.c:580-582 | the store writes `02 00 00 00 00 dd 00 00` |
| Ether.MacWord | listener/main.c:582 | the stored word `0x2 + (dest << 40)`; its bytes are given by `Ether.MacWordBytes` |
| Ether.MacRewrite | listener/main.c:572-586 | the frame after the rewrite keeps its length; its promise is `Ether.MacRewriteHeader` |
| Ether.MacRewriteHeader | listener/main.c:572-586 | destination `02:00:00:00:00:(d mod 256)`, source = port d's address, the rest unchanged |
| Ether.PortMacKind | listener/main.c:580-582 | the new destination is a locally administered unicast address |
| Ether.MacRewriteIdempotent | listener/main.c:572-586 | rewriting twice for the same port is rewriting once |
| Ether.MacRewriteKeepsTimestamp | listener/main.c:572-586 | the rewrite keeps the timestamp at offset 14 |
| Stats.Add64 | listener/main.c:190-192 | `uint64_t` addition wraps past 2^64 |
| Stats.Sub64 | listener/main.c:188 | the wrapping difference, added back, gives the minuend |
| Stats.SubAdd | listener/main.c:188 | subtraction undoes addition, wrap-around included |
| Stats.Mul64 | listener/main.c:1097 | `uint64_t` multiplication: congruent to the product modulo 2^64, and exact when it fits |
| Stats.SwLatency | listener/main.c:178-192 | the integer part of `calc_sw_latency`; its promise is `Stats.SwLatencyMeasures` |
| Stats.SwLatencyMeasures | listener/main.c:178-192 | the added latency plus the timestamp gives the clock reading; it is the plain difference without wrap; only `timestamp` and `timestamp_us` change |
| Stats.SwLatencyOfStamp | listener/main.c:186-192 | a frame stamped at `t` adds `now - t` |
| Stats.ZeroBalanced | listener/main.c:139-143 | zeroed counters balance a zero total |
| Stats.SwLatencyBalanced | listener/main.c:190-192 | one frame keeps `total_latency` = sum of `timestamp` modulo 2^64 |
| Stats.WrapBalance | listener/main.c:190-192 | replacing one summand by its wrapping increase moves the wrapped sum by the same amount |
| Stats.CountersBalanced | listener/main.c:700-706 | changing counters other than `timestamp` keeps the balance |
| Stats.DrainTsc | listener/main.c:619-620 | `drain_tsc` in wrapping `uint64_t` arithmetic; bounds in `Stats.DrainTscBounds` |
| Stats.DrainDue | listener/main.c:651-652 | the drain test `cur_tsc - prev_tsc > drain_tsc` on the wrapping difference; its effect on a pass is `MainLoop.PassSchedule` |
| Stats.DrainTscBounds | listener/main.c:619-620 | `drain_tsc` is ceil(hz/10^6)*100: at least 100 us of cycles, under 100 us plus 100 cycles |
| Stats.TimerStep | listener/main.c:666-683 | the timer block; its promise is `Stats.TimerStepSpec` |
| Stats.TimerStepSpec | listener/main.c:666-683 | the timer advances by `diff` only when enabled; on the main lcore it prints exactly on reaching the period and then restarts from 0, and stays below the period; below the period and on every other lcore it is `timer + diff` (mod 2^64) and never resets; a zero period changes nothing |
| Stats.TotalsBelow | listener/main.c:333-411 | the totals over ports below `n`; described by `Stats.TotalsAreSums` and `Stats.TotalsIgnoreDisabled` |
| Stats.TotalsAreSums | listener/main.c:409-411 | each total is the sum over enabled ports modulo 2^64 |
| Stats.TotalsIgnoreDisabled | listener/main.c:347-350 | ports outside the mask do not reach the totals |
| MainLoop.Flush | listener/main.c:654-663 | the flush loop keeps 32 counters; its promise is `MainLoop.FlushEffect` |
| MainLoop.FlushEffect | listener/main.c:654-663 | each port's `tx` grows by what was flushed through it, modulo 2^64; nothing else changes |
| MainLoop.SentToNone | listener/main.c:654-663 | a port that is no rx port's destination gets nothing |
| MainLoop.SimpleForward | listener/main.c:588-606 | the frame keeps its length and 32 counters remain; its promise is `MainLoop.SimpleForwardEffect` |
| MainLoop.SimpleForwardEffect | listener/main.c:588-606 | with MAC updating the frame gets the rewritten header, otherwise it is untouched; only `tx` of `dst[portid]` grows, by `sent` |
| MainLoop.RxFrame | listener/main.c:706-710 | one received frame; described by `MainLoop.RxFrameStep` and `MainLoop.RxFrameBalanced` |
| MainLoop.RxFrames | listener/main.c:703-712 | the frames of one poll; described by `MainLoop.RxFramesCounts` and `MainLoop.RxFramesBalanced` |
| MainLoop.RxPort | listener/main.c:696-712 | one poll; described by `MainLoop.RxPortEffect` and `MainLoop.RxPortBalanced` |
| MainLoop.RxAll | listener/main.c:691-719 | the receive loop; described by `MainLoop.RxAllKeeps`, `MainLoop.RxAllPolled` and `MainLoop.RxAllBalanced` |
| MainLoop.RxFramesCounts | listener/main.c:703-712 | `rx` grows by the number of frames modulo 2^64; `tx`, `dropped`, `rx_burst` and other ports are unchanged |
| MainLoop.RxFramesRx | listener/main.c:703-706 | `rx` grows by one per frame |
| MainLoop.RxFramesKeeps | listener/main.c:703-712 | the other counters and ports are kept |
| MainLoop.RxFrameStep | listener/main.c:706-710 | one frame raises `rx` by one and touches only the latency fields otherwise |
| MainLoop.RxFramesBalanced | listener/main.c:703-712 | polling keeps the latency balance |
| MainLoop.RxFrameBalanced | listener/main.c:706-710 | one frame keeps the latency balance |
| MainLoop.RxPortEffect | listener/main.c:696-712 | one poll sets `rx_burst = nb_rx` and raises `rx` by `nb_rx`; `tx`, `dropped` and other ports are kept |
| MainLoop.RxPortBalanced | listener/main.c:696-712 | one poll keeps the latency balance |
| MainLoop.RxAllKeeps | listener/main.c:691-719 | the receive loop keeps `tx` and `dropped`, and all counters of ports not polled |
| MainLoop.RxAllPolled | listener/main.c:691-719 | each rx port (listed once) ends with `rx_burst` = its poll size and `rx` raised by it |
| MainLoop.RxAllPolledLast | listener/main.c:696-712 | the last polled port is untouched before its own poll |
| MainLoop.RxAllBalanced | listener/main.c:691-719 | the receive loop keeps the latency balance |
| MainLoop.Drained | listener/main.c:651-663 | the counters after the drain test; its promise is `MainLoop.DrainedEffect` |
| MainLoop.Pass | listener/main.c:644-719 | one pass; described by `MainLoop.PassSchedule`, `MainLoop.PassCounters`, `MainLoop.PassPolled` and `MainLoop.PassBalanced` |
| MainLoop.PassSchedule | listener/main.c:651-686 | `prev_tsc` moves to `cur_tsc` exactly when `cur - prev` (mod 2^64) exceeds `drain_tsc`; the timer moves only then; only the main lcore prints |
| MainLoop.DrainedEffect | listener/main.c:651-663 | the drain raises `tx` by the flushed counts when due, nothing otherwise |
| MainLoop.PassCounters | listener/main.c:644-719 | per port after a pass: `tx` as flushed, `dropped` kept, untouched ports kept |
| MainLoop.PassPolled | listener/main.c:691-712 | after a pass each rx port's `rx` grew by its poll size and `rx_burst` equals it, for rx lists without repeats, as `Lcores.PlacedListsDistinct` shows the assignment builds |
| MainLoop.PassBalanced | listener/main.c:644-719 | one pass keeps the latency balance |
| MainLoop.SameTimestamps | listener/main.c:654-663 | counters with equal `timestamp` fields balance the same total |
| MainLoop.Run | listener/main.c:609-721 | the loop from `prev_tsc = timer_tsc = 0`, or nothing for an idle lcore; described by `MainLoop.IdleLcore` and `MainLoop.RunFromZero` |
| MainLoop.RunFrom | listener/main.c:644-720 | the state after `k` passes; described by `MainLoop.RunBalanced` |
| MainLoop.IdleLcore | listener/main.c:629-632 | an lcore with no rx ports changes nothing |
| MainLoop.RunBalanced | listener/main.c:644-720 | any number of passes keeps the latency balance |
| MainLoop.RunFromZero | listener/main.c:623-720 | from zeroed counters the balance holds after every pass |

## Left out

- EAL initialisation, mbuf pools, queue setup, device start, promiscuous mode, link-status polling, port close and the signal handler (listener/main.c:991-1063, 1078-1101, 1180-1340): device I/O.
- The `getopt_long` driver of `l2fwd_parse_args`: it is library iteration. Each option's case is modelled on its own, and the `--mac-updating`/`--no-mac-updating` flags appear only as the `macUpdating` field.
- The `nb_ports == 0` exit, and `rte_exit` in general: modelled as a failing result (`ok == false`, `ret == -1`) instead of terminating the process.
- `rte_eth_rx_burst`, `rte_eth_tx_buffer`, `rte_eth_tx_buffer_flush`, `rte_rdtsc`, the timer hz and `get_time_nanosec`: their results are inputs of the model. The drop callback that would raise `dropped` is not modelled, so `dropped` never changes.
- Concurrency: the multi-lcore launch, `force_quit`, and the unsynchronised updates of `total_latency` from several lcores. The model runs one lcore. The latency balance is proved for that lcore alone.
- `latency_us` and the `double` division of `calc_sw_latency`: floating point.
- `print_stats` output, `print_stats_02`, `print_stats1`, `debug0`, `extract_l2packet`, `diff_us`: printing and dead code. Only the three totals are modelled. `print_stats` reads `port_statistics[portid]` with `portid` uninitialised before its loop; that read only feeds `printf` and is not modelled.
- The counters of `struct l2fwd_port_statistics` that the modelled code never updates (byte counts, errors, jitter, addresses, elapsed times) are not fields of the model.
- `strtoul`/`strtol` are modelled for the C locale only, without locale-specific white space or digits.
- Listener.L2fwd.CalcSwLatency: requires the frame to hold at least 22 bytes (header and timestamp). The C code reads the 8 bytes after the header whatever the frame length, and the model does not say what a shorter frame yields. The same bound is on `MainLoop.Burst`, `Listener.L2fwd.ReadFrame` and `Listener.L2fwd.ReadPort`.
- Listener.L2fwd.MacUpdating: requires a frame of at least 14 bytes; the C code writes 12 bytes into the mbuf without checking its length.
- Listener.L2fwd.SimpleForward: requires a frame of at least 14 bytes in every case, although with MAC updating off the C code never touches the frame; the bound is only needed for the rewrite.
- MainLoop.SimpleForward: the same 14-byte bound, for the same reason.
- `l2fwd_simple_forward` is called nowhere in the loop (the call at listener/main.c:708 is commented out): it is modelled on its own (`Listener.L2fwd.SimpleForward`), and the loop does not call it.
- Lcores.PlaceAllExact: assumes `l2fwd_rx_queue_per_lcore >= 1`, which every successful `-q` and the default guarantee. With 0 the C loop would spin over all lcores and exit.
- Ports.Bit: `1 << 31` on a signed `int` is taken to give bit 31, as x86 compilers do.
- Options.TimerPeriodBound: stated for periods below 2^31. Larger numerals are covered by `Options.TimerPeriodOfNumeral` and `Options.TimerPeriodWraps`.
- Stats.DrainTscBounds: stated for clock rates where `hz + 999999` does not overflow; `Stats.DrainTsc` itself wraps like the C code.

## Findings

| source | as written | input that shows it | evidently intended | confidence | as-written member | corrected member |
|---|---|---|---|---|---|---|
| listener/main.c:1108-1111 | the possible-port mask is `(1 << nb_ports) - 1` on a 32-bit `int`; with 32 ports the shift count is out of range, and x86 takes it modulo 32, giving `1 - 1 == 0` | 32 available ports (RTE_MAX_ETHPORTS) and any nonzero mask, e.g. `-p 1`: every port is refused as not possible | all 32 bits set when 32 ports are present, so any mask of present ports passes | not executed | Ports.AllPortsRefused | Ports.MaskFitsExact |
