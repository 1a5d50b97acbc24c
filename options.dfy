/**
 * The value parsers of the listener's command line: the hexadecimal port
 * mask (`-p`), the number of receive queues per lcore (`-q`), the statistics
 * period (`-T`) and the `(a,b)(c,d)...` forwarding pair list (`--portmap`).
 */
module Options {
  import opened Wrappers
  import opened CLib
  import opened Ports

  /** MAX_RX_QUEUE_PER_LCORE */
  const MAX_RX_QUEUE_PER_LCORE: nat := 16
  /** MAX_TIMER_PERIOD: one day, in seconds. */
  const MAX_TIMER_PERIOD: int := 86400
  /** `sizeof(s)`, the buffer one parenthesised group is copied into. */
  const GROUP_BUFFER: nat := 256

  /** Conversion of a `long` to a 32-bit `int`: keep the low 32 bits, two's complement. */
  function ToInt32(x: int): (r: int)
    ensures -0x8000_0000 <= r < 0x8000_0000
    ensures (x - r) % 0x1_0000_0000 == 0
    ensures -0x8000_0000 <= x < 0x8000_0000 ==> r == x
  {
    var m := x % 0x1_0000_0000;
    if m >= 0x8000_0000 then m - 0x1_0000_0000 else m
  }

  /**
   * `l2fwd_parse_portmask`: the whole string must be one `strtoul` base-16
   * number; anything else gives 0. The `unsigned long` is returned as an
   * `int` and stored in the 32-bit mask, so only its low 32 bits remain.
   */
  function ParsePortmask(portmask: string): (mask: bv32)
    requires IsCString(portmask)
    ensures portmask == [] ==> mask == 0
    ensures mask != 0 ==> |portmask| > 0 && StrToUL(portmask, 16).end == |portmask|
    ensures mask != 0 ==> mask == (StrToUL(portmask, 16).value % 0x1_0000_0000) as bv32
  {
    var c := StrToUL(portmask, 16);
    if |portmask| == 0 || c.end != |portmask| then 0
    else (c.value % 0x1_0000_0000) as bv32
  }

  /** `l2fwd_parse_nqueue`: a whole decimal number in 1..15, otherwise 0. */
  function ParseNqueue(q: string): (n: nat)
    requires IsCString(q)
    ensures n < MAX_RX_QUEUE_PER_LCORE
    ensures n != 0 ==> |q| > 0 && StrToUL(q, 10).end == |q| && StrToUL(q, 10).value == n
  {
    var c := StrToUL(q, 10);
    if |q| == 0 || c.end != |q| then 0
    else if c.value == 0 then 0
    else if c.value >= MAX_RX_QUEUE_PER_LCORE then 0
    else c.value
  }

  /**
   * `l2fwd_parse_timer_period`: a whole `strtol` decimal number, truncated to
   * `int`, accepted only below MAX_TIMER_PERIOD; otherwise -1.
   */
  function ParseTimerPeriod(q: string): (n: int)
    requires IsCString(q)
    ensures -0x8000_0000 <= n < MAX_TIMER_PERIOD
    ensures n != -1 ==> |q| > 0 && StrToL(q, 10).end == |q|
  {
    var c := StrToL(q, 10);
    if |q| == 0 || c.end != |q| then -1
    else
      var n := ToInt32(c.value);
      if n >= MAX_TIMER_PERIOD then -1 else n
  }

  /** The `-T` case of `l2fwd_parse_args`: a negative result is an invalid period. */
  function TimerOption(q: string): (secs: Option<nat>)
    requires IsCString(q)
    ensures secs.Some? ==> secs.value < MAX_TIMER_PERIOD
    ensures secs.None? <==> ParseTimerPeriod(q) < 0
  {
    var n := ParseTimerPeriod(q);
    if n < 0 then None else Some(n)
  }

  /** One field of a pair: a `strtoul` base-0 number below RTE_MAX_ETHPORTS; trailing text is not checked. */
  function PortField(f: string): (r: Option<PortId>)
    ensures r.Some? ==> StrToUL(f, 0).end > 0 && StrToUL(f, 0).value == r.value
  {
    var c := StrToUL(f, 0);
    if c.rangeError || c.end == 0 || c.value >= MAX_ETHPORTS then None
    else Some(c.value)
  }

  /** The text between one `(` and the next `)`: shorter than the buffer, two fields, two ports. */
  function GroupPair(group: string): (r: Option<PortPair>)
    ensures r.Some? ==> |group| < GROUP_BUFFER && SplitTwo(group).Some?
  {
    if |group| >= GROUP_BUFFER then None
    else match SplitTwo(group)
      case None => None
      case Some(fields) =>
        match (PortField(fields.0), PortField(fields.1))
        case (Some(a), Some(b)) => Some(PortPair(a, b))
        case _ => None
  }

  /**
   * What `l2fwd_parse_port_pair_config` leaves behind: whether it returned 0
   * (`ok`) and the pairs recorded in `port_pair_params_array`, in input order
   * (on failure, those recorded before the failing group).
   */
  datatype PairParse = PairParse(ok: bool, pairs: seq<PortPair>)

  /**
   * One turn of the loop of `l2fwd_parse_port_pair_config`: no `(` left
   * (`Done`), a malformed group (`Fail`), or the pair of the next group and
   * the text from its `)` on, where the next `strchr` starts.
   */
  datatype Step = Done | Fail | Found(pair: PortPair, next: string)

  function NextGroup(s: string): (st: Step)
    ensures st.Found? ==> |st.next| < |s|
    ensures st.Done? <==> Find(s, '(').None?
  {
    match Find(s, '(')
    case None => Done
    case Some(open) => GroupAfter(s[open + 1..])
  }

  /** The group that starts just after a `(`: it runs to the next `)`. */
  function GroupAfter(rest: string): (st: Step)
    ensures st.Found? ==> |st.next| <= |rest|
    ensures !st.Done?
  {
    match Find(rest, ')')
    case None => Fail
    case Some(size) =>
      match GroupPair(rest[..size])
      case None => Fail
      case Some(pair) => Found(pair, rest[size..])
  }

  /**
   * The loop of `l2fwd_parse_port_pair_config` from the position `s` starts
   * at, with `acc` already recorded. A well-formed group is recorded only
   * while fewer than 16 pairs are held; the seventeenth makes the parse fail.
   */
  function ParseGroups(s: string, acc: seq<PortPair>): (r: PairParse)
    ensures |r.pairs| >= |acc| && r.pairs[..|acc|] == acc
    ensures |acc| <= MAX_PAIRS ==> |r.pairs| <= MAX_PAIRS
    decreases |s|
  {
    match NextGroup(s)
    case Done => PairParse(true, acc)
    case Fail => PairParse(false, acc)
    case Found(pair, next) =>
      if |acc| >= MAX_PAIRS then PairParse(false, acc)
      else
        var r := ParseGroups(next, acc + [pair]);
        assert r.pairs[..|acc|] == (acc + [pair])[..|acc|];
        r
  }

  /** `l2fwd_parse_port_pair_config` on the whole option argument. */
  function ParsePortPairConfig(q: string): (r: PairParse)
    requires IsCString(q)
    ensures |r.pairs| <= MAX_PAIRS
    ensures (forall k :: 0 <= k < |q| ==> q[k] != '(') ==> r == PairParse(true, [])
  {
    ParseGroups(q, [])
  }

  // ---------------------------------------------------------------------
  // Properties of the numeric parsers
  // ---------------------------------------------------------------------

  lemma MaskAsNat(mask: bv32)
    ensures (mask as nat) as bv32 == mask
  {
  }

  lemma BelowModulus(v: nat)
    requires v < 0x1_0000_0000
    ensures v % 0x1_0000_0000 == v
  {
  }

  /** Every 32-bit mask written in hexadecimal parses back to itself. */
  lemma PortmaskRoundTrip(mask: bv32)
    ensures ParsePortmask(Numeral(mask as nat, 16)) == mask
  {
    var v := mask as nat;
    ScanWholeNumeral(v, 16);
    MaskAsNat(mask);
    BelowModulus(v);
  }

  /** The `0x` prefix that `strtoul` accepts in base 16 gives the same mask. */
  lemma PortmaskRoundTripPrefixed(mask: bv32)
    ensures ParsePortmask("0x" + Numeral(mask as nat, 16)) == mask
  {
    var v := mask as nat;
    ScanHexPrefixed(v, "0x");
    MaskAsNat(mask);
    BelowModulus(v);
  }

  /** A hexadecimal number followed by a character that is not a hex digit is rejected as 0. */
  lemma PortmaskTrailingJunk(n: nat, c: char)
    requires c != '\0' && !IsDigit(c, 16)
    ensures ParsePortmask(Numeral(n, 16) + [c]) == 0
  {
    ScanNumeral(n, 16, [c]);
  }

  /** Only the low 32 bits of a longer mask survive: `1` followed by eight zeros is the empty mask. */
  lemma PortmaskKeepsLow32Bits(n: nat)
    requires n <= ULONG_MAX
    ensures ParsePortmask(Numeral(n, 16)) == (n % 0x1_0000_0000) as bv32
  {
    ScanWholeNumeral(n, 16);
  }

  /** A decimal queue count is accepted exactly when it lies in 1..15. */
  lemma NqueueRoundTrip(n: nat)
    ensures ParseNqueue(Numeral(n, 10)) == if 1 <= n < MAX_RX_QUEUE_PER_LCORE then n else 0
  {
    ScanWholeNumeral(n, 10);
  }

  /**
   * A decimal period within `long` range is truncated to `int` and then
   * accepted only below 86400.
   */
  lemma TimerPeriodOfNumeral(n: nat)
    requires n <= LONG_MAX
    ensures ParseTimerPeriod(Numeral(n, 10)) == if ToInt32(n) < MAX_TIMER_PERIOD then ToInt32(n) else -1
  {
    ScanWholeNumeral(n, 10);
  }

  /**
   * Periods 0..86399 are accepted as written; 86400 itself, which the usage
   * text calls the maximum, is refused, as is every larger period that still
   * fits an `int`.
   */
  lemma TimerPeriodBound(n: nat)
    requires n < 0x8000_0000
    ensures TimerOption(Numeral(n, 10)) == if n < MAX_TIMER_PERIOD then Some(n) else None
  {
    TimerPeriodOfNumeral(n);
  }

  /**
   * A period that does not fit an `int` wraps instead of being refused:
   * 2^32 + k seconds is read as k (4294967306 as 10).
   */
  lemma TimerPeriodWraps(k: nat)
    requires k < MAX_TIMER_PERIOD
    ensures TimerOption(Numeral(0x1_0000_0000 + k, 10)) == Some(k)
  {
    var n := 0x1_0000_0000 + k;
    WrapModulus(k);
    assert ToInt32(n) == k;
    TimerPeriodOfNumeral(n);
  }

  lemma WrapModulus(k: nat)
    requires k < 0x8000_0000
    ensures (0x1_0000_0000 + k) % 0x1_0000_0000 == k
  {
  }

  /** A negative period is returned as it is and refused by the caller. */
  lemma TimerPeriodNegative(n: nat)
    requires 1 <= n <= 0x8000_0000
    ensures ParseTimerPeriod("-" + Numeral(n, 10)) == -(n as int)
    ensures TimerOption("-" + Numeral(n, 10)) == None
  {
    ScanNegativeNumeral(n);
  }

  // ---------------------------------------------------------------------
  // The pair list grammar
  // ---------------------------------------------------------------------

  /** One pair written as the option expects it: `(a,b)` in decimal. */
  function GroupText(p: PortPair): (s: string)
    ensures IsCString(s) && |s| >= 5 && s[0] == '('
  {
    "(" + Numeral(p.a, 10) + "," + Numeral(p.b, 10) + ")"
  }

  /** A list of pairs written one group after the other, `(a,b)(c,d)...`. */
  function PairsText(ps: seq<PortPair>): (s: string)
    ensures IsCString(s)
    ensures |ps| == 0 <==> |s| == 0
  {
    if |ps| == 0 then "" else GroupText(ps[0]) + PairsText(ps[1..])
  }

  /** `10^k` */
  function Pow10(k: nat): (r: nat)
    ensures r >= 1
  {
    if k == 0 then 1 else 10 * Pow10(k - 1)
  }

  /** A number below `10^k` has at most `k` decimal digits. */
  lemma {:induction false} NumeralDigits(n: nat, k: nat)
    requires 1 <= k && n < Pow10(k)
    ensures |Numeral(n, 10)| <= k
    decreases k
  {
    if n >= 10 {
      assert Numeral(n, 10) == Numeral(n / 10, 10) + [DigitChar(n % 10)];
      DropDigit(n, Pow10(k - 1));
      NumeralDigits(n / 10, k - 1);
    }
  }

  lemma DropDigit(n: nat, p: nat)
    requires 10 <= n < 10 * p
    ensures 1 <= n / 10 < p
  {
  }

  /** Every `unsigned long` is at most 20 decimal digits long. */
  lemma UnsignedLongDigits(n: nat)
    requires n <= ULONG_MAX
    ensures |Numeral(n, 10)| <= 20
  {
    assert Pow10(5) == 100_000;
    assert Pow10(10) == 10_000_000_000;
    assert Pow10(15) == 1_000_000_000_000_000;
    assert Pow10(20) == 100_000_000_000_000_000_000;
    NumeralDigits(n, 20);
  }

  /** A decimal field is read as a port exactly when it is below RTE_MAX_ETHPORTS. */
  lemma PortFieldOfNumeral(n: nat)
    requires n <= ULONG_MAX
    ensures PortField(Numeral(n, 10)) == if n < MAX_ETHPORTS then Some(n as PortId) else None
  {
    ScanNumeralAutoBase(n);
  }

  /** `a,b` splits at its one comma into the two numerals. */
  lemma SplitNumerals(a: nat, b: nat)
    ensures SplitTwo(Numeral(a, 10) + "," + Numeral(b, 10)) == Some((Numeral(a, 10), Numeral(b, 10)))
  {
    var da, db := Numeral(a, 10), Numeral(b, 10);
    var g := da + "," + db;
    forall k | 0 <= k < |da| ensures g[k] != ',' {
      assert g[k] == da[k];
      assert IsDigit(da[k], 10);
    }
    FindFirst(g, ',', |da|);
    assert g[..|da|] == da;
    assert g[|da| + 1..] == db;
  }

  /**
   * The text between the parentheses of one group is accepted exactly when
   * both numbers are port ids; a number of 32 or more is refused.
   */
  lemma GroupOfNumerals(a: nat, b: nat)
    requires a <= ULONG_MAX && b <= ULONG_MAX
    ensures GroupPair(Numeral(a, 10) + "," + Numeral(b, 10))
         == if a < MAX_ETHPORTS && b < MAX_ETHPORTS then Some(PortPair(a, b)) else None
  {
    UnsignedLongDigits(a);
    UnsignedLongDigits(b);
    SplitNumerals(a, b);
    PortFieldOfNumeral(a);
    PortFieldOfNumeral(b);
  }

  /** A character other than `(` before the next group is skipped. */
  lemma SkipChar(c: char, s: string)
    requires c != '('
    ensures NextGroup([c] + s) == NextGroup(s)
  {
    var u := [c] + s;
    AppendSlices([c], s);
    assert Find(u, '(') == match Find(s, '(') case None => None case Some(k) => Some(k + 1);
    if Find(s, '(').Some? {
      var open := Find(s, '(').value;
      DropAppend([c], s, open + 1);
      assert NextGroup(u) == GroupAfter(s[open + 1..]);
    }
  }

  /** Text without a `(` before the next group is skipped. */
  lemma {:induction false} SkipText(t: string, s: string)
    requires forall k :: 0 <= k < |t| ==> t[k] != '('
    ensures NextGroup(t + s) == NextGroup(s)
    decreases |t|
  {
    if |t| > 0 {
      SkipText(t[1..], s);
      ConsAppend(t, s);
      SkipChar(t[0], t[1..] + s);
    } else {
      assert t + s == s;
    }
  }

  /** The text of one pair is found as the next group, and the search goes on from its `)`. */
  lemma GroupFound(p: PortPair, rest: string)
    ensures NextGroup(GroupText(p) + rest) == Found(p, ")" + rest)
  {
    var inner := Numeral(p.a, 10) + "," + Numeral(p.b, 10);
    var tail := ")" + rest;
    var r := inner + tail;
    var s := GroupText(p) + rest;
    assert s == "(" + r;
    FindFirst(s, '(', 0);
    AppendSlices("(", r);
    assert NextGroup(s) == GroupAfter(r);
    NoCloseInside(p.a, p.b);
    FindFirst(r, ')', |inner|);
    AppendSlices(inner, tail);
    GroupOfNumerals(p.a, p.b);
    assert GroupPair(inner) == Some(p);
  }

  /** The text between the parentheses of a written pair holds no `)`. */
  lemma NoCloseInside(a: nat, b: nat)
    ensures forall k :: 0 <= k < |Numeral(a, 10) + "," + Numeral(b, 10)| ==> (Numeral(a, 10) + "," + Numeral(b, 10))[k] != ')'
  {
    var da, db := Numeral(a, 10), Numeral(b, 10);
    var inner := da + "," + db;
    forall k | 0 <= k < |inner| ensures inner[k] != ')' {
      if k < |da| {
        assert inner[k] == da[k];
        assert IsDigit(da[k], 10);
      } else if k > |da| {
        assert inner[k] == db[k - |da| - 1];
        assert IsDigit(db[k - |da| - 1], 10);
      }
    }
  }

  /**
   * One well-formed group is recorded when there is room for it (16 pairs),
   * and parsing goes on after it; a seventeenth group makes the parse fail.
   */
  lemma GroupStep(p: PortPair, rest: string, acc: seq<PortPair>)
    ensures |acc| >= MAX_PAIRS ==> ParseGroups(GroupText(p) + rest, acc) == PairParse(false, acc)
    ensures |acc| < MAX_PAIRS ==> ParseGroups(GroupText(p) + rest, acc) == ParseGroups(rest, acc + [p])
  {
    GroupFound(p, rest);
    SkipText(")", rest);
    assert ParseGroups(")" + rest, acc + [p]) == ParseGroups(rest, acc + [p]);
  }

  lemma ConsAppend<T>(t: seq<T>, s: seq<T>)
    requires |t| > 0
    ensures t + s == [t[0]] + (t[1..] + s)
  {
    assert t == [t[0]] + t[1..];
  }

  lemma MoveFirst<T>(acc: seq<T>, ps: seq<T>)
    requires |ps| > 0
    ensures (acc + [ps[0]]) + ps[1..] == acc + ps
  {
    assert ps == [ps[0]] + ps[1..];
  }

  lemma PrefixOfAppend<T>(acc: seq<T>, ps: seq<T>)
    ensures (acc + ps)[..|acc|] == acc
  {
  }

  /**
   * The pair list round trip: the text of a list of pairs parses back to
   * that list while it holds at most 16 pairs; a longer list fails after
   * recording its first 16 pairs.
   */
  lemma {:induction false} PairsRoundTrip(ps: seq<PortPair>, acc: seq<PortPair>)
    requires |acc| <= MAX_PAIRS
    ensures |acc| + |ps| <= MAX_PAIRS ==> ParseGroups(PairsText(ps), acc) == PairParse(true, acc + ps)
    ensures |acc| + |ps| > MAX_PAIRS ==> ParseGroups(PairsText(ps), acc) == PairParse(false, (acc + ps)[..MAX_PAIRS])
    decreases |ps|
  {
    if |ps| == 0 {
      assert NextGroup(PairsText(ps)) == Done;
      assert acc + ps == acc;
    } else {
      var q := PairsText(ps[1..]);
      assert PairsText(ps) == GroupText(ps[0]) + q;
      GroupStep(ps[0], q, acc);
      if |acc| < MAX_PAIRS {
        PairsRoundTrip(ps[1..], acc + [ps[0]]);
        MoveFirst(acc, ps);
      } else {
        PrefixOfAppend(acc, ps);
      }
    }
  }

  /** `--portmap` with up to 16 well-formed groups records exactly those pairs, in order. */
  lemma PortPairConfigRoundTrip(ps: seq<PortPair>)
    ensures |ps| <= MAX_PAIRS ==> ParsePortPairConfig(PairsText(ps)) == PairParse(true, ps)
    ensures |ps| > MAX_PAIRS ==> ParsePortPairConfig(PairsText(ps)) == PairParse(false, ps[..MAX_PAIRS])
  {
    var q := PairsText(ps);
    PairsRoundTrip(ps, []);
    assert [] + ps == ps;
    assert ParsePortPairConfig(q) == ParseGroups(q, []);
  }

  /** A `(` without a closing `)` makes the parse fail. */
  lemma UnclosedGroup(t: string, acc: seq<PortPair>)
    requires forall k :: 0 <= k < |t| ==> t[k] != ')'
    ensures ParseGroups("(" + t, acc) == PairParse(false, acc)
  {
    var s := "(" + t;
    FindFirst(s, '(', 0);
    assert s[1..] == t;
    assert NextGroup(s) == Fail;
  }

  /** A group of 256 characters or more does not fit the buffer and makes the parse fail. */
  lemma GroupTooLong(g: string, rest: string, acc: seq<PortPair>)
    requires |g| >= GROUP_BUFFER
    requires forall k :: 0 <= k < |g| ==> g[k] != ')'
    ensures ParseGroups("(" + g + ")" + rest, acc) == PairParse(false, acc)
  {
    var s := "(" + g + ")" + rest;
    FindFirst(s, '(', 0);
    var r := s[1..];
    assert forall k :: 0 <= k < |g| ==> r[k] == g[k];
    FindFirst(r, ')', |g|);
    assert r[..|g|] == g;
    assert NextGroup(s) == Fail;
  }
}
