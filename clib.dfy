/** Optional values, used for the C functions that report failure with NULL or -1. */
module Wrappers {
  datatype Option<+T> = None | Some(value: T)
}

/**
 * The parts of the C library that the listener's option parsers lean on:
 * `strchr`, `rte_strsplit` with two fields, and the number front end shared
 * by `strtoul` and `strtol` (leading white space, an optional sign, the
 * `0x` prefix of bases 0 and 16, the leading `0` that selects octal in base
 * 0, and saturation with a range error). Strings are C strings without their
 * terminator; positions are indices where C would use `char *` values.
 */
module CLib {
  import opened Wrappers

  const ULONG_MAX: int := 0xFFFF_FFFF_FFFF_FFFF
  const LONG_MAX: int := 0x7FFF_FFFF_FFFF_FFFF
  const LONG_MIN: int := -0x8000_0000_0000_0000

  /** A C string holds no NUL before its terminator. */
  predicate IsCString(s: string) {
    forall i :: 0 <= i < |s| ==> s[i] != '\0'
  }

  /** `isspace` in the C locale. */
  predicate IsSpace(c: char) {
    c == ' ' || c == '\t' || c == '\n' || c == '\U{000B}' || c == '\U{000C}' || c == '\r'
  }

  /** The value of an alphanumeric character as a digit; 36 for anything else. */
  function DigitValue(c: char): nat {
    if '0' <= c <= '9' then c as nat - '0' as nat
    else if 'a' <= c <= 'z' then c as nat - 'a' as nat + 10
    else if 'A' <= c <= 'Z' then c as nat - 'A' as nat + 10
    else 36
  }

  predicate IsDigit(c: char, base: nat) {
    DigitValue(c) < base
  }

  /** The lower-case character for a digit value. */
  function DigitChar(d: nat): (c: char)
    requires d < 36
    ensures DigitValue(c) == d
  {
    if d < 10 then ('0' as int + d) as char else ('a' as int + d - 10) as char
  }

  /** `strchr`: the first position of `c` in `s`, if any. */
  function Find(s: string, c: char): (r: Option<nat>)
    ensures r.Some? ==> r.value < |s| && s[r.value] == c
    ensures r.Some? ==> forall k :: 0 <= k < r.value ==> s[k] != c
    ensures r.None? ==> forall k :: 0 <= k < |s| ==> s[k] != c
  {
    if |s| == 0 then None
    else if s[0] == c then Some(0)
    else match Find(s[1..], c)
      case None => None
      case Some(k) => Some(k + 1)
  }

  /** The two halves of a concatenation are its slices. */
  lemma AppendSlices<T>(x: seq<T>, y: seq<T>)
    ensures (x + y)[..|x|] == x && (x + y)[|x|..] == y
  {
  }

  /** Dropping past the first part of a concatenation drops into the second. */
  lemma DropAppend<T>(x: seq<T>, y: seq<T>, k: nat)
    requires k <= |y|
    ensures (x + y)[|x| + k..] == y[k..]
  {
  }

  /** `strchr` stops at the first occurrence. */
  lemma FindFirst(s: string, c: char, k: nat)
    requires k < |s| && s[k] == c
    requires forall i :: 0 <= i < k ==> s[i] != c
    ensures Find(s, c) == Some(k)
  {
  }

  /**
   * `rte_strsplit(s, sizeof(s), fields, 2, ',')` yields exactly two fields
   * when `s` has a comma that is not its last character: the first field is
   * the text before the first comma. The second field here is everything
   * after that comma. `rte_strsplit` agrees except when that text itself
   * starts with a comma: it then ends its second field there, giving "".
   * Both texts start with no digit, so the port-number parse of the field
   * fails either way.
   */
  function SplitTwo(s: string): (r: Option<(string, string)>)
    ensures r.Some? <==> exists k :: 0 <= k < |s| - 1 && s[k] == ',' && forall i :: 0 <= i < k ==> s[i] != ','
    ensures r.Some? ==> s == r.value.0 + [','] + r.value.1 && ',' !in r.value.0 && |r.value.1| > 0
  {
    match Find(s, ',')
    case None => None
    case Some(k) =>
      if k + 1 < |s| then
        assert s == s[..k] + [','] + s[k + 1..];
        Some((s[..k], s[k + 1..]))
      else None
  }

  /** Index of the first non-space character at or after `i`. */
  function SkipSpace(s: string, i: nat): (j: nat)
    requires i <= |s|
    ensures i <= j <= |s|
    ensures forall k :: i <= k < j ==> IsSpace(s[k])
    ensures j == |s| || !IsSpace(s[j])
    decreases |s| - i
  {
    if i < |s| && IsSpace(s[i]) then SkipSpace(s, i + 1) else i
  }

  /** Length of the run of digits of `base` that starts at `i`. */
  function DigitRun(s: string, i: nat, base: nat): (n: nat)
    requires i <= |s|
    ensures i + n <= |s|
    ensures forall k :: i <= k < i + n ==> IsDigit(s[k], base)
    ensures i + n == |s| || !IsDigit(s[i + n], base)
    decreases |s| - i
  {
    if i < |s| && IsDigit(s[i], base) then 1 + DigitRun(s, i + 1, base) else 0
  }

  /** The number a string of digits denotes, most significant digit first. */
  function DigitsValue(d: string, base: nat): nat {
    if |d| == 0 then 0 else DigitsValue(d[..|d| - 1], base) * base + DigitValue(d[|d| - 1])
  }

  /**
   * What `strtoul` and `strtol` read from the front of a string before they
   * apply their range rules: the sign, the magnitude of the digits and the
   * index just past the last digit. When no digit is read, the C functions
   * set `*endptr` to the start of the string: `end` is then 0.
   */
  datatype Scan = Scan(negative: bool, magnitude: nat, end: nat)

  predicate HasHexPrefix(s: string, j: nat) {
    j + 2 < |s| && s[j] == '0' && (s[j + 1] == 'x' || s[j + 1] == 'X') && IsDigit(s[j + 2], 16)
  }

  function ScanNumber(s: string, base: nat): (r: Scan)
    requires base == 0 || 2 <= base <= 36
    ensures r.end <= |s|
    ensures r.end == 0 ==> !r.negative && r.magnitude == 0
  {
    var i := SkipSpace(s, 0);
    var signed := i < |s| && (s[i] == '+' || s[i] == '-');
    var j := if signed then i + 1 else i;
    var hex := (base == 0 || base == 16) && HasHexPrefix(s, j);
    var radix := if hex then 16 else if base != 0 then base else if j < |s| && s[j] == '0' then 8 else 10;
    var start := if hex then j + 2 else j;
    var n := DigitRun(s, start, radix);
    if n == 0 then Scan(false, 0, 0)
    else Scan(signed && s[i] == '-', DigitsValue(s[start..start + n], radix), start + n)
  }

  /** The result of a conversion: the value, the end index and whether `errno` became `ERANGE`. */
  datatype Conversion = Conversion(value: int, end: nat, rangeError: bool)

  /** `strtoul` with a 64-bit `unsigned long`: a negated magnitude wraps, an overlong one saturates. */
  function StrToUL(s: string, base: nat): (c: Conversion)
    requires base == 0 || 2 <= base <= 36
    ensures 0 <= c.value <= ULONG_MAX && c.end <= |s|
    ensures c.rangeError <==> ScanNumber(s, base).magnitude > ULONG_MAX
  {
    var r := ScanNumber(s, base);
    if r.magnitude > ULONG_MAX then Conversion(ULONG_MAX, r.end, true)
    else if r.negative && r.magnitude != 0 then Conversion(ULONG_MAX + 1 - r.magnitude, r.end, false)
    else Conversion(r.magnitude, r.end, false)
  }

  /** `strtol` with a 64-bit `long`: out-of-range values saturate at LONG_MIN or LONG_MAX. */
  function StrToL(s: string, base: nat): (c: Conversion)
    requires base == 0 || 2 <= base <= 36
    ensures LONG_MIN <= c.value <= LONG_MAX && c.end <= |s|
    ensures c.rangeError <==> (if ScanNumber(s, base).negative then ScanNumber(s, base).magnitude > -LONG_MIN
                               else ScanNumber(s, base).magnitude > LONG_MAX)
  {
    var r := ScanNumber(s, base);
    var m: int := r.magnitude;
    if !r.negative && m > LONG_MAX then Conversion(LONG_MAX, r.end, true)
    else if r.negative && m > -LONG_MIN then Conversion(LONG_MIN, r.end, true)
    else Conversion(if r.negative then -m else m, r.end, false)
  }

  /**
   * The shortest numeral of `n` in `base`, lower-case: what `printf` writes
   * for `%u` or `%x`. It is the partner of the scanner: its digits denote `n`.
   */
  function Numeral(n: nat, base: nat): (s: string)
    requires 2 <= base <= 36
    ensures |s| >= 1
    ensures forall k :: 0 <= k < |s| ==> IsDigit(s[k], base)
    ensures s[0] == '0' <==> n == 0
    decreases n
  {
    if n < base then [DigitChar(n)]
    else
      QuotientBounds(n, base);
      var front := Numeral(n / base, base);
      var s := front + [DigitChar(n % base)];
      assert forall k :: 0 <= k < |front| ==> s[k] == front[k];
      s
  }

  lemma QuotientBounds(n: nat, base: nat)
    requires 2 <= base <= n
    ensures 1 <= n / base < n && n % base < base
    ensures (n / base) * base + n % base == n
  {
  }

  /** The digits of `Numeral(n, base)` denote `n`. */
  lemma {:induction false} NumeralValue(n: nat, base: nat)
    requires 2 <= base <= 36
    ensures DigitsValue(Numeral(n, base), base) == n
    decreases n
  {
    var s := Numeral(n, base);
    if n >= base {
      var front := Numeral(n / base, base);
      assert s == front + [DigitChar(n % base)];
      assert s[..|s| - 1] == front;
      QuotientBounds(n, base);
      var q := n / base;
      NumeralValue(q, base);
      assert DigitsValue(s, base) == DigitsValue(front, base) * base + n % base;
      assert DigitsValue(front, base) == q;
    }
  }

  /** A maximal run of digits is exactly what `DigitRun` measures. */
  lemma DigitRunExact(s: string, i: nat, m: nat, base: nat)
    requires i <= m <= |s|
    requires forall k :: i <= k < m ==> IsDigit(s[k], base)
    requires m == |s| || !IsDigit(s[m], base)
    ensures DigitRun(s, i, base) == m - i
  {
    var n := DigitRun(s, i, base);
    if i + n < m {
      assert false;
    } else if i + n > m {
      assert false;
    }
  }

  /**
   * A numeral in base 10 or 16, followed by nothing or by one character
   * that is not a digit, scans back to its number, and the scan stops just
   * after the numeral.
   */
  lemma ScanNumeral(n: nat, base: nat, suffix: string)
    requires base == 10 || base == 16
    requires |suffix| <= 1 && (suffix == [] || !IsDigit(suffix[0], base))
    ensures ScanNumber(Numeral(n, base) + suffix, base) == Scan(false, n, |Numeral(n, base)|)
  {
    var d := Numeral(n, base);
    var s := d + suffix;
    assert !IsSpace(s[0]) by { assert IsDigit(s[0], base); }
    assert SkipSpace(s, 0) == 0;
    assert n == 0 ==> |d| == 1;
    assert !HasHexPrefix(s, 0);
    DigitRunExact(s, 0, |d|, base);
    assert s[0..|d|] == d;
    NumeralValue(n, base);
    ScanReads(s, base, 0, |d|, n);
  }

  /**
   * Without leading space or sign, and with digits where the number starts
   * (after `0x` in base 16), the scan reads those digits.
   */
  lemma ScanReads(s: string, base: nat, start: nat, len: nat, v: nat)
    requires base == 10 || base == 16
    requires 0 < |s| && SkipSpace(s, 0) == 0 && s[0] != '+' && s[0] != '-'
    requires start == if base == 16 && HasHexPrefix(s, 0) then 2 else 0
    requires DigitRun(s, start, base) == len > 0
    requires DigitsValue(s[start..start + len], base) == v
    ensures ScanNumber(s, base) == Scan(false, v, start + len)
  {
  }

  /** A numeral in base 10 or 16 on its own scans back to its number. */
  lemma ScanWholeNumeral(n: nat, base: nat)
    requires base == 10 || base == 16
    ensures ScanNumber(Numeral(n, base), base) == Scan(false, n, |Numeral(n, base)|)
  {
    ScanNumeral(n, base, []);
    AppendEmpty(Numeral(n, base));
  }

  lemma AppendEmpty<T>(x: seq<T>)
    ensures x + [] == x
  {
  }

  /** A minus sign before a decimal numeral is read as a negative sign. */
  lemma ScanNegativeNumeral(n: nat)
    ensures ScanNumber("-" + Numeral(n, 10), 10) == Scan(true, n, 1 + |Numeral(n, 10)|)
  {
    var d := Numeral(n, 10);
    var s := "-" + d;
    assert SkipSpace(s, 0) == 0;
    assert !HasHexPrefix(s, 1);
    forall k | 1 <= k < |s| ensures IsDigit(s[k], 10) {
      assert s[k] == d[k - 1];
    }
    DigitRunExact(s, 1, |s|, 10);
    assert s[1..1 + |d|] == d;
    NumeralValue(n, 10);
  }

  /** A decimal numeral scans back to its number in base 0 too (a lone `0` is read as octal zero). */
  lemma ScanNumeralAutoBase(n: nat)
    ensures ScanNumber(Numeral(n, 10), 0) == Scan(false, n, |Numeral(n, 10)|)
  {
    var d := Numeral(n, 10);
    if n == 0 {
      assert d == "0";
      ScanOctalZero();
    } else {
      AutoBaseDecimal(d);
      ScanWholeNumeral(n, 10);
    }
  }

  /** A lone `0` in base 0 is an octal zero that ends after the digit. */
  lemma ScanOctalZero()
    ensures ScanNumber("0", 0) == Scan(false, 0, 1)
  {
    var s := "0";
    assert SkipSpace(s, 0) == 0;
    assert !HasHexPrefix(s, 0);
    DigitRunExact(s, 0, 1, 8);
    assert s[0..1] == s;
    assert DigitsValue(s, 8) == 0 by {
      assert s[..0] == [];
    }
  }

  /** Digits that do not start with `0` are read in base 0 as in base 10. */
  lemma AutoBaseDecimal(s: string)
    requires |s| > 0 && IsDigit(s[0], 10) && s[0] != '0'
    ensures ScanNumber(s, 0) == ScanNumber(s, 10)
  {
    assert !IsSpace(s[0]);
    assert SkipSpace(s, 0) == 0;
    assert !HasHexPrefix(s, 0);
  }

  /** `0x` followed by a hexadecimal numeral scans back to its number in base 16. */
  lemma ScanHexPrefixed(n: nat, prefix: string)
    requires prefix == "0x" || prefix == "0X"
    ensures ScanNumber(prefix + Numeral(n, 16), 16) == Scan(false, n, |prefix + Numeral(n, 16)|)
  {
    var d := Numeral(n, 16);
    var s := prefix + d;
    HexPrefixedDigits(d, prefix);
    NumeralValue(n, 16);
    ScanReads(s, 16, 2, |d|, n);
  }

  /** After the prefix, the digits of the numeral run to the end of the string. */
  lemma HexPrefixedDigits(d: string, prefix: string)
    requires prefix == "0x" || prefix == "0X"
    requires |d| > 0 && forall k :: 0 <= k < |d| ==> IsDigit(d[k], 16)
    ensures SkipSpace(prefix + d, 0) == 0 && HasHexPrefix(prefix + d, 0)
    ensures DigitRun(prefix + d, 2, 16) == |d|
    ensures (prefix + d)[2..2 + |d|] == d
  {
    var s := prefix + d;
    assert SkipSpace(s, 0) == 0;
    assert HasHexPrefix(s, 0) by { assert s[2] == d[0]; }
    forall k | 2 <= k < |s| ensures IsDigit(s[k], 16) {
      assert s[k] == d[k - 2];
    }
    DigitRunExact(s, 2, |s|, 16);
    assert s[2..2 + |d|] == d;
  }
}
