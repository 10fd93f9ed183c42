/**
 * The formatter of src/vars.ts: the renderers of one value (decimal, one or
 * two decimals, zero-padded hexadecimal, byte-grouped binary), the passes of
 * `formatString` over a user template, and the class `Vars` that holds the
 * source values and their conversions and renders them section by section.
 */
module Conversions {
  import opened Wrappers
  import opened Text

  // ---------------------------------------------------------------------
  // Renderers of one value

  /** `getDecString`: `'NA'` for an undefined value, otherwise `toString()`. */
  function DecString(value: Option<int>): string {
    match value
    case None => "NA"
    case Some(v) => RadixString(v, 10)
  }

  /** `get2DecString`: `['NA']`, one decimal when both agree or the signed one is missing, otherwise both in order. */
  function TwoDecStrings(dec: Option<int>, sDec: Option<int>): seq<string> {
    if dec.None? then ["NA"]
    else if sDec.None? || dec == sDec then [DecString(dec)]
    else [DecString(dec), DecString(sDec)]
  }

  /** `k` zero digits. */
  function Zeros(k: nat): (z: string)
    ensures |z| == k && forall i :: 0 <= i < k ==> z[i] == '0'
  {
    seq(k, i => '0')
  }

  /** `padStart(n, '0')`: leading zeros up to length `n`; a longer string is unchanged. */
  function PadZeros(s: string, n: nat): string {
    if |s| >= n then s else Zeros(n - |s|) + s
  }

  /** A power of two: 1, 2, 4, 8, … */
  predicate IsPow2(n: nat)
    decreases n
  {
    n == 1 || (n >= 2 && n % 2 == 0 && IsPow2(n / 2))
  }

  /** The first of `p`, `2p`, `4p`, … that is at least `len`. */
  function Fit(len: nat, p: nat): nat
    requires p >= 1
    decreases len - p
  {
    if p >= len then p else Fit(len, 2 * p)
  }

  /** The digit count `getHexString` pads to: the smallest power of two that is at least 2 and at least `len`. */
  function HexWidth(len: nat): nat {
    Fit(len, 2)
  }

  /** `getHexString`: upper-case hexadecimal digits, padded with zeros to `HexWidth` digits. */
  function HexString(value: Option<nat>): string {
    match value
    case None => "NA"
    case Some(v) =>
      var raw := ToUpper(RadixString(v, 16));
      PadZeros(raw, HexWidth(|raw|))
  }

  /** `8 * (Math.floor((len - 1) / 8) + 1)`: the digit count `getBinString` pads to. */
  function BinWidth(len: nat): nat {
    8 * ((len as int - 1) / 8 + 1)
  }

  /**
   * `replace(/\B(?=(\d{8})+(?!\d))/g, "'")` on a digit string: a `'` at every
   * inner position followed by a positive multiple of 8 digits.
   */
  function Grouped(s: string): string
    decreases |s|
  {
    if |s| <= 8 then s else Grouped(s[..|s| - 8]) + "'" + s[|s| - 8..]
  }

  /** `r` is the characters of `s` in order with a `'` at every ninth place. */
  predicate ByteGrouped(r: string, s: string) {
    forall i :: 0 <= i < |r| ==>
      if i % 9 == 8 then r[i] == '\'' else i - i / 9 < |s| && r[i] == s[i - i / 9]
  }

  /** `getBinString`: binary digits padded to whole bytes, `'` between the bytes, `"-"` beyond 64 digits. */
  function BinString(value: Option<nat>): string {
    match value
    case None => "NA"
    case Some(v) => BinGrouping(RadixString(v, 2))
  }

  /** What `getBinString` does to the raw digits: pad them to whole bytes, then group them or give `"-"` beyond 64. */
  function BinGrouping(raw: string): string {
    var padded := PadZeros(raw, BinWidth(|raw|));
    if |padded| > 16 * 4 then "-" else Grouped(padded)
  }

  // ---------------------------------------------------------------------
  // Properties of the renderers

  /** Every renderer returns `'NA'` exactly for an undefined value. */
  lemma {:induction false} NotAvailable(d: Option<int>, x: Option<nat>)
    ensures DecString(d) == "NA" <==> d.None?
    ensures HexString(x) == "NA" <==> x.None?
    ensures BinString(x) == "NA" <==> x.None?
  {
    if d.Some? {
      RadixShape(d.value, 10);
    }
    if x.Some? {
      HexStringDefined(x.value);
      BinStringDefined(x.value);
    }
  }

  lemma HexStringDefined(v: nat)
    ensures HexString(Some(v)) != "NA"
  {
    HexStringValue(v);
    HexStringPadding(v);
    var r := HexString(Some(v));
    assert IsDigitIn(r[1], 16);
  }

  lemma BinStringDefined(v: nat)
    ensures BinString(Some(v)) != "NA"
  {
    BinStringDigits(v);
  }

  /** `toString(radix)` is a minus sign exactly for negative numbers, then digits of the radix. */
  lemma {:induction false} RadixShape(n: int, base: nat)
    requires 2 <= base <= 16
    ensures var s := RadixString(n, base);
      && |s| >= 1
      && (n < 0 <==> s[0] == '-')
      && (n >= 0 ==> AllDigitsIn(s, base) && ParseDigits(s, base) == n)
      && (n < 0 ==> AllDigitsIn(s[1..], base) && |s| >= 2 && ParseDigits(s[1..], base) == -n)
  {
    if n < 0 {
      DigitsCanonical(-n, base);
      assert RadixString(n, base)[1..] == Digits(-n, base);
    } else {
      DigitsCanonical(n, base);
    }
  }

  /** The decimal rendering reads back as the value: digits for a non-negative one, a minus sign and the magnitude otherwise. */
  lemma {:induction false} DecStringReadsBack(v: int)
    ensures var s := DecString(Some(v));
      && (v >= 0 ==> AllDigitsIn(s, 10) && ParseDigits(s, 10) == v)
      && (v < 0 ==> s[0] == '-' && AllDigitsIn(s[1..], 10) && ParseDigits(s[1..], 10) == -v)
  {
    RadixShape(v, 10);
  }

  /** `get2DecString`: `['NA']` without a decimal, one string when the signed one is missing or equal, otherwise both in order. */
  lemma {:induction false} TwoDecStringsCases(dec: Option<int>, sDec: Option<int>)
    ensures dec.None? ==> TwoDecStrings(dec, sDec) == ["NA"]
    ensures dec.Some? ==> TwoDecStrings(dec, sDec)[0] == DecString(dec)
    ensures |TwoDecStrings(dec, sDec)| == 1 || |TwoDecStrings(dec, sDec)| == 2
    ensures |TwoDecStrings(dec, sDec)| == 2 <==> dec.Some? && sDec.Some? && dec.value != sDec.value
    ensures |TwoDecStrings(dec, sDec)| == 2 ==> TwoDecStrings(dec, sDec)[1] == DecString(sDec) != TwoDecStrings(dec, sDec)[0]
  {
    if dec.Some? && sDec.Some? && dec.value != sDec.value {
      DecStringInjective(dec.value, sDec.value);
    }
  }

  /** Different numbers render differently. */
  lemma {:induction false} DecStringInjective(a: int, b: int)
    requires a != b
    ensures DecString(Some(a)) != DecString(Some(b))
  {
    RadixShape(a, 10);
    RadixShape(b, 10);
  }

  /** Of two powers of two, the larger is at least twice the smaller. */
  lemma {:induction false} Pow2Gap(p: nat, q: nat)
    requires IsPow2(p) && IsPow2(q) && p < q
    ensures 2 * p <= q
    decreases p
  {
    if p != 1 {
      assert q != 1 && q % 2 == 0;
      Pow2Gap(p / 2, q / 2);
    }
  }

  lemma {:induction false} FitMinimal(len: nat, p: nat)
    requires p >= 1 && IsPow2(p)
    ensures var w := Fit(len, p);
      && IsPow2(w) && w >= len && w >= p
      && forall q: nat :: IsPow2(q) && q >= p && q >= len ==> w <= q
    decreases len - p
  {
    if p < len {
      assert IsPow2(2 * p) by {
        assert (2 * p) / 2 == p;
      }
      FitMinimal(len, 2 * p);
      forall q: nat | IsPow2(q) && q >= p && q >= len
        ensures Fit(len, p) <= q
      {
        Pow2Gap(p, q);
      }
    }
  }

  /** The hexadecimal width is the smallest power of two that is at least 2 and at least the digit count. */
  lemma {:induction false} HexWidthMinimal(len: nat)
    ensures var w := HexWidth(len);
      && IsPow2(w) && w >= 2 && w >= len
      && forall q: nat :: IsPow2(q) && q >= 2 && q >= len ==> w <= q
  {
    assert IsPow2(2) by {
      assert IsPow2(1);
    }
    FitMinimal(len, 2);
  }

  /** Leading zeros do not change the value a digit string reads as. */
  lemma {:induction false} ParseLeadingZeros(k: nat, s: string, base: nat)
    requires 2 <= base && AllDigitsIn(s, base)
    ensures AllDigitsIn(Zeros(k) + s, base)
    ensures ParseDigits(Zeros(k) + s, base) == ParseDigits(s, base)
    decreases k
  {
    var t := Zeros(k) + s;
    ZerosPrefixDigits(k, s, base);
    if k == 0 {
      assert t == s;
    } else {
      var tail := Zeros(k - 1) + s;
      assert t == "0" + tail;
      assert t[1..] == tail;
      ParseLeadingZeros(k - 1, s, base);
      ParseFirstDigit(t, base);
      var d := DigitValue(t[0]);
      assert d == 0;
      var p := Pow(base, |t| - 1);
      assert d * p == 0;
      assert ParseDigits(t, base) == ParseDigits(tail, base);
    }
  }

  lemma ZerosPrefixDigits(k: nat, s: string, base: nat)
    requires 2 <= base && AllDigitsIn(s, base)
    ensures AllDigitsIn(Zeros(k) + s, base)
  {
    var t := Zeros(k) + s;
    assert IsDigitIn('0', base);
    assert forall i :: 0 <= i < |t| ==> t[i] == if i < k then '0' else s[i - k];
  }

  /**
   * `getHexString` of a value: the raw digits after leading zeros only, as
   * many digits as the smallest power of two that is at least 2 and at least
   * the raw count.
   */
  lemma {:induction false} HexStringPadding(v: nat)
    ensures var raw := ToUpper(RadixString(v, 16)); var r := HexString(Some(v));
      && |r| >= |raw| && r == Zeros(|r| - |raw|) + raw
      && IsPow2(|r|) && |r| >= 2
      && (forall q: nat :: IsPow2(q) && q >= 2 && q >= |raw| ==> |r| <= q)
  {
    var raw := ToUpper(RadixString(v, 16));
    PadToHexWidth(raw);
  }

  lemma PadToHexWidth(raw: string)
    ensures var r := PadZeros(raw, HexWidth(|raw|));
      && |r| >= |raw| && r == Zeros(|r| - |raw|) + raw
      && IsPow2(|r|) && |r| >= 2
      && (forall q: nat :: IsPow2(q) && q >= 2 && q >= |raw| ==> |r| <= q)
  {
    HexWidthMinimal(|raw|);
  }

  /** `getHexString` of a value: upper-case digits that read back as the value. */
  lemma {:induction false} HexStringValue(v: nat)
    ensures var r := HexString(Some(v));
      && AllDigitsIn(r, 16) && ParseDigits(r, 16) == v
      && (forall i :: 0 <= i < |r| ==> !('a' <= r[i] <= 'z'))
  {
    var raw := ToUpper(RadixString(v, 16));
    UpperDigits(v);
    var w := HexWidth(|raw|);
    HexWidthMinimal(|raw|);
    assert HexString(Some(v)) == PadZeros(raw, w);
    PaddedDigits(raw, w, 16);
  }

  /** The raw hexadecimal digits: upper case, reading back as the value. */
  lemma {:induction false} UpperDigits(v: nat)
    ensures var raw := ToUpper(RadixString(v, 16));
      && |raw| >= 1 && AllDigitsIn(raw, 16) && ParseDigits(raw, 16) == v
      && (forall i :: 0 <= i < |raw| ==> !('a' <= raw[i] <= 'z'))
  {
    var digits := RadixString(v, 16);
    RadixShape(v, 16);
    ParseToUpper(digits, 16);
    ToUpperAt(digits);
  }

  /** Padding with zeros keeps the digits, the value and the absence of lower-case letters. */
  lemma {:induction false} PaddedDigits(raw: string, w: nat, base: nat)
    requires 2 <= base && w >= |raw| && AllDigitsIn(raw, base)
    requires forall i :: 0 <= i < |raw| ==> !('a' <= raw[i] <= 'z')
    ensures var r := PadZeros(raw, w);
      && |r| == w && r == Zeros(w - |raw|) + raw
      && AllDigitsIn(r, base) && ParseDigits(r, base) == ParseDigits(raw, base)
      && (forall i :: 0 <= i < |r| ==> !('a' <= r[i] <= 'z'))
  {
    var r := Zeros(w - |raw|) + raw;
    assert PadZeros(raw, w) == r;
    ParseLeadingZeros(w - |raw|, raw, base);
    assert forall i :: 0 <= i < |r| ==> r[i] == if i < w - |raw| then '0' else raw[i - (w - |raw|)];
  }

  /** `getHexString(10n)` is `"0A"`. */
  lemma HexStringExample()
    ensures HexString(Some(10)) == "0A"
  {
    assert RadixString(10, 16) == "a";
    assert ToUpper("a") == "A";
    assert HexWidth(1) == 2;
  }

  /** The binary width is the smallest multiple of 8 that is at least the digit count. */
  lemma BinWidthMinimal(len: nat)
    ensures BinWidth(len) % 8 == 0 && len <= BinWidth(len) < len + 8
  {
  }

  lemma DivNine(m: nat, j: nat)
    requires j < 9
    ensures (9 * m + j) / 9 == m && (9 * m + j) % 9 == j
  {
  }

  /**
   * On `m` whole bytes the grouping inserts `m - 1` separators: every ninth
   * character is `'`, the others are the digits in order.
   */
  lemma GroupedShape(s: string, m: nat)
    requires m >= 1 && |s| == 8 * m
    ensures |Grouped(s)| == 9 * m - 1
    ensures forall i :: 0 <= i < 9 * m - 1 ==> Grouped(s)[i] == if i % 9 == 8 then '\'' else s[i - i / 9]
  {
    GroupedLength(s, m);
    forall i | 0 <= i < 9 * m - 1
      ensures Grouped(s)[i] == if i % 9 == 8 then '\'' else s[i - i / 9]
    {
      GroupedAt(s, m, i);
    }
  }

  lemma {:induction false} GroupedLength(s: string, m: nat)
    requires m >= 1 && |s| == 8 * m
    ensures |Grouped(s)| == 9 * m - 1
    decreases m
  {
    if m > 1 {
      GroupedLength(s[..|s| - 8], m - 1);
    }
  }

  /** One character of the grouping of `m` whole bytes. */
  lemma {:induction false} GroupedAt(s: string, m: nat, i: nat)
    requires m >= 1 && |s| == 8 * m && i < 9 * m - 1
    ensures |Grouped(s)| == 9 * m - 1
    ensures Grouped(s)[i] == if i % 9 == 8 then '\'' else s[i - i / 9]
    decreases m
  {
    GroupedLength(s, m);
    if m == 1 {
      DivNine(0, i);
    } else {
      var pre := s[..|s| - 8];
      var last := s[|s| - 8..];
      var g := Grouped(pre);
      GroupedLength(pre, m - 1);
      assert Grouped(s) == g + "'" + last;
      if i < 9 * (m - 1) - 1 {
        GroupedAt(pre, m - 1, i);
        assert Grouped(s)[i] == g[i];
        DivNine(i / 9, i % 9);
        assert pre[i - i / 9] == s[i - i / 9];
      } else if i == 9 * (m - 1) - 1 {
        DivNine(m - 1 - 1, 8);
      } else {
        var j := i - 9 * (m - 1);
        DivNine(m - 1, j);
        assert Grouped(s)[i] == last[j];
      }
    }
  }

  /**
   * `getBinString` of a value: the raw digits padded with zeros to the
   * smallest multiple of 8, and `"-"` beyond 64 digits; otherwise `'`
   * between the bytes, `n + n/8 - 1` characters for `n` padded digits.
   */
  lemma {:induction false} BinStringDigits(v: nat)
    ensures var raw := RadixString(v, 2); var n := BinWidth(|raw|); var padded := Zeros(n - |raw|) + raw;
      var r := BinString(Some(v));
      && n % 8 == 0 && |raw| <= n < |raw| + 8
      && AllDigitsIn(padded, 2) && ParseDigits(padded, 2) == v
      && (n > 64 ==> r == "-")
      && (n <= 64 ==> |r| == n + n / 8 - 1 && ByteGrouped(r, padded))
  {
    BinPadded(v);
    BinGroupingShape(RadixString(v, 2));
  }

  /** The padding and grouping of a non-empty digit string. */
  lemma BinGroupingShape(raw: string)
    requires |raw| >= 1
    ensures var n := BinWidth(|raw|); var padded := Zeros(n - |raw|) + raw; var r := BinGrouping(raw);
      && (n > 64 ==> r == "-")
      && (n <= 64 ==> |r| == n + n / 8 - 1 && ByteGrouped(r, padded))
  {
    var n := BinWidth(|raw|);
    var padded := Zeros(n - |raw|) + raw;
    BinWidthMinimal(|raw|);
    assert PadZeros(raw, n) == padded by {
      if n == |raw| {
        assert Zeros(0) + raw == raw;
      }
    }
    if n <= 64 {
      assert BinGrouping(raw) == Grouped(padded);
      GroupedBytes(padded);
    }
  }

  /** The grouping of whole bytes, in terms of the digit count. */
  lemma GroupedBytes(s: string)
    requires |s| >= 8 && |s| % 8 == 0
    ensures |Grouped(s)| == |s| + |s| / 8 - 1
    ensures ByteGrouped(Grouped(s), s)
  {
    var m := |s| / 8;
    assert |s| == 8 * m && 9 * m - 1 == |s| + m - 1;
    GroupedShape(s, m);
  }

  /** The padded binary digits still read back as the value. */
  lemma BinPadded(v: nat)
    ensures var raw := RadixString(v, 2); var n := BinWidth(|raw|); var padded := Zeros(n - |raw|) + raw;
      && PadZeros(raw, n) == padded && |raw| >= 1
      && n % 8 == 0 && |raw| <= n < |raw| + 8
      && AllDigitsIn(padded, 2) && ParseDigits(padded, 2) == v
  {
    var raw := RadixString(v, 2);
    var n := BinWidth(|raw|);
    BinWidthMinimal(|raw|);
    assert PadZeros(raw, n) == Zeros(n - |raw|) + raw by {
      if n == |raw| {
        assert Zeros(0) + raw == raw;
      }
    }
    RadixShape(v, 2);
    ParseLeadingZeros(n - |raw|, raw, 2);
  }

  /** `getBinString(0n)` is eight zeros. */
  lemma BinStringZero()
    ensures BinString(Some(0)) == "00000000"
  {
    assert RadixString(0, 2) == "0";
    assert BinWidth(1) == 8;
    assert Zeros(7) + "0" == "00000000";
  }

  lemma Digits256()
    ensures RadixString(256, 2) == "100000000"
  {
    assert Digits(1, 2) == "1";
    assert Digits(2, 2) == "10";
    assert Digits(4, 2) == "100";
    assert Digits(8, 2) == "1000";
    assert Digits(16, 2) == "10000";
    assert Digits(32, 2) == "100000";
    assert Digits(64, 2) == "1000000";
    assert Digits(128, 2) == "10000000";
  }

  /** `getBinString(256n)` takes two bytes with a separator between them. */
  lemma BinStringTwoBytes()
    ensures BinString(Some(256)) == "00000001'00000000"
  {
    PaddedTwoBytes();
    GroupedTwoBytes();
  }

  lemma PaddedTwoBytes()
    ensures PadZeros(RadixString(256, 2), BinWidth(|RadixString(256, 2)|)) == "0000000100000000"
  {
    Digits256();
    assert BinWidth(9) == 16;
    assert Zeros(7) + "100000000" == "0000000100000000";
  }

  lemma GroupedTwoBytes()
    ensures Grouped("0000000100000000") == "00000001'00000000"
  {
    var padded := "0000000100000000";
    assert padded[..8] == "00000001" && padded[8..] == "00000000";
  }

  lemma {:induction false} PowMonotone(b: nat, e1: nat, e2: nat)
    requires b >= 1 && e1 <= e2
    ensures Pow(b, e1) <= Pow(b, e2)
    decreases e2
  {
    if e1 < e2 {
      PowMonotone(b, e1, e2 - 1);
      MulMonotone(1, b, Pow(b, e2 - 1));
    }
  }

  /** The padded width passes `k` whole bytes exactly when the digit count does. */
  lemma BinWidthPastBytes(len: nat, k: nat)
    ensures BinWidth(len) > 8 * k <==> len > 8 * k
  {
    var q := (len as int - 1) / 8;
    assert BinWidth(len) == 8 * (q + 1);
    assert 8 * q <= len as int - 1 < 8 * q + 8;
    if len > 8 * k {
      assert q + 1 > k;
    } else {
      assert q + 1 <= k;
    }
  }

  /** A value has more than `k` binary digits exactly from 2^k on. */
  lemma {:induction false} BinaryDigitCount(v: nat, k: nat)
    requires k >= 1
    ensures |RadixString(v, 2)| <= k <==> v < Pow(2, k)
  {
    var raw := RadixString(v, 2);
    DigitsCanonical(v, 2);
    if |raw| > k {
      assert v != 0;
      assert raw[0] != '0';
      assert DigitValue(raw[0]) == 1 by {
        assert IsDigitIn(raw[0], 2);
      }
      ParseLowerBound(raw, 2);
      PowMonotone(2, k, |raw| - 1);
    } else {
      PowMonotone(2, |raw|, k);
    }
  }

  /** The overflow guard: `getBinString` gives `"-"` exactly for values from 2^64 on. */
  lemma {:induction false} BinStringOverflow(v: nat)
    ensures BinString(Some(v)) == "-" <==> v >= Pow(2, 64)
  {
    var raw := RadixString(v, 2);
    BinaryDigitCount(v, 64);
    BinStringDigits(v);
    var n := BinWidth(|raw|);
    BinWidthPastBytes(|raw|, 8);
    if n <= 64 {
      var r := BinString(Some(v));
      var padded := Zeros(n - |raw|) + raw;
      assert r[0] == padded[0] && IsDigitIn(padded[0], 2);
    }
  }

  // ---------------------------------------------------------------------
  // The passes of `formatString`

  /** `replace(/\\n/g, '\n')`: every backslash followed by `n` becomes a line break, scanning left to right. */
  function ExpandNewlines(s: string): string
    decreases |s|
  {
    if s == [] then []
    else if |s| >= 2 && s[0] == '\\' && s[1] == 'n' then "\n" + ExpandNewlines(s[2..])
    else [s[0]] + ExpandNewlines(s[1..])
  }

  /** No backslash is followed by `n`. */
  predicate NoEscapedNewline(s: string) {
    forall i :: 0 <= i < |s| - 1 ==> !(s[i] == '\\' && s[i + 1] == 'n')
  }

  /** A match of `/<([^<{]*)\{dec\}([^>]*)>/`: the text before and after `{dec}`. */
  datatype DualHit = DualHit(p1: string, p2: string)

  /** The length of `<p1{dec}p2>`. */
  function DualLength(h: DualHit): nat {
    |h.p1| + |h.p2| + 7
  }

  /**
   * The dual-value shorthand at the start of `s`. Both classes are greedy
   * and stop at the first excluded character, so `{dec}` must follow the
   * first `<` or `{` after the opening `<`, and the first `>` after it closes.
   */
  function DualMatch(s: string): (m: Option<DualHit>)
    ensures m.Some? ==> DualLength(m.value) <= |s|
  {
    if s == [] || s[0] != '<' then None
    else
      var a := 1 + FirstIndexIn(s[1..], {'<', '{'});
      if a + 5 <= |s| && s[a..a + 5] == "{dec}" then
        var b := a + 5 + FirstIndexIn(s[a + 5..], {'>'});
        if b < |s| then Some(DualHit(s[1..a], s[a + 5..b])) else None
      else None
  }

  /** A dual-value match is the text `<p1{dec}p2>` at the start of `s`, with no `<` or `{` in `p1` and no `>` in `p2`. */
  lemma DualMatchSound(s: string)
    ensures var m := DualMatch(s);
      m.Some? ==> && s[..DualLength(m.value)] == "<" + m.value.p1 + "{dec}" + m.value.p2 + ">"
                  && '<' !in m.value.p1 && '{' !in m.value.p1 && '>' !in m.value.p2
  {
    if DualMatch(s).Some? {
      var a := 1 + FirstIndexIn(s[1..], {'<', '{'});
      var b := a + 5 + FirstIndexIn(s[a + 5..], {'>'});
      var h := DualHit(s[1..a], s[a + 5..b]);
      assert DualMatch(s) == Some(h);
      assert s[..DualLength(h)] == [s[0]] + s[1..a] + s[a..a + 5] + s[a + 5..b] + [s[b]];
      assert forall i :: 0 <= i < |h.p1| ==> h.p1[i] == s[1..][i];
      assert forall i :: 0 <= i < |h.p2| ==> h.p2[i] == s[a + 5..][i];
    }
  }

  /** `'<' + p1 + vals.join(p2 + '>, <' + p1) + p2 + '>'`. */
  function DualExpand(h: DualHit, vals: seq<string>): string {
    "<" + h.p1 + Join(vals, h.p2 + ">, <" + h.p1) + h.p2 + ">"
  }

  /** The second pass: every dual-value shorthand, left to right, expands to one `<…>` per value. */
  function DualPass(s: string, vals: seq<string>): string
    decreases |s|
  {
    if s == [] then []
    else
      match DualMatch(s)
      case Some(h) => DualExpand(h, vals) + DualPass(s[DualLength(h)..], vals)
      case None => [s[0]] + DualPass(s[1..], vals)
  }

  /** `/open([^close]*)close/` at the start of `s`: the text up to the first `close`. */
  function Bracketed(s: string, open: char, close: char): (m: Option<string>)
    ensures m.Some? ==> |m.value| + 2 <= |s|
    ensures m.Some? ==> s[..|m.value| + 2] == [open] + m.value + [close] && close !in m.value
  {
    if s == [] || s[0] != open then None
    else
      var k := FirstIndexIn(s[1..], {close});
      if 1 + k < |s| then
        assert s[..k + 2] == [s[0]] + s[1..1 + k] + [s[1 + k]];
        assert forall i :: 0 <= i < k ==> s[1..1 + k][i] == s[1..][i];
        Some(s[1..1 + k])
      else None
  }

  /** The four values one `formatString` call renders. */
  datatype Slots = Slots(dec: Option<int>, sDec: Option<int>, hex: Option<nat>, bin: Option<nat>)

  /** The replacement of `{name}`: a renderer for the five known names, the placeholder itself otherwise. */
  function Substitute(name: string, v: Slots): string {
    if name == "dec" then Join(TwoDecStrings(v.dec, v.sDec), ", ")
    else if name == "decu" then DecString(v.dec)
    else if name == "deci" then DecString(v.sDec)
    else if name == "hex" then HexString(v.hex)
    else if name == "bin" then BinString(v.bin)
    else "{" + name + "}"
  }

  /** The third pass, `replace(/\{([^}]*)\}/g, …)`. */
  function PlaceholderPass(s: string, v: Slots): string
    decreases |s|
  {
    if s == [] then []
    else
      match Bracketed(s, '{', '}')
      case Some(name) => Substitute(name, v) + PlaceholderPass(s[|name| + 2..], v)
      case None => [s[0]] + PlaceholderPass(s[1..], v)
  }

  /** A `vscode.Range`, by its four coordinates. */
  datatype Range = Range(startLine: int, startCharacter: int, endLine: int, endCharacter: int)

  /** `Position.isAfter`: line `l1`, character `c1` lies after line `l2`, character `c2`. */
  predicate IsAfter(l1: int, c1: int, l2: int, c2: int) {
    l1 > l2 || (l1 == l2 && c1 > c2)
  }

  /** What every `vscode.Range` satisfies: no negative coordinate, and the start not after the end. */
  predicate ValidRange(r: Range) {
    r.startLine >= 0 && r.startCharacter >= 0 && r.endLine >= 0 && r.endCharacter >= 0
    && !IsAfter(r.startLine, r.startCharacter, r.endLine, r.endCharacter)
  }

  /**
   * `new vscode.Range(startLine, startCharacter, endLine, endCharacter)`:
   * `None` where the constructor throws because a coordinate is negative;
   * otherwise the range of the two positions, the earlier one as its start.
   */
  function NewRange(sl: int, sc: int, el: int, ec: int): (r: Option<Range>)
    ensures r.None? <==> sl < 0 || sc < 0 || el < 0 || ec < 0
    ensures r.Some? ==> ValidRange(r.value)
    ensures r.Some? ==> (r.value == Range(sl, sc, el, ec) || r.value == Range(el, ec, sl, sc))
  {
    if sl < 0 || sc < 0 || el < 0 || ec < 0 then None
    else if IsAfter(sl, sc, el, ec) then Some(Range(el, ec, sl, sc))
    else Some(Range(sl, sc, el, ec))
  }

  /** The Markdown command link of a button; `args` is the encoded payload. */
  function Link(caption: string, args: string): string {
    "[" + caption + "](command:hexHover._replace?" + args + " \"Replace hovered value with " + caption + "\")"
  }

  /**
   * The fourth pass, `replace(/<([^>]*)>/g, …)`: every `<caption>` becomes a
   * link whose payload is built from the counter, the caption, the document
   * and the range. `payload` stands for `encodeURIComponent(JSON.stringify(…))`.
   */
  function ButtonPass(s: string, counter: nat, uri: string, range: Range,
                      payload: (nat, string, string, Range) -> string): string
    decreases |s|
  {
    if s == [] then []
    else
      match Bracketed(s, '<', '>')
      case Some(caption) => Link(caption, payload(counter, caption, uri, range)) + ButtonPass(s[|caption| + 2..], counter, uri, range, payload)
      case None => [s[0]] + ButtonPass(s[1..], counter, uri, range, payload)
  }

  /** What `formatString` returns: `''` for an empty template, otherwise the four passes in order. */
  function FormatText(format: string, v: Slots, counter: nat, uri: string, range: Range,
                      payload: (nat, string, string, Range) -> string): string
  {
    if format == "" then ""
    else
      var expanded := ExpandNewlines(format);
      var dual := DualPass(expanded, TwoDecStrings(v.dec, v.sDec));
      var named := PlaceholderPass(dual, v);
      ButtonPass(named, counter, uri, range, payload)
  }

  /** Bigint truthiness: defined and not zero. */
  predicate Truthy(x: Option<int>) {
    x.Some? && x.value != 0
  }

  /** One section of `toString`: the trimmed template formatted and a line break, or nothing for a falsy source. */
  function Section(src: Option<int>, template: string, v: Slots, counter: nat, uri: string, range: Range,
                   payload: (nat, string, string, Range) -> string): string
  {
    if Truthy(src) then FormatText(Trim(template), v, counter, uri, range, payload) + "\n" else ""
  }

  /** The four templates of the configuration, `formatString.Decimal` to `formatString.Binary`. */
  datatype Templates = Templates(decimal: string, signedDecimal: string, hexadecimal: string, binary: string)

  // ---------------------------------------------------------------------
  // The class

  /** `Vars.msgCounter`, shared by all instances. */
  class MsgCounter {
    var count: nat

    constructor ()
      ensures count == 0
    {
      count := 0;
    }
  }

  /** `Vars`: the source values, their conversions, the document and the range of the hovered word. */
  class Vars {
    const counter: MsgCounter
    const uri: string
    const r: Range
    var range: Range

    var srcDec: Option<int>
    var srcSDec: Option<int>
    var srcHex: Option<nat>
    var srcBin: Option<nat>

    var convDecHex: Option<nat>
    var convDecBin: Option<nat>
    var convSDecHex: Option<nat>
    var convSDecBin: Option<nat>
    var convHexDec: Option<int>
    var convHexSDec: Option<int>
    var convHexBin: Option<nat>
    var convBinDec: Option<int>
    var convBinHex: Option<nat>
    var convBinSDec: Option<int>

    /** Saves the document and the range, and counts the instance. */
    constructor (counter: MsgCounter, uri: string, r: Range)
      modifies counter
      ensures this.counter == counter && this.uri == uri && this.r == r && range == r
      ensures counter.count == old(counter.count) + 1
      ensures srcDec.None? && srcSDec.None? && srcHex.None? && srcBin.None?
      ensures convDecHex.None? && convDecBin.None? && convSDecHex.None? && convSDecBin.None?
      ensures convHexDec.None? && convHexSDec.None? && convHexBin.None?
      ensures convBinDec.None? && convBinHex.None? && convBinSDec.None?
    {
      this.counter := counter;
      this.uri := uri;
      this.r := r;
      range := r;
      srcDec, srcSDec, srcHex, srcBin := None, None, None, None;
      convDecHex, convDecBin, convSDecHex, convSDecBin := None, None, None, None;
      convHexDec, convHexSDec, convHexBin := None, None, None;
      convBinDec, convBinHex, convBinSDec := None, None, None;
      new;
      counter.count := counter.count + 1;
    }

    /**
     * `fixRangeStart`: the range rebuilt with the start character moved by
     * `offset`. `thrown` stands for the exception of the `vscode.Range`
     * constructor, which leaves the range as it was.
     */
    method FixRangeStart(offset: int) returns (thrown: bool)
      modifies this`range
      ensures var moved := NewRange(old(range).startLine, old(range).startCharacter + offset, old(range).endLine, old(range).endCharacter);
        && (thrown <==> moved.None?)
        && range == (if moved.Some? then moved.value else old(range))
      ensures ValidRange(old(range)) ==> ValidRange(range)
    {
      var moved := NewRange(range.startLine, range.startCharacter + offset, range.endLine, range.endCharacter);
      thrown := moved.None?;
      if moved.Some? {
        range := moved.value;
      }
    }

    /** `formatString`: the template rewritten by the four passes, every button with the current counter. */
    method FormatString(format: string, dec: Option<int>, sDec: Option<int>, hex: Option<nat>, bin: Option<nat>,
                        payload: (nat, string, string, Range) -> string)
      returns (result: string)
      ensures result == FormatText(format, Slots(dec, sDec, hex, bin), counter.count, uri, range, payload)
    {
      if format == "" {
        return "";
      }
      result := ExpandNewlines(format);
      result := DualPass(result, TwoDecStrings(dec, sDec));
      result := PlaceholderPass(result, Slots(dec, sDec, hex, bin));
      result := ButtonPass(result, counter.count, uri, range, payload);
    }

    /** `toString`: the sections of the truthy sources, in the order decimal, signed decimal, hexadecimal, binary. */
    method ToString(templates: Templates, payload: (nat, string, string, Range) -> string)
      returns (result: string)
      ensures result ==
        Section(srcDec, templates.decimal, Slots(srcDec, srcSDec, convDecHex, convDecBin), counter.count, uri, range, payload)
        + Section(srcSDec, templates.signedDecimal, Slots(srcDec, srcSDec, convSDecHex, convSDecBin), counter.count, uri, range, payload)
        + Section(srcHex, templates.hexadecimal, Slots(convHexDec, convHexSDec, srcHex, convHexBin), counter.count, uri, range, payload)
        + Section(srcBin, templates.binary, Slots(convBinDec, convBinSDec, convBinHex, srcBin), counter.count, uri, range, payload)
    {
      ghost var c, u, g := counter.count, uri, range;
      var decSlots := Slots(srcDec, srcSDec, convDecHex, convDecBin);
      var sDecSlots := Slots(srcDec, srcSDec, convSDecHex, convSDecBin);
      var hexSlots := Slots(convHexDec, convHexSDec, srcHex, convHexBin);
      var binSlots := Slots(convBinDec, convBinSDec, convBinHex, srcBin);
      ghost var s1 := Section(srcDec, templates.decimal, decSlots, c, u, g, payload);
      ghost var s2 := Section(srcSDec, templates.signedDecimal, sDecSlots, c, u, g, payload);
      ghost var s3 := Section(srcHex, templates.hexadecimal, hexSlots, c, u, g, payload);
      ghost var s4 := Section(srcBin, templates.binary, binSlots, c, u, g, payload);
      result := "";
      result := AppendSection(result, srcDec, templates.decimal, decSlots, payload);
      assert result == s1;
      result := AppendSection(result, srcSDec, templates.signedDecimal, sDecSlots, payload);
      assert result == s1 + s2;
      result := AppendSection(result, srcHex, templates.hexadecimal, hexSlots, payload);
      assert result == s1 + s2 + s3;
      result := AppendSection(result, srcBin, templates.binary, binSlots, payload);
      assert result == s1 + s2 + s3 + s4;
    }

    /** One `if (this.src…) result += this.formatString(…) + "\n"` step of `toString`. */
    method AppendSection(result: string, src: Option<int>, template: string, v: Slots,
                         payload: (nat, string, string, Range) -> string)
      returns (extended: string)
      ensures extended == result + Section(src, template, v, counter.count, uri, range, payload)
    {
      extended := result;
      if Truthy(src) {
        var format := Trim(template);
        var text := FormatString(format, v.dec, v.sDec, v.hex, v.bin, payload);
        extended := extended + text + "\n";
      } else {
        assert extended == result + "";
      }
    }
  }
}
