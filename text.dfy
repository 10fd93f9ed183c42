/**
 * The JavaScript string and number primitives both source files rely on:
 * `parseInt(s, radix)`, `toString(radix)`, `toUpperCase`, the `\s` class and
 * `trim` and `Array.prototype.join`. Numbers are unbounded
 * naturals here: the double-precision limits of a JavaScript `number` are
 * not modelled.
 */
module Text {

  // ---------------------------------------------------------------------
  // Digits

  /** A character of the class `[0-9a-fA-F]`. */
  predicate IsHexDigit(c: char) {
    ('0' <= c <= '9') || ('a' <= c <= 'f') || ('A' <= c <= 'F')
  }

  /** The value of a hexadecimal digit, either case. */
  function DigitValue(c: char): (d: nat)
    requires IsHexDigit(c)
    ensures d < 16
    ensures ('0' <= c <= '9') <==> d < 10
  {
    if '0' <= c <= '9' then c as int - '0' as int
    else if 'a' <= c <= 'f' then c as int - 'a' as int + 10
    else c as int - 'A' as int + 10
  }

  /** A digit of radix `base`: `[01]` for 2, `[0-9]` for 10, `[0-9a-fA-F]` for 16. */
  predicate IsDigitIn(c: char, base: nat) {
    IsHexDigit(c) && DigitValue(c) < base
  }

  predicate AllDigitsIn(s: string, base: nat) {
    forall i :: 0 <= i < |s| ==> IsDigitIn(s[i], base)
  }

  function Pow(b: nat, e: nat): (p: nat)
    ensures b > 0 ==> p > 0
  {
    if e == 0 then 1 else b * Pow(b, e - 1)
  }

  /** One more digit: `w < P` and `d < base` give `w * base + d < P * base`. */
  lemma DigitStep(w: nat, d: nat, base: nat, p: nat)
    requires w < p && d < base
    ensures w * base + d < base * p
  {
    assert w * base + d < (w + 1) * base;
    assert (w + 1) * base <= p * base by {
      assert w + 1 <= p;
    }
  }

  /** `parseInt(s, base)` of a string made only of digits of that radix. */
  function ParseDigits(s: string, base: nat): (v: nat)
    requires AllDigitsIn(s, base)
    ensures v < Pow(base, |s|)
    decreases |s|
  {
    if s == [] then 0
    else
      var w := ParseDigits(s[..|s| - 1], base);
      var d := DigitValue(s[|s| - 1]);
      DigitStep(w, d, base, Pow(base, |s| - 1));
      w * base + d
  }

  /** The lower-case digit for a value below 16. */
  function DigitChar(d: nat): (c: char)
    requires d < 16
    ensures IsHexDigit(c) && DigitValue(c) == d
    ensures !('A' <= c <= 'Z')
  {
    if d < 10 then ('0' as int + d) as char else ('a' as int + d - 10) as char
  }

  /** Splitting off the last digit of `n` in radix `base`. */
  lemma DivModDigit(n: nat, base: nat)
    requires 2 <= base <= n
    ensures 1 <= n / base < n && n % base < base
    ensures (n / base) * base + n % base == n
  {
  }

  /**
   * `toString(base)` of a non-negative number or bigint: the digits of `n`
   * from the most significant one (see DigitsCanonical).
   */
  function Digits(n: nat, base: nat): string
    requires 2 <= base <= 16
    decreases n
  {
    if n < base then [DigitChar(n)] else Digits(n / base, base) + [DigitChar(n % base)]
  }

  /**
   * `toString(base)` gives lower-case digits of the radix, without leading
   * zeros (`"0"` for zero), that `parseInt(s, base)` reads back as `n`.
   */
  lemma {:induction false} DigitsCanonical(n: nat, base: nat)
    requires 2 <= base <= 16
    ensures var s := Digits(n, base);
      && |s| >= 1 && AllDigitsIn(s, base)
      && ParseDigits(s, base) == n
      && (n == 0 <==> s == "0")
      && (n > 0 ==> s[0] != '0')
      && (forall i :: 0 <= i < |s| ==> !('A' <= s[i] <= 'Z'))
    decreases n
  {
    var s := Digits(n, base);
    if n < base {
      assert s[..0] == [];
    } else {
      DivModDigit(n, base);
      var high := Digits(n / base, base);
      DigitsCanonical(n / base, base);
      assert s == high + [DigitChar(n % base)];
      assert s[..|s| - 1] == high;
    }
  }

  /** `toString(base)` of any integer: the digits of the magnitude, after a `-` when negative. */
  function RadixString(n: int, base: nat): string
    requires 2 <= base <= 16
  {
    if n < 0 then "-" + Digits(-n, base) else Digits(n, base)
  }

  /** `toUpperCase` on one character, for the characters number rendering produces. */
  function UpperChar(c: char): char {
    if 'a' <= c <= 'z' then (c as int - 32) as char else c
  }

  /** `toUpperCase`, restricted to ASCII letters (the only letters a rendered number holds). */
  function ToUpper(s: string): string {
    if s == [] then [] else [UpperChar(s[0])] + ToUpper(s[1..])
  }

  /** `toUpperCase` maps every character in place. */
  lemma {:induction false} ToUpperAt(s: string)
    ensures |ToUpper(s)| == |s|
    ensures forall i :: 0 <= i < |s| ==> ToUpper(s)[i] == UpperChar(s[i])
  {
    if s != [] {
      ToUpperAt(s[1..]);
    }
  }

  lemma ShiftDistributes(d0: nat, q: nat, x: nat, b: nat, dl: nat)
    ensures (d0 * q + x) * b + dl == d0 * (b * q) + (x * b + dl)
  {
  }

  /** The most significant digit carries `base^(|s|-1)` times its value. */
  lemma {:induction false} ParseFirstDigit(s: string, base: nat)
    requires |s| >= 1 && AllDigitsIn(s, base)
    ensures ParseDigits(s, base) == DigitValue(s[0]) * Pow(base, |s| - 1) + ParseDigits(s[1..], base)
    decreases |s|
  {
    var n := |s|;
    if n == 1 {
      assert s[1..] == [] && s[..0] == [];
    } else {
      var init := s[..n - 1];
      var t := s[1..];
      var middle := init[1..];
      assert middle == t[..|t| - 1];
      assert init[0] == s[0] && t[|t| - 1] == s[n - 1];
      ParseFirstDigit(init, base);
      var d0 := DigitValue(s[0]);
      var dl := DigitValue(s[n - 1]);
      var q := Pow(base, n - 2);
      var x := ParseDigits(middle, base);
      assert ParseDigits(init, base) == d0 * q + x;
      assert ParseDigits(s, base) == ParseDigits(init, base) * base + dl;
      assert ParseDigits(t, base) == x * base + dl;
      assert Pow(base, n - 1) == base * q;
      ShiftDistributes(d0, q, x, base, dl);
    }
  }

  /** A digit string whose first digit is at least `d` denotes at least `d * base^(|s|-1)`. */
  lemma ParseLowerBound(s: string, base: nat)
    requires |s| >= 1 && AllDigitsIn(s, base)
    ensures ParseDigits(s, base) >= DigitValue(s[0]) * Pow(base, |s| - 1)
  {
    ParseFirstDigit(s, base);
  }

  /** Upper-casing a digit string does not change the number it denotes. */
  lemma {:induction false} ParseToUpper(s: string, base: nat)
    requires AllDigitsIn(s, base)
    ensures AllDigitsIn(ToUpper(s), base)
    ensures ParseDigits(ToUpper(s), base) == ParseDigits(s, base)
    decreases |s|
  {
    var u := ToUpper(s);
    ToUpperAt(s);
    forall i | 0 <= i < |s|
      ensures IsDigitIn(u[i], base) && DigitValue(u[i]) == DigitValue(s[i])
    {
    }
    if s != [] {
      var init := s[..|s| - 1];
      ParseToUpper(init, base);
      ToUpperAt(init);
      assert ToUpper(init) == u[..|u| - 1];
    }
  }

  lemma MulMonotone(a: nat, b: nat, c: nat)
    requires a <= b
    ensures a * c <= b * c
  {
  }

  lemma DivModOfDigit(w: nat, d: nat, base: nat)
    requires d < base
    ensures (w * base + d) / base == w && (w * base + d) % base == d
  {
    var m := w * base + d;
    var q, r := m / base, m % base;
    assert q * base + r == m && 0 <= r < base;
    assert (w + 1) * base == w * base + base && (q + 1) * base == q * base + base;
    if q > w {
      MulMonotone(w + 1, q, base);
    } else if q < w {
      MulMonotone(q + 1, w, base);
    }
  }

  lemma ProductPositive(a: nat, b: nat)
    requires a >= 1 && b >= 1
    ensures a * b >= 1
  {
  }

  /** A canonical digit string (no leading zero, no upper-case letter) is what `toString` gives back. */
  lemma {:induction false} DigitsOfParse(s: string, base: nat)
    requires 2 <= base <= 16
    requires |s| >= 1 && AllDigitsIn(s, base)
    requires |s| == 1 || s[0] != '0'
    requires forall i :: 0 <= i < |s| ==> !('A' <= s[i] <= 'F')
    ensures Digits(ParseDigits(s, base), base) == s
    decreases |s|
  {
    var n := ParseDigits(s, base);
    var last := s[|s| - 1];
    var d := DigitValue(last);
    assert DigitChar(d) == last;
    var init := s[..|s| - 1];
    assert s == init + [last];
    var w := ParseDigits(init, base);
    assert n == w * base + d;
    if |s| == 1 {
      assert init == [];
      assert s == [last];
    } else {
      assert AllDigitsIn(init, base);
      assert init[0] == s[0];
      ParseLowerBound(init, base);
      ProductPositive(DigitValue(init[0]), Pow(base, |init| - 1));
      DigitsOfParse(init, base);
      DivModOfDigit(w, d, base);
      DigitsCanonical(w, base);
      MulMonotone(1, w, base);
      assert n >= base;
      assert Digits(n, base) == Digits(w, base) + [DigitChar(d)];
    }
  }

  // ---------------------------------------------------------------------
  // Whitespace

  /**
   * The JavaScript `\s` class, which is also what `trim` removes: the
   * ECMAScript WhiteSpace and LineTerminator code points.
   */
  predicate IsJsSpace(c: char) {
    var k := c as int;
    (9 <= k <= 13) || k == 32 || k == 0xA0 || k == 0x1680 || (0x2000 <= k <= 0x200A)
    || k == 0x2028 || k == 0x2029 || k == 0x202F || k == 0x205F || k == 0x3000 || k == 0xFEFF
  }

  /** `trimEnd`: the longest prefix that does not end in whitespace. */
  function TrimEnd(s: string): (r: string)
    ensures |r| <= |s| && r == s[..|r|]
    ensures forall i :: |r| <= i < |s| ==> IsJsSpace(s[i])
    ensures r == [] || !IsJsSpace(r[|r| - 1])
  {
    if s == [] || !IsJsSpace(s[|s| - 1]) then s else TrimEnd(s[..|s| - 1])
  }

  /** `trimStart`: the longest suffix that does not start with whitespace. */
  function TrimStart(s: string): (r: string)
    ensures |r| <= |s| && r == s[|s| - |r|..]
    ensures forall i :: 0 <= i < |s| - |r| ==> IsJsSpace(s[i])
    ensures r == [] || !IsJsSpace(r[0])
  {
    if s == [] || !IsJsSpace(s[0]) then s else TrimStart(s[1..])
  }

  /** `trim`. */
  function Trim(s: string): string {
    TrimStart(TrimEnd(s))
  }

  // ---------------------------------------------------------------------
  // Searching and joining

  /** The index of the first character of `s` that is in `cs`, or `|s|` when there is none. */
  function FirstIndexIn(s: string, cs: set<char>): (k: nat)
    ensures k <= |s|
    ensures forall i :: 0 <= i < k ==> s[i] !in cs
    ensures k < |s| ==> s[k] in cs
  {
    if s == [] || s[0] in cs then 0 else 1 + FirstIndexIn(s[1..], cs)
  }

  /** In `a + [c] + b`, with no character of `cs` in `a` and `c` in `cs`, the first hit is `c`. */
  lemma FirstIndexAt(a: string, c: char, b: string, cs: set<char>)
    requires forall i :: 0 <= i < |a| ==> a[i] !in cs
    requires c in cs
    ensures FirstIndexIn(a + [c] + b, cs) == |a|
  {
    var s := a + [c] + b;
    assert s[|a|] == c;
    assert forall i :: 0 <= i < |a| ==> s[i] == a[i];
  }

  /** `Array.prototype.join(sep)`. */
  function Join(xs: seq<string>, sep: string): string
    decreases |xs|
  {
    if xs == [] then ""
    else if |xs| == 1 then xs[0]
    else xs[0] + sep + Join(xs[1..], sep)
  }
}
