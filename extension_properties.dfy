/**
 * What the hover classifier of src/extension.ts guarantees: the suffix split
 * is the regular expression's greedy match, the patterns of one radix never
 * overlap, every word some pattern reads also reads as bare hexadecimal, the
 * two's complement columns have the claimed values, and the table has one
 * cell per column on every line.
 */
module ExtensionProperties {
  import opened Wrappers
  import opened Text
  import opened Extension

  // ---------------------------------------------------------------------
  // The suffix split

  /**
   * The split is the greedy match of `/([^ul]*)([ul]*)/i`: the word has no
   * `u`/`l` letter, the suffix has only those, and what is dropped is empty
   * or starts right after a non-empty suffix with a letter outside it.
   */
  lemma {:induction false} SplitSuffixParts(word: string)
    ensures var sp := SplitSuffix(word);
      && word[..|sp.word| + |sp.suffix|] == sp.word + sp.suffix
      && (forall i :: 0 <= i < |sp.word| ==> !IsUL(sp.word[i]))
      && (forall i :: 0 <= i < |sp.suffix| ==> IsUL(sp.suffix[i]))
      && (|sp.word| + |sp.suffix| == |word| || (|sp.suffix| > 0 && !IsUL(word[|sp.word| + |sp.suffix|])))
  {
    var k := NonULRun(word);
    var m := ULRun(word[k..]);
    assert word[..k + m] == word[..k] + word[k..k + m];
    if k < |word| {
      assert IsUL(word[k..][0]);
    }
  }

  /** Any decomposition of that shape is the one the split finds. */
  lemma {:induction false} SplitSuffixUnique(p: string, u: string, rest: string)
    requires forall i :: 0 <= i < |p| ==> !IsUL(p[i])
    requires forall i :: 0 <= i < |u| ==> IsUL(u[i])
    requires rest == [] || (|u| > 0 && !IsUL(rest[0]))
    ensures SplitSuffix(p + u + rest) == Split(p, u)
  {
    var w := p + u + rest;
    assert w == p + (u + rest);
    assert u + rest == [] || IsUL((u + rest)[0]) by {
      if |u| > 0 {
        assert (u + rest)[0] == u[0];
      }
    }
    NonULRunPrefix(p, u + rest);
    var k := NonULRun(w);
    assert w[k..] == u + rest;
    ULRunPrefix(u, rest);
    var m := ULRun(w[k..]);
    assert w[..k] == p;
    assert w[k..k + m] == u;
  }

  lemma NonULRunPrefix(p: string, t: string)
    requires forall i :: 0 <= i < |p| ==> !IsUL(p[i])
    requires t == [] || IsUL(t[0])
    ensures NonULRun(p + t) == |p|
  {
    var s := p + t;
    assert forall i :: 0 <= i < |p| ==> s[i] == p[i];
    if t != [] {
      assert s[|p|] == t[0];
    }
  }

  lemma ULRunPrefix(u: string, t: string)
    requires forall i :: 0 <= i < |u| ==> IsUL(u[i])
    requires t == [] || !IsUL(t[0])
    ensures ULRun(u + t) == |u|
  {
    var s := u + t;
    assert forall i :: 0 <= i < |u| ==> s[i] == u[i];
    if t != [] {
      assert s[|u|] == t[0];
    }
  }

  // ---------------------------------------------------------------------
  // The minus sign before the word

  /** `/-\s*$/` finds a match exactly when some `-` is followed only by whitespace. */
  lemma {:induction false} NegativeContextIff(line: string)
    ensures NegativeContext(line) <==>
      exists i :: 0 <= i < |line| && line[i] == '-' && forall j :: i < j < |line| ==> IsJsSpace(line[j])
  {
    var t := TrimEnd(line);
    if NegativeContext(line) {
      var i := |t| - 1;
      assert line[i] == t[i];
      assert forall j :: i < j < |line| ==> IsJsSpace(line[j]);
    }
    if exists i :: 0 <= i < |line| && line[i] == '-' && forall j :: i < j < |line| ==> IsJsSpace(line[j]) {
      var i :| 0 <= i < |line| && line[i] == '-' && forall j :: i < j < |line| ==> IsJsSpace(line[j]);
      assert !IsJsSpace(line[i]);
      assert i < |t|;
      assert t[|t| - 1] == line[|t| - 1];
      assert |t| - 1 == i;
    }
  }

  // ---------------------------------------------------------------------
  // The patterns of one radix exclude each other

  /** At most one of the four hexadecimal patterns matches a word, so the order the source tries them in does not matter. */
  lemma HexPatternsExclusive(s: string)
    ensures !(MatchHex0x(s).Some? && MatchHexDollar(s).Some?)
    ensures !(MatchHex0x(s).Some? && MatchHexSuffix(s).Some?)
    ensures !(MatchHex0x(s).Some? && MatchHexBare(s).Some?)
    ensures !(MatchHexDollar(s).Some? && MatchHexSuffix(s).Some?)
    ensures !(MatchHexDollar(s).Some? && MatchHexBare(s).Some?)
    ensures !(MatchHexSuffix(s).Some? && MatchHexBare(s).Some?)
  {
    if MatchHex0x(s).Some? {
      assert s[1] == s[..2][1] == 'x';
      assert s[|s| - 1] == s[2..][|s| - 3];
      assert !IsHexDigit(s[1]);
    }
    if MatchHexDollar(s).Some? {
      assert s[|s| - 1] == s[1..][|s| - 2];
    }
  }

  /** The hexadecimal match is whichever pattern matches. */
  lemma HexMatchIsAnyMatch(s: string)
    ensures MatchHex0x(s).Some? ==> HexMatch(s) == MatchHex0x(s)
    ensures MatchHexDollar(s).Some? ==> HexMatch(s) == MatchHexDollar(s)
    ensures MatchHexSuffix(s).Some? ==> HexMatch(s) == MatchHexSuffix(s)
    ensures MatchHexBare(s).Some? ==> HexMatch(s) == MatchHexBare(s)
    ensures HexMatch(s).None? <==> MatchHex0x(s).None? && MatchHexDollar(s).None? && MatchHexSuffix(s).None? && MatchHexBare(s).None?
  {
    HexPatternsExclusive(s);
  }

  /** At most one of the two binary patterns matches a word. */
  lemma BinPatternsExclusive(s: string)
    ensures !(MatchBinSuffix(s).Some? && MatchBin0b(s).Some?)
    ensures MatchBin0b(s).Some? ==> BinMatch(s) == MatchBin0b(s)
  {
    if MatchBin0b(s).Some? {
      assert s[|s| - 1] == s[2..][|s| - 3];
    }
  }

  /** A decimal word is also read as bare hexadecimal, with all its digits. */
  lemma DecimalIsAlsoHex(w: string)
    requires IsDecimalWord(w)
    ensures HexMatch(w) == Some(w)
  {
    assert IsHexDigit(w[0]);
    if |w| > 1 {
      assert w[1] == w[..2][1];
      assert w[|w| - 1] != 'h';
    }
    HexPatternsExclusive(w);
  }

  /** A word read as binary is also read as hexadecimal (`b` is a hexadecimal digit). */
  lemma BinaryIsAlsoHex(w: string)
    requires BinMatch(w).Some?
    ensures HexMatch(w).Some?
  {
    assert IsHexDigit('b');
    if MatchBinSuffix(w).Some? {
      assert forall i :: 0 <= i < |w| ==> (i < |w| - 1 ==> w[i] == w[..|w| - 1][i]) && IsHexDigit(w[i]);
    } else {
      assert forall i :: 0 <= i < |w| ==> (i >= 2 ==> w[i] == w[2..][i - 2]) && IsHexDigit(w[i]);
    }
    assert MatchHexBare(w).Some?;
  }

  /** No hover is shown exactly when the word without its `u`/`l` suffix reads as no hexadecimal pattern. */
  lemma NoColumnIffNoHex(word: string, line: string)
    ensures Columns(word, line) == [] <==> HexMatch(SplitSuffix(word).word).None?
  {
    var w := SplitSuffix(word).word;
    if HexMatch(w).None? {
      if IsDecimalWord(w) {
        DecimalIsAlsoHex(w);
      }
      if BinMatch(w).Some? {
        BinaryIsAlsoHex(w);
      }
      assert DecimalColumns(w) == [] && BinaryColumns(w) == [] && NegativeDecimalColumns(w, line) == [];
    } else {
      assert |HexColumns(w)| == 1;
      assert |Columns(word, line)| >= 1;
    }
  }

  // ---------------------------------------------------------------------
  // Two's complement

  /** The chosen modulus is the smallest of 2^8, 2^16, 2^32 above the value, and the negative value is the two's complement. */
  lemma NegValueIsTwosComplement(v: nat)
    requires 0 < v < 0x100000000
    ensures Modulus(v) == 0x100 || Modulus(v) == 0x10000 || Modulus(v) == 0x100000000
    ensures v < Modulus(v)
    ensures v < 0x100 ==> Modulus(v) <= 0x100
    ensures v < 0x10000 ==> Modulus(v) <= 0x10000
    ensures 0 < NegValue(v) < Modulus(v)
    ensures NegValue(v) == (-(v as int)) % Modulus(v)
  {
  }

  /** From 2^32 on the negative value is no longer positive, and the cells show a minus sign. */
  lemma NegValueBeyond32Bits(v: nat)
    ensures NegValue(v) > 0 <==> v < 0x100000000
  {
  }

  lemma Pow16Values()
    ensures Pow(16, 1) == 0x10 && Pow(16, 3) == 0x1000 && Pow(16, 7) == 0x10000000
    ensures Pow(16, 2) == 0x100 && Pow(16, 4) == 0x10000 && Pow(16, 8) == 0x100000000
  {
    assert Pow(16, 1) == 16;
    assert Pow(16, 2) == 256;
    assert Pow(16, 3) == 0x1000;
    assert Pow(16, 4) == 0x10000;
    assert Pow(16, 5) == 0x100000;
    assert Pow(16, 6) == 0x1000000;
    assert Pow(16, 7) == 0x10000000;
  }

  /**
   * A signed hexadecimal candidate of n digits shows its value minus 16^n:
   * a negative number no smaller than -16^n/2.
   */
  lemma {:induction false} SignedHexValue(h: string, noSignedValue: bool)
    requires IsDigitGroup(h, 16) && SignedHexCandidate(h, noSignedValue)
    ensures var v := ParseDigits(h, 16); var p: int := Pow(16, |h|);
      && -NegValue(v) == v - p
      && -(p / 2) <= -NegValue(v) < 0
  {
    var v := ParseDigits(h, 16);
    ParseLowerBound(h, 16);
    Pow16Values();
    assert DigitValue(h[0]) >= 8 by {
      assert IsHexDigit(h[0]);
    }
    MulMonotone(8, DigitValue(h[0]), Pow(16, |h| - 1));
    assert v >= 8 * Pow(16, |h| - 1);
    assert v < Pow(16, |h|);
    assert Pow(16, |h|) == 16 * Pow(16, |h| - 1);
  }

  // ---------------------------------------------------------------------
  // Words and their tables

  lemma ParseExamples()
    ensures AllDigitsIn("42", 10) && ParseDigits("42", 10) == 42
    ensures AllDigitsIn("42", 16) && ParseDigits("42", 16) == 66
    ensures AllDigitsIn("FF", 16) && ParseDigits("FF", 16) == 255
  {
    assert "42"[..1] == "4";
    assert "FF"[..1] == "F";
  }

  /** `42` with nothing before it: a decimal column and a hexadecimal column reading 0x42 = 66. */
  lemma ExampleDecimal()
    ensures Columns("42", "") == [Column(0, 42, 42, 42), Column(1, 66, 66, 66)]
  {
    SplitSuffixUnique("42", "", "");
    assert "42" + "" + "" == "42";
    ParseExamples();
    DecimalIsAlsoHex("42");
    assert DecimalColumns("42") == [Column(0, 42, 42, 42)];
    assert HexColumns("42") == [Column(1, 66, 66, 66)];
    assert BinaryColumns("42") == [] by {
      assert MatchBinSuffix("42").None? && MatchBin0b("42").None?;
    }
    assert NegativeDecimalColumns("42", "") == [];
    assert NegativeHexColumns("42", false) == [];
  }

  /** `x = -42`: the decimal and hexadecimal columns, then -42 with its 8-bit complement 214. */
  lemma ExampleNegativeDecimal()
    ensures Columns("42", "x = -") == [Column(0, 42, 42, 42), Column(1, 66, 66, 66), Column(0, -42, 214, 214)]
  {
    SplitSuffixUnique("42", "", "");
    assert "42" + "" + "" == "42";
    ParseExamples();
    DecimalIsAlsoHex("42");
    assert DecimalColumns("42") == [Column(0, 42, 42, 42)];
    assert HexColumns("42") == [Column(1, 66, 66, 66)];
    assert BinaryColumns("42") == [] by {
      assert MatchBinSuffix("42").None? && MatchBin0b("42").None?;
    }
    assert NegativeContext("x = -") by {
      assert !IsJsSpace('-');
    }
    assert NegativeDecimalColumns("42", "x = -") == [Column(0, -42, 214, 214)];
    assert NegativeHexColumns("42", false) == [];
  }

  /**
   * `-0`: the word `0` after a minus sign falls in the 8-bit range, so its
   * `negValue` is 0x100 rather than the two's complement 0, and the negative
   * column shows 256 in its hexadecimal and binary cells.
   */
  lemma ExampleNegativeZero()
    ensures NegValue(0) == 0x100
    ensures Columns("0", "-") == [Column(0, 0, 0, 0), Column(1, 0, 0, 0), Column(0, 0, 0x100, 0x100)]
  {
    SplitSuffixUnique("0", "", "");
    assert "0" + "" + "" == "0";
    assert AllDigitsIn("0", 10) && ParseDigits("0", 10) == 0;
    assert AllDigitsIn("0", 16) && ParseDigits("0", 16) == 0;
    DecimalIsAlsoHex("0");
    assert DecimalColumns("0") == [Column(0, 0, 0, 0)];
    assert HexColumns("0") == [Column(1, 0, 0, 0)];
    assert BinaryColumns("0") == [] by {
      assert MatchBinSuffix("0").None? && MatchBin0b("0").None?;
    }
    assert NegativeContext("-");
    assert NegativeDecimalColumns("0", "-") == [Column(0, 0, 0x100, 0x100)];
    assert NegativeHexColumns("0", false) == [];
  }

  /** `FFu`: the `u` marker suppresses the signed column that `FF` alone gets. */
  lemma ExampleUnsignedMarker()
    ensures Columns("FF", "") == [Column(1, 255, 255, 255), Column(1, -1, 255, 255)]
    ensures Columns("FFu", "") == [Column(1, 255, 255, 255)]
  {
    SplitSuffixUnique("FF", "u", "");
    assert "FF" + "u" + "" == "FFu";
    SplitSuffixUnique("FF", "", "");
    assert "FF" + "" + "" == "FF";
    ParseExamples();
    assert HexMatch("FF") == Some("FF") by {
      assert MatchHex0x("FF").None? && MatchHexDollar("FF").None? && MatchHexSuffix("FF").None?;
    }
    assert DecimalColumns("FF") == [];
    assert HexColumns("FF") == [Column(1, 255, 255, 255)];
    assert BinaryColumns("FF") == [] by {
      assert MatchBinSuffix("FF").None? && MatchBin0b("FF").None?;
    }
    assert NegativeDecimalColumns("FF", "") == [];
    assert NegativeHexColumns("FF", false) == [Column(1, -1, 255, 255)];
    assert NegativeHexColumns("FF", true) == [];
    assert HasUnsignedMarker("u") && !HasUnsignedMarker("");
  }

  /** `n` copies of a string. */
  function Repeat(s: string, n: nat): string {
    if n == 0 then "" else Repeat(s, n - 1) + s
  }

  /** The cells of every column on one line, each closed by `|`. */
  function CellsRow(cols: seq<Column>, line: Line): string {
    if cols == [] then "" else CellsRow(cols[..|cols| - 1], line) + Cell(cols[|cols| - 1], line) + "|"
  }

  /** The two header lines of the table grow by one column marker per column. */
  lemma {:induction false} TableHeaderRows(cols: seq<Column>)
    requires cols != []
    ensures TableOf(cols)[0] == "| |" + Repeat(" |", |cols|)
    ensures TableOf(cols)[1] == "|:--|" + Repeat(":--|", |cols|)
  {
    var init := cols[..|cols| - 1];
    if init != [] {
      TableHeaderRows(init);
    }
  }

  /** Every value line of the table holds one cell per column, in the order the columns were added. */
  lemma {:induction false} TableValueRow(cols: seq<Column>, line: Line)
    requires cols != []
    ensures TableOf(cols)[2 + line] == Header[2 + line] + CellsRow(cols, line)
  {
    var init := cols[..|cols| - 1];
    if init == [] {
      TableValueRowFirst(cols, line);
    } else {
      TableValueRow(init, line);
      TableValueRowNext(cols, line);
    }
  }

  lemma TableValueRowFirst(cols: seq<Column>, line: Line)
    requires |cols| == 1
    ensures TableOf(cols)[2 + line] == Header[2 + line] + CellsRow(cols, line)
  {
    CellsRowOne(cols, line);
    WithColumnEmpty(cols[0], line);
    TableOfOne(cols);
  }

  lemma TableValueRowNext(cols: seq<Column>, line: Line)
    requires |cols| > 1
    requires TableOf(cols[..|cols| - 1])[2 + line] == Header[2 + line] + CellsRow(cols[..|cols| - 1], line)
    ensures TableOf(cols)[2 + line] == Header[2 + line] + CellsRow(cols, line)
  {
    CellsRowStep(cols, line);
    TableOfStep(cols, line);
    ConcatAssoc(Header[2 + line], CellsRow(cols[..|cols| - 1], line), Cell(cols[|cols| - 1], line), "|");
  }

  lemma CellsRowOne(cols: seq<Column>, line: Line)
    requires |cols| == 1
    ensures CellsRow(cols, line) == Cell(cols[0], line) + "|"
  {
    assert cols[..0] == [];
  }

  lemma CellsRowStep(cols: seq<Column>, line: Line)
    requires |cols| > 1
    ensures CellsRow(cols, line) == CellsRow(cols[..|cols| - 1], line) + Cell(cols[|cols| - 1], line) + "|"
  {
  }

  lemma WithColumnEmpty(c: Column, line: Line)
    ensures WithColumn([], c)[2 + line] == Header[2 + line] + Cell(c, line) + "|"
  {
  }

  lemma TableOfOne(cols: seq<Column>)
    requires |cols| == 1
    ensures TableOf(cols) == WithColumn([], cols[0])
  {
    assert cols[..0] == [];
  }

  lemma TableOfStep(cols: seq<Column>, line: Line)
    requires |cols| > 1
    ensures TableOf(cols)[2 + line] == TableOf(cols[..|cols| - 1])[2 + line] + Cell(cols[|cols| - 1], line) + "|"
  {
    var t := TableOf(cols[..|cols| - 1]);
    var c := cols[|cols| - 1];
    assert |t| == 5;
    assert TableOf(cols) == WithColumn(t, c);
    if line == 0 {
      assert WithColumn(t, c)[2] == t[2] + Cell(c, 0) + "|";
    } else if line == 1 {
      assert WithColumn(t, c)[3] == t[3] + Cell(c, 1) + "|";
    } else {
      assert WithColumn(t, c)[4] == t[4] + Cell(c, 2) + "|";
    }
  }

  lemma ConcatAssoc(a: string, b: string, c: string, d: string)
    ensures a + (b + c + d) == a + b + c + d
  {
  }

  /** A digit string as `toString(radix)` writes it: an optional minus sign, then digits. */
  lemma RadixStringShape(n: int, base: nat)
    requires 2 <= base <= 16
    ensures |RadixString(n, base)| >= 1
    ensures RadixString(n, base)[0] == '-' <==> n < 0
    ensures forall i :: 0 <= i < |RadixString(n, base)| ==> RadixString(n, base)[i] != '*'
  {
    var s := RadixString(n, base);
    var d := Digits(if n < 0 then -n else n, base);
    DigitsCanonical(if n < 0 then -n else n, base);
    forall i | 0 <= i < |s|
      ensures s[i] != '*'
    {
      if n < 0 && i > 0 {
        assert s[i] == d[i - 1];
      }
    }
  }

  /** Exactly the cell of the emphasized line is bold. */
  lemma OnlyEmphasizedIsBold(c: Column, line: Line)
    ensures |Cell(c, line)| >= 2 && Cell(c, line)[..2] == "**" <==> line == c.emphasized
  {
    var r := RawCell(c, line);
    if line == 1 {
      RadixStringShape(c.hex, 16);
      ToUpperAt(RadixString(c.hex, 16));
    } else {
      RadixStringShape(if line == 0 then c.dec else c.bin, if line == 0 then 10 else 2);
    }
    assert r[0] != '*';
    if line == c.emphasized {
      assert Cell(c, line)[..2] == "**";
    } else if |r| >= 2 {
      assert r[..2][0] == r[0];
    }
  }

  /** The hexadecimal cell has no lower-case letter. */
  lemma HexCellUpperCase(c: Column)
    ensures forall i :: 0 <= i < |RawCell(c, 1)| ==> !('a' <= RawCell(c, 1)[i] <= 'z')
  {
    ToUpperAt(RadixString(c.hex, 16));
  }

  /** The cells of a non-negative column read back as its values. */
  lemma {:induction false} CellsReadBack(v: nat, emphasized: Line)
    ensures var c := Column(emphasized, v, v, v);
      && AllDigitsIn(RawCell(c, 0), 10) && ParseDigits(RawCell(c, 0), 10) == v
      && AllDigitsIn(RawCell(c, 1), 16) && ParseDigits(RawCell(c, 1), 16) == v
      && AllDigitsIn(RawCell(c, 2), 2) && ParseDigits(RawCell(c, 2), 2) == v
  {
    DigitsCanonical(v, 10);
    DigitsCanonical(v, 16);
    DigitsCanonical(v, 2);
    ParseToUpper(Digits(v, 16), 16);
  }

  /** A decimal word without a leading zero shows in its decimal cell exactly as written. */
  lemma {:induction false} DecimalCellIsWord(w: string)
    requires IsDecimalWord(w) && (|w| == 1 || w[0] != '0')
    ensures RawCell(DecimalColumns(w)[0], 0) == w
  {
    assert forall i :: 0 <= i < |w| ==> !('A' <= w[i] <= 'F');
    DigitsOfParse(w, 10);
  }
}
