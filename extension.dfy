/**
 * The hover classifier of src/extension.ts.
 *
 * The hovered word and the text before it on its line go through a fixed
 * pipeline: a trailing run of `u`/`l` letters is split off, the rest is read
 * as decimal, as hexadecimal (`0x…`, `$…`, `…h`, bare digits) and as binary
 * (`…b`, `0b…`), and every reading that succeeds appends one column to a
 * five-line Markdown table. A minus sign before the word adds a column with
 * the negative value and its 8-, 16- or 32-bit two's complement; a
 * hexadecimal word of 2, 4 or 8 digits whose top bit is set adds a column
 * with its signed value.
 */
module Extension {
  import opened Wrappers
  import opened Text

  // ---------------------------------------------------------------------
  // The `u`/`l` suffix: /([^ul]*)([ul]*)/i

  predicate IsUL(c: char) {
    c == 'u' || c == 'U' || c == 'l' || c == 'L'
  }

  /** The length of the longest prefix of `s` without a `u`/`l` letter. */
  function NonULRun(s: string): (k: nat)
    ensures k <= |s|
    ensures forall i :: 0 <= i < k ==> !IsUL(s[i])
    ensures k < |s| ==> IsUL(s[k])
  {
    if s == [] || IsUL(s[0]) then 0 else 1 + NonULRun(s[1..])
  }

  /** The length of the longest prefix of `s` made of `u`/`l` letters. */
  function ULRun(s: string): (k: nat)
    ensures k <= |s|
    ensures forall i :: 0 <= i < k ==> IsUL(s[i])
    ensures k < |s| ==> !IsUL(s[k])
  {
    if s == [] || !IsUL(s[0]) then 0 else 1 + ULRun(s[1..])
  }

  /** The two groups of the suffix match: the word that is classified and its `u`/`l` run. */
  datatype Split = Split(word: string, suffix: string)

  /**
   * `/([^ul]*)([ul]*)/i.exec(word)`. Both groups may be empty, so the match
   * always starts at index 0; whatever follows the `u`/`l` run is dropped.
   */
  function SplitSuffix(word: string): Split {
    var k := NonULRun(word);
    var m := ULRun(word[k..]);
    Split(word[..k], word[k..k + m])
  }

  /** `ulMatch[2].toLowerCase().indexOf('u') >= 0`. */
  predicate HasUnsignedMarker(suffix: string) {
    'u' in suffix || 'U' in suffix
  }

  // ---------------------------------------------------------------------
  // The literal patterns

  /** `/^([0-9]+)$/` */
  predicate IsDecimalWord(s: string) {
    |s| > 0 && AllDigitsIn(s, 10)
  }

  /** A digit group as the patterns capture it: one or more digits of the radix. */
  predicate IsDigitGroup(g: string, base: nat) {
    |g| > 0 && AllDigitsIn(g, base)
  }

  /** `/^0x([0-9a-fA-F]+)$/` */
  function MatchHex0x(s: string): (m: Option<string>)
    ensures m.Some? ==> IsDigitGroup(m.value, 16)
  {
    if |s| > 2 && s[..2] == "0x" && AllDigitsIn(s[2..], 16) then Some(s[2..]) else None
  }

  /** `/^\$([0-9a-fA-F]+)$/` */
  function MatchHexDollar(s: string): (m: Option<string>)
    ensures m.Some? ==> IsDigitGroup(m.value, 16)
  {
    if |s| > 1 && s[0] == '$' && AllDigitsIn(s[1..], 16) then Some(s[1..]) else None
  }

  /** `/^([0-9a-fA-F]+)h$/` */
  function MatchHexSuffix(s: string): (m: Option<string>)
    ensures m.Some? ==> IsDigitGroup(m.value, 16)
  {
    if |s| > 1 && s[|s| - 1] == 'h' && AllDigitsIn(s[..|s| - 1], 16) then Some(s[..|s| - 1]) else None
  }

  /** `/^([0-9a-fA-F]+)$/` */
  function MatchHexBare(s: string): (m: Option<string>)
    ensures m.Some? ==> IsDigitGroup(m.value, 16)
  {
    if |s| > 0 && AllDigitsIn(s, 16) then Some(s) else None
  }

  /** `/^([01]+)b$/` */
  function MatchBinSuffix(s: string): (m: Option<string>)
    ensures m.Some? ==> IsDigitGroup(m.value, 2)
  {
    if |s| > 1 && s[|s| - 1] == 'b' && AllDigitsIn(s[..|s| - 1], 2) then Some(s[..|s| - 1]) else None
  }

  /** `/^0b([01]+)$/` */
  function MatchBin0b(s: string): (m: Option<string>)
    ensures m.Some? ==> IsDigitGroup(m.value, 2)
  {
    if |s| > 2 && s[..2] == "0b" && AllDigitsIn(s[2..], 2) then Some(s[2..]) else None
  }

  /** The hexadecimal digit group of the first hexadecimal pattern that matches, tried in source order. */
  function HexMatch(s: string): (m: Option<string>)
    ensures m.Some? ==> IsDigitGroup(m.value, 16)
  {
    if MatchHex0x(s).Some? then MatchHex0x(s)
    else if MatchHexDollar(s).Some? then MatchHexDollar(s)
    else if MatchHexSuffix(s).Some? then MatchHexSuffix(s)
    else MatchHexBare(s)
  }

  /** The binary digit group of the first binary pattern that matches, tried in source order. */
  function BinMatch(s: string): (m: Option<string>)
    ensures m.Some? ==> IsDigitGroup(m.value, 2)
  {
    if MatchBinSuffix(s).Some? then MatchBinSuffix(s) else MatchBin0b(s)
  }

  /** `/-\s*$/.exec(line) != undefined`: the line ends in a minus sign and possibly whitespace. */
  predicate NegativeContext(line: string) {
    var t := TrimEnd(line);
    |t| > 0 && t[|t| - 1] == '-'
  }

  /** A hexadecimal digit group that is read as signed: no `u` marker, 2, 4 or 8 digits, top digit character at least `'8'`. */
  predicate SignedHexCandidate(digits: string, noSignedValue: bool) {
    !noSignedValue && |digits| > 0 && digits[0] >= '8' && (|digits| == 2 || |digits| == 4 || |digits| == 8)
  }

  // ---------------------------------------------------------------------
  // Two's complement

  /** `0x100`, `0x10000` or `0x100000000`: the 8-, 16- or 32-bit modulus the source picks for `value`. */
  function Modulus(value: int): nat {
    if value < 0x100 then 0x100 else if value < 0x10000 then 0x10000 else 0x100000000
  }

  /** `negValue` of the source: the modulus minus the value. */
  function NegValue(value: int): int {
    Modulus(value) - value
  }

  // ---------------------------------------------------------------------
  // Columns

  /** A table line: 0 is Decimal, 1 is Hex, 2 is Binary. */
  type Line = n: nat | n < 3

  /** The arguments of one `addColumn` call. */
  datatype Column = Column(emphasized: Line, dec: int, hex: int, bin: int)

  /** The decimal column: the word read as base 10. */
  function DecimalColumns(w: string): seq<Column> {
    if IsDecimalWord(w) then var v := ParseDigits(w, 10); [Column(0, v, v, v)] else []
  }

  /** The hexadecimal column: the digit group of the first hexadecimal pattern, read as base 16. */
  function HexColumns(w: string): seq<Column> {
    match HexMatch(w)
    case Some(h) => var v := ParseDigits(h, 16); [Column(1, v, v, v)]
    case None => []
  }

  /** The binary column: the digit group of the first binary pattern, read as base 2. */
  function BinaryColumns(w: string): seq<Column> {
    match BinMatch(w)
    case Some(b) => var v := ParseDigits(b, 2); [Column(2, v, v, v)]
    case None => []
  }

  /** The negative decimal column: `-v` with the two's complement in the hex and binary cells. */
  function NegativeDecimalColumns(w: string, line: string): seq<Column> {
    if IsDecimalWord(w) && NegativeContext(line) then
      var v: int := ParseDigits(w, 10);
      [Column(0, -v, NegValue(v), NegValue(v))]
    else []
  }

  /** The signed hexadecimal column: the signed value with the unchanged pattern in the hex and binary cells. */
  function NegativeHexColumns(w: string, noSignedValue: bool): seq<Column> {
    match HexMatch(w)
    case Some(h) =>
      if SignedHexCandidate(h, noSignedValue) then
        var v := ParseDigits(h, 16);
        [Column(1, -NegValue(v), v, v)]
      else []
    case None => []
  }

  /** The columns the hover shows, in the order the source appends them. */
  function Columns(word: string, line: string): seq<Column> {
    var sp := SplitSuffix(word);
    DecimalColumns(sp.word)
    + HexColumns(sp.word)
    + BinaryColumns(sp.word)
    + NegativeDecimalColumns(sp.word, line)
    + NegativeHexColumns(sp.word, HasUnsignedMarker(sp.suffix))
  }

  // ---------------------------------------------------------------------
  // The Markdown table

  /** The five lines `addColumn` creates for an empty table. */
  const Header: seq<string> := ["| |", "|:--|", "|Decimal:|", "|Hex:|", "|Binary:|"]

  /** The unemphasized cell of a column on a line: `toString()`, `toString(16).toUpperCase()`, `toString(2)`. */
  function RawCell(c: Column, line: Line): string {
    if line == 0 then RadixString(c.dec, 10)
    else if line == 1 then ToUpper(RadixString(c.hex, 16))
    else RadixString(c.bin, 2)
  }

  /** The cell as shown: the emphasized line is wrapped in `**`. */
  function Cell(c: Column, line: Line): string {
    if line == c.emphasized then "**" + RawCell(c, line) + "**" else RawCell(c, line)
  }

  /** The table lines after one `addColumn` call. */
  function WithColumn(lines: seq<string>, c: Column): (r: seq<string>)
    requires |lines| == 0 || |lines| == 5
  {
    var t := if lines == [] then Header else lines;
    [t[0] + " |", t[1] + ":--|", t[2] + Cell(c, 0) + "|", t[3] + Cell(c, 1) + "|", t[4] + Cell(c, 2) + "|"]
  }

  /** The table lines after one `addColumn` call per column, starting from an empty array. */
  function TableOf(cols: seq<Column>): (r: seq<string>)
    ensures |r| == if cols == [] then 0 else 5
  {
    if cols == [] then [] else WithColumn(TableOf(cols[..|cols| - 1]), cols[|cols| - 1])
  }

  /** The hover text: every table line followed by a line break. */
  function Markdown(lines: seq<string>): string {
    if lines == [] then "" else Markdown(lines[..|lines| - 1]) + lines[|lines| - 1] + "\n"
  }

  /** The JavaScript `lines` array that `addColumn` fills in place. */
  class Table {
    var lines: seq<string>

    constructor ()
      ensures lines == []
    {
      lines := [];
    }

    /** `addColumn(lines, emphasizedLine, decValue, hexValue, binValue)`. */
    method AddColumn(emphasizedLine: Line, decValue: int, hexValue: int, binValue: int)
      requires |lines| == 0 || |lines| == 5
      modifies this
      ensures lines == WithColumn(old(lines), Column(emphasizedLine, decValue, hexValue, binValue))
    {
      ghost var c := Column(emphasizedLine, decValue, hexValue, binValue);
      if |lines| == 0 {
        lines := lines + ["| |"];
        lines := lines + ["|:--|"];
        lines := lines + ["|Decimal:|"];
        lines := lines + ["|Hex:|"];
        lines := lines + ["|Binary:|"];
      }
      ghost var t := lines;
      assert t == if old(lines) == [] then Header else old(lines);
      lines := lines[0 := lines[0] + " |"];
      lines := lines[1 := lines[1] + ":--|"];
      var cells := new string[3];
      cells[0] := RadixString(decValue, 10);
      cells[1] := ToUpper(RadixString(hexValue, 16));
      cells[2] := RadixString(binValue, 2);
      assert cells[..] == [RawCell(c, 0), RawCell(c, 1), RawCell(c, 2)];
      cells[emphasizedLine] := "**" + cells[emphasizedLine] + "**";
      assert cells[..] == [Cell(c, 0), Cell(c, 1), Cell(c, 2)];
      lines := lines[2 := lines[2] + cells[0] + "|"];
      lines := lines[3 := lines[3] + cells[1] + "|"];
      lines := lines[4 := lines[4] + cells[2] + "|"];
      assert lines == [t[0] + " |", t[1] + ":--|", t[2] + Cell(c, 0) + "|", t[3] + Cell(c, 1) + "|", t[4] + Cell(c, 2) + "|"];
    }
  }

  lemma TableOfSnoc(cols: seq<Column>, c: Column)
    ensures TableOf(cols + [c]) == WithColumn(TableOf(cols), c)
  {
    assert (cols + [c])[..|cols|] == cols;
  }

  /** The decimal section of `provideHover`: add the column, remember the value when a minus sign precedes the word. */
  method AddDecimal(table: Table, ghost cols: seq<Column>, hoveredWord: string, line: string)
    returns (negativeDecValue: Option<nat>)
    requires table.lines == TableOf(cols)
    modifies table
    ensures table.lines == TableOf(cols + DecimalColumns(hoveredWord))
    ensures negativeDecValue.Some? <==> IsDecimalWord(hoveredWord) && NegativeContext(line)
    ensures negativeDecValue.Some? ==> negativeDecValue.value == ParseDigits(hoveredWord, 10)
  {
    negativeDecValue := None;
    if IsDecimalWord(hoveredWord) {
      var value := ParseDigits(hoveredWord, 10);
      TableOfSnoc(cols, Column(0, value, value, value));
      table.AddColumn(0, value, value, value);
      if NegativeContext(line) {
        negativeDecValue := Some(value);
      }
    } else {
      assert cols + DecimalColumns(hoveredWord) == cols;
    }
  }

  /** The hexadecimal section: the four patterns in order, the column, and the signed candidate. */
  method AddHex(table: Table, ghost cols: seq<Column>, hoveredWord: string, noSignedValue: bool)
    returns (negativeHexValue: Option<nat>)
    requires table.lines == TableOf(cols)
    modifies table
    ensures table.lines == TableOf(cols + HexColumns(hoveredWord))
    ensures negativeHexValue.Some? <==> HexMatch(hoveredWord).Some? && SignedHexCandidate(HexMatch(hoveredWord).value, noSignedValue)
    ensures negativeHexValue.Some? ==> negativeHexValue.value == ParseDigits(HexMatch(hoveredWord).value, 16)
  {
    negativeHexValue := None;
    var found := MatchHex0x(hoveredWord);
    if found.None? {
      found := MatchHexDollar(hoveredWord);
    }
    if found.None? {
      found := MatchHexSuffix(hoveredWord);
    }
    if found.None? {
      found := MatchHexBare(hoveredWord);
    }
    assert found == HexMatch(hoveredWord);
    if found.Some? {
      var hexString := found.value;
      var value := ParseDigits(hexString, 16);
      TableOfSnoc(cols, Column(1, value, value, value));
      table.AddColumn(1, value, value, value);
      if !noSignedValue {
        var len := |hexString|;
        if hexString[0] >= '8' {
          if len == 2 || len == 4 || len == 8 {
            negativeHexValue := Some(value);
          }
        }
      }
    } else {
      assert cols + HexColumns(hoveredWord) == cols;
    }
  }

  /** The binary section: the two patterns in order and the column. */
  method AddBinary(table: Table, ghost cols: seq<Column>, hoveredWord: string)
    requires table.lines == TableOf(cols)
    modifies table
    ensures table.lines == TableOf(cols + BinaryColumns(hoveredWord))
  {
    var found := MatchBinSuffix(hoveredWord);
    if found.None? {
      found := MatchBin0b(hoveredWord);
    }
    assert found == BinMatch(hoveredWord);
    if found.Some? {
      var binString := found.value;
      var value := ParseDigits(binString, 2);
      TableOfSnoc(cols, Column(2, value, value, value));
      table.AddColumn(2, value, value, value);
    } else {
      assert cols + BinaryColumns(hoveredWord) == cols;
    }
  }

  /** The source's inline choice of `negValue`. */
  method ComputeNegValue(value: int) returns (negValue: int)
    ensures negValue == NegValue(value)
  {
    if value < 0x100 {
      negValue := 0x100 - value;
    } else if value < 0x10000 {
      negValue := 0x10000 - value;
    } else {
      negValue := 0x100000000 - value;
    }
  }

  /** The columns the two negative sections add for the values the earlier sections remembered. */
  function NegativeDecimalOf(negativeDecValue: Option<nat>): seq<Column> {
    match negativeDecValue
    case Some(v) => var x: int := v; [Column(0, -x, NegValue(x), NegValue(x))]
    case None => []
  }

  function NegativeHexOf(negativeHexValue: Option<nat>): seq<Column> {
    match negativeHexValue
    case Some(v) => [Column(1, -NegValue(v), v, v)]
    case None => []
  }

  lemma DecimalPending(w: string, line: string, negativeDecValue: Option<nat>)
    requires negativeDecValue.Some? <==> IsDecimalWord(w) && NegativeContext(line)
    requires negativeDecValue.Some? ==> negativeDecValue.value == ParseDigits(w, 10)
    ensures NegativeDecimalOf(negativeDecValue) == NegativeDecimalColumns(w, line)
  {
  }

  lemma HexPending(w: string, noSignedValue: bool, negativeHexValue: Option<nat>)
    requires negativeHexValue.Some? <==> HexMatch(w).Some? && SignedHexCandidate(HexMatch(w).value, noSignedValue)
    requires negativeHexValue.Some? ==> negativeHexValue.value == ParseDigits(HexMatch(w).value, 16)
    ensures NegativeHexOf(negativeHexValue) == NegativeHexColumns(w, noSignedValue)
  {
  }

  /** The negative decimal section. */
  method AddNegativeDecimal(table: Table, ghost cols: seq<Column>, negativeDecValue: Option<nat>)
    requires table.lines == TableOf(cols)
    modifies table
    ensures table.lines == TableOf(cols + NegativeDecimalOf(negativeDecValue))
  {
    if negativeDecValue.Some? {
      var value: int := negativeDecValue.value;
      var negValue := ComputeNegValue(value);
      TableOfSnoc(cols, Column(0, -value, negValue, negValue));
      table.AddColumn(0, -value, negValue, negValue);
    } else {
      assert cols + NegativeDecimalOf(negativeDecValue) == cols;
    }
  }

  /** The signed hexadecimal section. */
  method AddNegativeHex(table: Table, ghost cols: seq<Column>, negativeHexValue: Option<nat>)
    requires table.lines == TableOf(cols)
    modifies table
    ensures table.lines == TableOf(cols + NegativeHexOf(negativeHexValue))
  {
    if negativeHexValue.Some? {
      var value := negativeHexValue.value;
      var negValue := ComputeNegValue(value);
      TableOfSnoc(cols, Column(1, -negValue, value, value));
      table.AddColumn(1, -negValue, value, value);
    } else {
      assert cols + NegativeHexOf(negativeHexValue) == cols;
    }
  }

  /** The table the body of `provideHover` builds for a word and the text before it. */
  method Classify(word: string, line: string) returns (lines: seq<string>)
    ensures lines == TableOf(Columns(word, line))
  {
    var table := new Table();
    var ulMatch := SplitSuffix(word);
    var hoveredWord := ulMatch.word;
    var noSignedValue := HasUnsignedMarker(ulMatch.suffix);

    ghost var cols: seq<Column> := [];
    var negativeDecValue := AddDecimal(table, cols, hoveredWord, line);
    cols := cols + DecimalColumns(hoveredWord);
    var negativeHexValue := AddHex(table, cols, hoveredWord, noSignedValue);
    cols := cols + HexColumns(hoveredWord);
    AddBinary(table, cols, hoveredWord);
    cols := cols + BinaryColumns(hoveredWord);
    AddNegativeDecimal(table, cols, negativeDecValue);
    DecimalPending(hoveredWord, line, negativeDecValue);
    cols := cols + NegativeDecimalOf(negativeDecValue);
    AddNegativeHex(table, cols, negativeHexValue);
    HexPending(hoveredWord, noSignedValue, negativeHexValue);
    cols := cols + NegativeHexOf(negativeHexValue);
    assert cols == Columns(word, line);
    lines := table.lines;
  }

  /** `provideHover` for a word and the text before it on its line: no hover when no column was added. */
  method ProvideHover(word: string, line: string) returns (hover: Option<string>)
    ensures hover.None? <==> Columns(word, line) == []
    ensures hover.Some? ==> hover.value == Markdown(TableOf(Columns(word, line)))
  {
    var lines := Classify(word, line);
    if |lines| != 0 {
      var md := "";
      for i := 0 to 5
        invariant md == Markdown(lines[..i])
      {
        assert lines[..i + 1][..i] == lines[..i];
        md := md + lines[i] + "\n";
      }
      assert lines[..5] == lines;
      hover := Some(md);
    } else {
      hover := None;
    }
  }
}
