# Hex Hover Converter — a verified model of its two engines

The hex hover converter is a VS Code extension. When the mouse rests on a
number literal it shows that number in decimal, hexadecimal and binary. This
project models the two engines behind it in Dafny and proves what they
compute.

**The literal classifier** (`src/extension.ts`, module `Extension`) takes the
hovered word and the text before it on the line. It first splits a trailing
`u`/`l` run off the word. It then reads the rest as decimal, as hexadecimal
(`0x…`, `$…`, `…h`, then bare digits) and as binary (`…b`, `0b…`). Every
reading that succeeds adds one column to a five-line Markdown table.

Two readings add an extra column:

- A decimal word after a minus sign adds the negative value, with its 8-, 16-
  or 32-bit two's complement in the hex and binary cells.
- A hexadecimal group of 2, 4 or 8 digits with the top bit set adds its signed
  value, unless the suffix holds a `u`.

`addColumn` is the class `Extension.Table`, whose `lines` field the methods
update in place. Each section of `provideHover` is a method proved against
the specification function `Columns`. `Classify` covers lines 24-102 of
`provideHover`, the classification, and is proved to build exactly
`TableOf(Columns(word, line))`. `ProvideHover` adds lines 104-111, the
decision to show a hover and its Markdown text.

**The `Vars` formatter** (`src/vars.ts`, module `Conversions`) renders the
values through user templates:

- The decimal, hexadecimal and binary renderers are pure functions.
- `formatString` applies four passes, each modelled as a left-to-right scanner
  over the template:
  - `\n` expansion;
  - the dual-value shorthand `<p1{dec}p2>`;
  - `{name}` placeholders, with unknown names kept verbatim;
  - `<caption>` buttons.
- `Vars` is a class. It holds the source values, the conversions and the
  range. A shared `MsgCounter` object stands for the static `Vars.msgCounter`.

`ExtensionProperties` and `ConversionsProperties` hold the lemmas that relate
these definitions. Module `Text` holds what both engines share: digits,
`parseInt` on digit strings, `toString(radix)`, `toUpperCase`, trimming, and
`join`. Module `Wrappers` holds `Option`.

## Model

| member | source | states |
|---|---|---|
| Text.Digits | src/vars.ts:134 | the digits of a natural number in a radix, most significant first, with `a`-`f` for ten to fifteen |
| Text.RadixString | src/extension.ts:146-148 | `toString(radix)`: a `-` and the digits of the magnitude for a negative number, the digits alone otherwise |
| Text.ToUpper | src/extension.ts:147 | `toUpperCase`: every lower-case ASCII letter becomes its capital, every other character stays |
| Text.Trim | src/vars.ts:51 | `trim`: the whitespace cut from the end, then from the start |
| Text.Join | src/vars.ts:85 | `join(sep)`: the strings in order with `sep` between each two; empty for no strings |
| Text.ParseDigits | src/extension.ts:35 | `parseInt` of a digit string of the radix; the value is below radix^length |
| Text.DigitsCanonical | src/vars.ts:134 | `toString(radix)` of `n` is non-empty, all digits of the radix, reads back as `n`; it is `"0"` exactly for 0, has no leading zero otherwise, and has no upper-case letter |
| Text.DigitsOfParse | src/extension.ts:146 | a digit string with no leading zero and no upper-case letter is what `toString` gives back for its value |
| Text.ToUpperAt | src/extension.ts:147 | `toUpperCase` keeps the length and maps every character by itself |
| Text.ParseToUpper | src/vars.ts:158 | upper-casing a digit string keeps it a digit string of the same value |
| Text.ParseFirstDigit | src/extension.ts:55 | the leading digit weighs radix^(length-1) |
| Text.TrimEnd | src/extension.ts:38 | the result is a prefix; everything cut off is JavaScript `\s` whitespace; the result does not end in whitespace |
| Text.TrimStart | src/vars.ts:51 | the result is a suffix; everything cut off is whitespace; the result does not start with whitespace |
| Text.FirstIndexIn | src/vars.ts:83 | where a greedy negated character class stops: no class character before it, one at it unless at the end |
| Text.FirstIndexAt | src/vars.ts:89 | in `a + [c] + b` with no class character in `a` and `c` in the class, the scan stops at `c` |
| Extension.SplitSuffix | src/extension.ts:25-28 | the classified word is the longest prefix without a `u`/`l` letter, the suffix is the `u`/`l` run right after it, and the rest is dropped |
| Extension.HasUnsignedMarker | src/extension.ts:29 | the suffix holds a `u` in either case |
| Extension.IsDecimalWord | src/extension.ts:32 | the word is one or more decimal digits |
| Extension.NegativeContext | src/extension.ts:38 | the text before the word ends in a `-` followed by nothing but whitespace |
| Extension.SignedHexCandidate | src/extension.ts:58-63 | no `u` marker, exactly 2, 4 or 8 digits, and a first digit whose character code is at least that of `'8'` |
| Extension.Modulus | src/extension.ts:82-87 | 0x100 below 0x100, 0x10000 below 0x10000, 0x100000000 otherwise |
| Extension.NegValue | src/extension.ts:82-87 | `negValue`: the modulus minus the value |
| Extension.NonULRun | src/extension.ts:25 | the longest prefix without a `u`/`l` letter, in either case |
| Extension.ULRun | src/extension.ts:25 | the longest prefix made only of `u`/`l` letters |
| ExtensionProperties.SplitSuffixParts | src/extension.ts:25-28 | the split is the greedy match: the word has no `u`/`l` letter, the suffix has only those, and what is dropped is empty or follows a non-empty suffix |
| ExtensionProperties.SplitSuffixUnique | src/extension.ts:25-28 | every decomposition of that shape is the one the split returns |
| Extension.MatchHex0x | src/extension.ts:44 | `^0x([0-9a-fA-F]+)$`: a match yields a non-empty hexadecimal digit group |
| Extension.MatchHexDollar | src/extension.ts:46 | `^\$([0-9a-fA-F]+)$`: a match yields a non-empty hexadecimal digit group |
| Extension.MatchHexSuffix | src/extension.ts:48 | `^([0-9a-fA-F]+)h$`: a match yields a non-empty hexadecimal digit group |
| Extension.MatchHexBare | src/extension.ts:50 | `^([0-9a-fA-F]+)$`: a match yields a non-empty hexadecimal digit group |
| Extension.HexMatch | src/extension.ts:44-51 | the first hexadecimal pattern that matches, in source order, yields a hexadecimal digit group |
| Extension.MatchBinSuffix | src/extension.ts:68 | `^([01]+)b$`: a match yields a non-empty binary digit group |
| Extension.MatchBin0b | src/extension.ts:70 | `^0b([01]+)$`: a match yields a non-empty binary digit group |
| Extension.BinMatch | src/extension.ts:68-70 | the first binary pattern that matches yields a binary digit group |
| ExtensionProperties.HexPatternsExclusive | src/extension.ts:44-51 | no two of the four hexadecimal patterns match the same word |
| ExtensionProperties.HexMatchIsAnyMatch | src/extension.ts:44-52 | the chain yields whichever pattern matches, and nothing exactly when none does |
| ExtensionProperties.BinPatternsExclusive | src/extension.ts:68-71 | the two binary patterns never both match, so the chain yields whichever does |
| ExtensionProperties.DecimalIsAlsoHex | src/extension.ts:32-56 | every decimal word is also read as bare hexadecimal, with all its digits |
| ExtensionProperties.BinaryIsAlsoHex | src/extension.ts:44-75 | every word read as binary is also read as hexadecimal |
| ExtensionProperties.NoColumnIffNoHex | src/extension.ts:32-105 | the table is empty exactly when the word without its suffix matches no hexadecimal pattern |
| ExtensionProperties.NegativeContextIff | src/extension.ts:38-40 | `/-\s*$/` matches exactly when some `-` in the text is followed only by whitespace |
| ExtensionProperties.NegValueIsTwosComplement | src/extension.ts:79-89 | for 0 < v < 2^32 the modulus is the smallest of 2^8, 2^16, 2^32 above v, and `negValue` is the two's complement of -v, strictly between 0 and the modulus |
| ExtensionProperties.NegValueBeyond32Bits | src/extension.ts:82-87 | `negValue` is positive exactly below 2^32 |
| ExtensionProperties.SignedHexValue | src/extension.ts:58-101 | a signed candidate of n digits shows v - 16^n in its decimal cell, a negative number no smaller than -16^n/2 |
| ExtensionProperties.ExampleDecimal | src/extension.ts:32-56 | `42` gives a decimal column 42 and a hexadecimal column 0x42 = 66 |
| ExtensionProperties.ExampleNegativeDecimal | src/extension.ts:32-89 | `42` after `x = -` adds a third column of -42 with the 8-bit complement 214 |
| ExtensionProperties.ExampleNegativeZero | src/extension.ts:32-89 | `0` after a minus sign adds a negative decimal column that shows 0 with `negValue` 0x100 in the hex and binary cells |
| ExtensionProperties.ExampleUnsignedMarker | src/extension.ts:25-101 | `FF` gets a signed column of -1; `FFu` does not |
| Extension.TableOf | src/extension.ts:130-154 | the table is empty before the first column and has five lines after it |
| Extension.Table.constructor | src/extension.ts:22 | the table starts as the empty array |
| Extension.Table.AddColumn | src/extension.ts:130-154 | the lines become `WithColumn` of the old lines: created on first use, one marker and one cell per line, only the emphasized cell in `**` |
| ExtensionProperties.TableHeaderRows | src/extension.ts:132-144 | the two header lines hold one column marker per added column |
| ExtensionProperties.TableValueRow | src/extension.ts:142-153 | each value line is its header cell and then one cell per column, in the order added |
| ExtensionProperties.OnlyEmphasizedIsBold | src/extension.ts:150 | a cell starts with `**` exactly on the emphasized line |
| ExtensionProperties.HexCellUpperCase | src/extension.ts:147 | the hexadecimal cell has no lower-case letter |
| ExtensionProperties.CellsReadBack | src/extension.ts:146-148 | the three cells of a non-negative column are digit strings of radix 10, 16 and 2 that read back as its value |
| ExtensionProperties.DecimalCellIsWord | src/extension.ts:35-36 | a decimal word without a leading zero shows in its decimal cell exactly as written |
| ExtensionProperties.RadixStringShape | src/extension.ts:146-148 | `toString(radix)` is non-empty, starts with `-` exactly for negative numbers, and holds no `*`, so a cell's own characters never look like the bold markers |
| Extension.DecimalColumns | src/extension.ts:32-36 | for a decimal word, one column on the Decimal line with its base-10 value in all three cells; no column otherwise |
| Extension.HexColumns | src/extension.ts:43-56 | for a word that one of the four hexadecimal patterns matches, one column on the Hex line with the base-16 value of the first match's digits; no column otherwise |
| Extension.BinaryColumns | src/extension.ts:67-76 | for a word that one of the two binary patterns matches, one column on the Binary line with the base-2 value of the first match's digits; no column otherwise |
| Extension.NegativeDecimalColumns | src/extension.ts:79-89 | for a decimal word after a minus sign, one column on the Decimal line showing `-v` and `negValue` of `v` in the hex and binary cells |
| Extension.NegativeHexColumns | src/extension.ts:92-102 | for a signed hexadecimal candidate, one column on the Hex line showing `-negValue` and the unsigned value in the hex and binary cells |
| Extension.Columns | src/extension.ts:24-102 | the columns of the word without its suffix, in the order the source adds them: decimal, hexadecimal, binary, negative decimal, signed hexadecimal |
| Extension.RawCell | src/extension.ts:146-148 | the cell of a column on a line: base 10 of the decimal value, upper-case base 16 of the hex value, base 2 of the binary value |
| Extension.Cell | src/extension.ts:149-150 | the raw cell, wrapped in `**` on the emphasized line only |
| Extension.WithColumn | src/extension.ts:131-153 | starting from the five `Header` lines (the empty header row, the alignment row and the Decimal, Hex and Binary labels) when the table is empty, closes one more column on the two header lines and appends each cell and a closing bar to its value line |
| Extension.Markdown | src/extension.ts:108-109 | the lines in order, each followed by a line break |
| Extension.AddDecimal | src/extension.ts:32-41 | adds the decimal column; remembers the value exactly when the word is decimal and a minus sign precedes it |
| Extension.AddHex | src/extension.ts:44-65 | tries the four patterns in order and adds the hexadecimal column; remembers the value exactly for a signed candidate |
| Extension.AddBinary | src/extension.ts:68-76 | tries the two patterns in order and adds the binary column |
| Extension.ComputeNegValue | src/extension.ts:81-87 | the source's inline choice of `negValue` is `NegValue` |
| Extension.DecimalPending | src/extension.ts:79-89 | the remembered decimal value yields exactly the negative decimal column of the specification |
| Extension.HexPending | src/extension.ts:92-102 | the remembered hexadecimal value yields exactly the signed hexadecimal column of the specification |
| Extension.AddNegativeDecimal | src/extension.ts:79-89 | adds -v with `negValue` in the hex and binary cells when a value was remembered |
| Extension.AddNegativeHex | src/extension.ts:92-102 | adds -`negValue` with the unsigned value in the hex and binary cells when a value was remembered |
| Extension.Classify | src/extension.ts:24-102 | the lines built are `TableOf(Columns(word, line))`: decimal, hex, binary, negative decimal, negative hex, in that order |
| Extension.ProvideHover | src/extension.ts:104-111 | no hover exactly when no column was added; otherwise the five lines, each followed by a line break |
| Conversions.DecString | src/vars.ts:131-136 | `NA` for an undefined value, `toString()` of the value otherwise |
| Conversions.TwoDecStrings | src/vars.ts:142-150 | `['NA']` without `dec`; `dec` alone when `sDec` is undefined or equal to it; otherwise `dec` and then `sDec` |
| Conversions.PadZeros | src/vars.ts:162 | `padStart(n, '0')`: zeros in front up to `n` characters; a string that long already is unchanged |
| Conversions.HexWidth | src/vars.ts:161 | the least power of two that is at least 2 and at least the digit count |
| Conversions.HexString | src/vars.ts:155-164 | `NA` for an undefined value, otherwise the upper-case base-16 digits padded with zeros to the hexadecimal width |
| Conversions.BinWidth | src/vars.ts:171 | `8 * (floor((len - 1) / 8) + 1)` |
| Conversions.Grouped | src/vars.ts:173 | the digits with a `'` inserted before every block of 8 digits that a further positive multiple of 8 digits ends, counting from the right |
| Conversions.BinString | src/vars.ts:167-174 | `NA` for an undefined value; otherwise the base-2 digits padded to the binary width, `-` beyond 64 of them, grouped otherwise |
| Conversions.NotAvailable | src/vars.ts:131-169 | each renderer returns `NA` exactly for an undefined value |
| Conversions.RadixShape | src/vars.ts:134 | `toString()` gives a minus sign exactly for negative numbers, then digits that read back as the magnitude |
| Conversions.DecStringReadsBack | src/vars.ts:131-136 | the decimal rendering reads back as the value |
| Conversions.TwoDecStringsCases | src/vars.ts:142-150 | `['NA']` without `dec`; one string when `sDec` is undefined or equal; otherwise both, `dec` first, and they differ |
| Conversions.DecStringInjective | src/vars.ts:146-149 | different values render differently, so two strings are returned only for different values |
| Conversions.Zeros | src/vars.ts:162 | the padding `padStart` inserts: `k` zero characters |
| Conversions.FitMinimal | src/vars.ts:161 | doubling from a power of two `p` ends at a power of two that is at least `p` and the length, and below every other such power of two |
| Conversions.HexWidthMinimal | src/vars.ts:161 | the hexadecimal width is the least power of two that is at least 2 and at least the digit count |
| Conversions.HexStringPadding | src/vars.ts:158-163 | the hexadecimal rendering is leading zeros then the upper-case digits, padded to exactly that width |
| Conversions.PadToHexWidth | src/vars.ts:161-162 | padding to the hexadecimal width prefixes exactly the missing zeros |
| Conversions.HexStringValue | src/vars.ts:158-163 | the padded hexadecimal rendering is upper-case hexadecimal digits that read back as the value |
| Conversions.UpperDigits | src/vars.ts:158 | the upper-cased digits read back as the value |
| Conversions.PaddedDigits | src/vars.ts:162 | leading zeros keep a digit string's value |
| Conversions.ParseLeadingZeros | src/vars.ts:162 | a digit string with `k` zeros in front has the same value |
| Conversions.HexStringExample | src/vars.ts:155-164 | 10 renders as `0A` |
| Conversions.BinWidthMinimal | src/vars.ts:171 | the binary width is the smallest multiple of 8 that is at least the digit count |
| Conversions.GroupedShape | src/vars.ts:173 | on `m` whole bytes the grouping has `9m - 1` characters: `'` at every ninth place, the digits in order elsewhere |
| Conversions.GroupedAt | src/vars.ts:173 | the same, for one position |
| Conversions.GroupedLength | src/vars.ts:173 | the grouping of `m` bytes has `9m - 1` characters |
| Conversions.BinPadded | src/vars.ts:170-172 | the padded binary digits have a multiple of 8 digits, fewer than 8 of them added, and read back as the value |
| Conversions.BinStringDigits | src/vars.ts:167-174 | the padded digits are a multiple of 8, fewer than 8 of them added, and read back as the value; the rendering is `-` beyond 64 of them, and otherwise `n + n/8 - 1` characters: the padded digits in order with `'` at every ninth place |
| Conversions.BinGroupingShape | src/vars.ts:171-173 | the same shape for any non-empty digit string: `-` beyond 64 padded digits, the padded digits grouped by bytes otherwise |
| Conversions.GroupedBytes | src/vars.ts:173 | on whole bytes the grouping is the digits in order with `'` at every ninth place, `n + n/8 - 1` characters for `n` digits |
| Conversions.BinStringZero | src/vars.ts:167-174 | 0 renders as eight zeros |
| Conversions.BinStringTwoBytes | src/vars.ts:167-174 | 256 renders as `00000001'00000000` |
| Conversions.BinaryDigitCount | src/vars.ts:170 | a value has at most `k` binary digits exactly when it is below 2^k |
| Conversions.BinStringOverflow | src/vars.ts:173 | the binary rendering is `-` exactly for values from 2^64 on |
| Conversions.DualMatch | src/vars.ts:83 | the match of `/<([^<{]*)\{dec\}([^>]*)>/` at the start of the text: `p1` runs to the first `<` or `{`, which must begin `{dec}`, and `p2` to the first `>`; a match lies within the text |
| Conversions.DualMatchSound | src/vars.ts:83 | a match is the text `<p1{dec}p2>` at the start, with no `<` or `{` in `p1` and no `>` in `p2` (the converse of ConversionsProperties.DualMatchAt) |
| Conversions.Bracketed | src/vars.ts:89 | a match of `/{([^}]*)}/` or `/<([^>]*)>/` at the start of the text is the opening character, the inner text and the closing character, with no closing character inside |
| Conversions.NewRange | src/vars.ts:37-42 | `new vscode.Range`: nothing (the constructor throws) exactly when a coordinate is negative; otherwise a valid range made of the two positions, swapped when the first lies after the second |
| Conversions.MsgCounter.constructor | src/vars.ts:8 | the static counter starts at 0 |
| Conversions.Vars.constructor | src/vars.ts:29-33 | stores the document and range, leaves every value undefined, and raises the shared counter by exactly 1 |
| Conversions.Vars.FixRangeStart | src/vars.ts:36-43 | the range becomes `NewRange` of the old coordinates with the start character moved by the offset; `thrown` is set, and the range kept, exactly when that throws; a valid range stays valid |
| ConversionsProperties.FixRangeCases | src/vars.ts:36-43 | on a valid range: it throws exactly when the moved start character is negative; otherwise only the start character moves, unless the start then lies after the end, in which case the two positions swap |
| Conversions.FormatText | src/vars.ts:76-126 | `''` for an empty template; otherwise the four passes in order, the second using the decimal strings of `dec` and `sDec` |
| Conversions.Truthy | src/vars.ts:50 | a bigint is truthy when it is defined and not zero |
| Conversions.Section | src/vars.ts:50-53 | for a truthy source, the trimmed template formatted and followed by a line break; nothing otherwise |
| Conversions.Vars.FormatString | src/vars.ts:76-126 | the result is `FormatText`: empty for an empty template, otherwise the four passes, every button with the current counter, document and range |
| Conversions.Vars.ToString | src/vars.ts:47-67 | the sections of decimal, signed decimal, hexadecimal and binary, in that order, each with the slots the source passes |
| Conversions.Vars.AppendSection | src/vars.ts:50-53 | one step appends the section for a truthy source and nothing otherwise |
| ConversionsProperties.SectionShape | src/vars.ts:50-65 | a section is empty exactly when its source is undefined or zero, and otherwise ends in a line break |
| Conversions.ExpandNewlines | src/vars.ts:80 | the first pass, left to right: each backslash followed by `n` becomes a line break, every other character is copied |
| ConversionsProperties.ExpandNewlinesComplete | src/vars.ts:80 | no backslash followed by `n` survives the expansion |
| ConversionsProperties.ExpandNewlinesPlain | src/vars.ts:80 | a template without a backslash is unchanged |
| ConversionsProperties.ExpandNewlinesAppend | src/vars.ts:80 | the expansion distributes over a concatenation when no pair straddles the seam |
| ConversionsProperties.ExpandNewlinesAt | src/vars.ts:80 | every `\n` pair becomes exactly one line break, wherever it stands |
| ConversionsProperties.DualMatchAt | src/vars.ts:83 | `<p1{dec}p2>` with no `<` or `{` in p1 and no `>` in p2 is matched with exactly these parts |
| ConversionsProperties.DualOpening | src/vars.ts:83 | the prefix class stops right before `{dec}` |
| ConversionsProperties.DualClosing | src/vars.ts:83 | the suffix class stops right before the closing `>` |
| ConversionsProperties.DualPassStep | src/vars.ts:83-86 | the second pass expands a shorthand and continues right after it |
| ConversionsProperties.DualPassPlain | src/vars.ts:83 | a template without `<` is unchanged by the second pass |
| ConversionsProperties.DualExpandValues | src/vars.ts:85 | one value gives `<p1 v p2>`; two give two of them separated by `", "` |
| ConversionsProperties.DualTemplatePass | src/vars.ts:80-86 | for parts `p1` and `p2` without a backslash, `<`, `>`, `{` or `}`, the first two passes turn the template `<p1{dec}p2>` into the expansion of that shorthand |
| ConversionsProperties.DualSingleText | src/vars.ts:83-86 | for parts `p1` and `p2` without a backslash, `<`, `>`, `{` or `}`, with one value the shorthand becomes `<p1 v p2>` |
| ConversionsProperties.DualPairText | src/vars.ts:83-86 | for parts `p1` and `p2` without a backslash, `<`, `>`, `{` or `}`, with two values the shorthand becomes `<p1 x p2>, <p1 y p2>` |
| Conversions.DualExpand | src/vars.ts:85 | `'<' + p1 + vals.join(p2 + '>, <' + p1) + p2 + '>'` for the parts of a match and the decimal strings |
| Conversions.DualPass | src/vars.ts:83-86 | the second pass, left to right: each dual-value match is replaced by its expansion and the scan resumes after it; every other character is copied |
| Conversions.Substitute | src/vars.ts:90-108 | `dec` gives the decimal strings joined by `", "`, `decu` and `deci` the decimal of `dec` and `sDec`, `hex` and `bin` their renderings; any other name gives `{name}` back |
| Conversions.PlaceholderPass | src/vars.ts:89-109 | the third pass, left to right: each `{name}` is replaced by its substitution and the scan resumes after the `}`; every other character is copied |
| ConversionsProperties.BracketedAt | src/vars.ts:89 | `{inner}` with no closing brace inside is matched with exactly `inner` |
| ConversionsProperties.PlaceholderStep | src/vars.ts:89-109 | the third pass replaces `{name}` and continues after the closing brace |
| ConversionsProperties.SubstituteKeepsUnknown | src/vars.ts:92-107 | a replacement is never empty, and it is the placeholder `{name}` itself exactly when the name is not one of the five known names |
| ConversionsProperties.PlaceholderVerbatim | src/vars.ts:89-109 | a text whose every `{…}` holds an unknown name is unchanged by the third pass |
| ConversionsProperties.PlaceholderPlain | src/vars.ts:89 | a text without `{` is unchanged by the third pass |
| Conversions.Link | src/vars.ts:121 | the Markdown command link `[caption](command:hexHover._replace?args "Replace hovered value with caption")` |
| Conversions.ButtonPass | src/vars.ts:111-123 | the fourth pass, left to right: each `<caption>` becomes the link of that caption and the payload of the counter, caption, document and range, and the scan resumes after the `>`; every other character is copied |
| ConversionsProperties.ButtonStep | src/vars.ts:111-122 | `<text>` becomes a link whose payload holds the counter of the call, and the pass continues after `>` |
| ConversionsProperties.ButtonSingle | src/vars.ts:111-122 | `<y>` alone becomes one link |
| ConversionsProperties.ButtonPair | src/vars.ts:111-122 | `<x>, <y>` becomes two links joined by `", "`, both with the same counter |
| ConversionsProperties.ButtonPlain | src/vars.ts:111 | a text without `<` is unchanged by the fourth pass |
| ConversionsProperties.DecStringPlain | src/vars.ts:134 | a decimal rendering holds no `<`, `>` or `{` |
| ConversionsProperties.CaptionPlain | src/vars.ts:83-111 | a decimal between a prefix and a suffix with no backslash, `<`, `>`, `{` or `}` holds no `{` or `>`, is unchanged by the third pass, and is exactly the caption the fourth pass reads from `<…>` |
| ConversionsProperties.FormatThrough | src/vars.ts:89-111 | when the first two passes leave no `{`, the result is the buttons of that text |
| ConversionsProperties.FormatEmptyIff | src/vars.ts:77-126 | the result is empty exactly when the template is empty |
| ConversionsProperties.FormatHexExample | src/vars.ts:76-126 | `{hex}` with 10 formats to `0A` |
| ConversionsProperties.FormatDualSingle | src/vars.ts:83-122 | for parts `p1` and `p2` without a backslash, `<`, `>`, `{` or `}`, `<p1{dec}p2>` with one decimal (no signed value, or an equal one) gives one button reading `p1 v p2` |
| ConversionsProperties.FormatDualPair | src/vars.ts:83-122 | for parts `p1` and `p2` without a backslash, `<`, `>`, `{` or `}`, `<p1{dec}p2>` with two different decimals gives two buttons, unsigned first, joined by `", "`, both with the counter of the call |

## Left out

- The VS Code host is not modelled: `activate`, `deactivate`, the hover provider registration, `getWordRangeAtPosition` with its word regex, `Hover`, `MarkdownString` and the subscriptions. The hovered word and the text before it are plain string parameters.
- Extension.ProvideHover returns the Markdown text that the five `appendMarkdown` calls produce. It does not return a `Hover` object.
- `config.get` in `toString` is replaced by the `Templates` parameter, which holds the four template strings.
- Vars.ToString does not model `config.get`'s default: a missing template is simply an empty string in `Templates`.
- The button payload is left out. `encodeURIComponent(JSON.stringify(…))` becomes the function parameter `payload` of (counter, caption, document URI, range). The document is represented by its URI string.
- Conversions.HexWidth: `Math.log2` and `Math.ceil` are floating point. They are replaced by the exact integer search for the least power of two, which agrees for every digit count a string can have.
- Text.ParseDigits: JavaScript `number` precision is not modelled; `parseInt` results are unbounded integers. Above 2^53 the source shows a rounded value. From 10^21 on, `toString()` in the decimal cell switches to exponent notation (`1e+21`). A digit group of more than about 309 decimal, 256 hexadecimal or 1024 binary digits parses to `Infinity`; the cells then read `Infinity` (`INFINITY` in the hex cell), with a leading `-` in a negative column. The model shows the exact digits in all these cases.
- Conversions.HexString and Conversions.BinString take non-negative values only. The hex and binary slots are typed `nat`, so the rendering of a negative bigint by `toString(16)` or `toString(2)` is not modelled.
- Conversions.NewRange follows the documented behaviour of `vscode.Range`: it throws on a negative coordinate and puts the earlier position first. The VS Code source is not part of this model, and the error is a `thrown` result here rather than an exception.
- Text.ToUpper maps only ASCII letters, the only letters a rendered number contains.
- The bigint comparison `dec === sDec` is value equality on the model's integers.
- src/extension.ts and src/vars.ts contain no Verilog-style based literals, no strict or permissive recognition toggles, no underscore grouping, no tracker of replacement lengths and no signed reading of binary literals, so nothing here models them. The handler of the `hexHover._replace` command, which receives the button payload, is not part of this model. In these two files the only state kept between calls is the static message counter.
- Points where the code behaves in ways a reader might not expect, all modelled as written:
  - The code accepts `$…` as a hexadecimal form. A word of hexadecimal digits alone, with no prefix or suffix, is also read as hexadecimal (src/extension.ts:50); no setting turns this off.
  - A negative decimal uses only 8, 16 or 32 bits. `negValue` turns non-positive from 2^32 on, as ExtensionProperties.NegValueBeyond32Bits shows.
  - A `0` after a minus sign gives `negValue` 0x100, not 0, as ExtensionProperties.ExampleNegativeZero shows.
  - A signed hexadecimal column needs exactly 2, 4 or 8 digits. The top-bit test compares the character code with `'8'`, so every letter passes it.
  - Sections of `toString` are each followed by one `"\n"`. They are not separated by blank lines.
