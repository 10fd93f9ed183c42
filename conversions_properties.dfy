/**
 * What the passes of `formatString` in src/vars.ts do to a template: each
 * pass rewrites exactly the matches of its regular expression, left to
 * right, and leaves a template without the opening character unchanged.
 */
module ConversionsProperties {
  import opened Wrappers
  import opened Text
  import opened Conversions

  // ---------------------------------------------------------------------
  // `\n` expansion

  /** The first character of the expansion: a line break for a leading `\n` pair, otherwise the first character. */
  lemma ExpandNewlinesHead(t: string)
    requires t != []
    ensures ExpandNewlines(t) != []
    ensures ExpandNewlines(t)[0] == if |t| >= 2 && t[0] == '\\' && t[1] == 'n' then '\n' else t[0]
  {
  }

  /** No backslash followed by `n` survives the expansion. */
  lemma {:induction false} ExpandNewlinesComplete(s: string)
    ensures NoEscapedNewline(ExpandNewlines(s))
    decreases |s|
  {
    if s != [] {
      var r := ExpandNewlines(s);
      if |s| >= 2 && s[0] == '\\' && s[1] == 'n' {
        ExpandNewlinesComplete(s[2..]);
        assert r == "\n" + ExpandNewlines(s[2..]);
        assert forall i :: 1 <= i < |r| ==> r[i] == ExpandNewlines(s[2..])[i - 1];
      } else {
        var tail := ExpandNewlines(s[1..]);
        ExpandNewlinesComplete(s[1..]);
        assert r == [s[0]] + tail;
        assert forall i :: 1 <= i < |r| ==> r[i] == tail[i - 1];
        if |s| >= 2 {
          ExpandNewlinesHead(s[1..]);
          assert r[1] == tail[0];
        }
      }
    }
  }

  /** A template without a backslash is not changed by the expansion. */
  lemma {:induction false} ExpandNewlinesPlain(s: string)
    requires '\\' !in s
    ensures ExpandNewlines(s) == s
    decreases |s|
  {
    if s != [] {
      assert s[1..] == s[1..];
      assert '\\' !in s[1..];
      ExpandNewlinesPlain(s[1..]);
      assert s == [s[0]] + s[1..];
    }
  }

  /** Expansion of a concatenation is the concatenation of the expansions when no `\n` pair straddles the seam. */
  lemma {:induction false} ExpandNewlinesAppend(a: string, b: string)
    requires a == [] || b == [] || a[|a| - 1] != '\\' || b[0] != 'n'
    ensures ExpandNewlines(a + b) == ExpandNewlines(a) + ExpandNewlines(b)
    decreases |a|
  {
    if a != [] {
      var s := a + b;
      if |a| >= 2 && a[0] == '\\' && a[1] == 'n' {
        assert s[2..] == a[2..] + b;
        ExpandNewlinesAppend(a[2..], b);
        assert ExpandNewlines(s) == "\n" + ExpandNewlines(a[2..] + b);
        assert ExpandNewlines(a) == "\n" + ExpandNewlines(a[2..]);
      } else if |a| == 1 {
        assert s[1..] == b;
        assert !(|s| >= 2 && s[0] == '\\' && s[1] == 'n');
        assert ExpandNewlines(s) == [a[0]] + ExpandNewlines(b);
        assert ExpandNewlines(a) == [a[0]] + ExpandNewlines([]);
      } else {
        assert s[1..] == a[1..] + b;
        assert s[0] == a[0] && s[1] == a[1];
        ExpandNewlinesAppend(a[1..], b);
        assert ExpandNewlines(s) == [a[0]] + ExpandNewlines(a[1..] + b);
        assert ExpandNewlines(a) == [a[0]] + ExpandNewlines(a[1..]);
      }
    } else {
      assert a + b == b;
    }
  }

  /** Every `\n` pair of the template turns into one line break, wherever it stands. */
  lemma {:induction false} ExpandNewlinesAt(a: string, b: string)
    ensures ExpandNewlines(a + "\\n" + b) == ExpandNewlines(a) + "\n" + ExpandNewlines(b)
  {
    ExpandNewlinesAppend(a, "\\n" + b);
    assert a + "\\n" + b == a + ("\\n" + b);
    assert ("\\n" + b)[2..] == b;
  }

  // ---------------------------------------------------------------------
  // The dual-value shorthand

  /** The shorthand `<p1{dec}p2>`, with no `<` or `{` in `p1` and no `>` in `p2`, is recognised with exactly these parts. */
  lemma {:induction false} DualMatchAt(p1: string, p2: string, rest: string)
    requires '<' !in p1 && '{' !in p1 && '>' !in p2
    ensures DualMatch("<" + p1 + "{dec}" + p2 + ">" + rest) == Some(DualHit(p1, p2))
  {
    var s := "<" + p1 + "{dec}" + p2 + ">" + rest;
    var a := 1 + |p1|;
    DualOpening(p1, p2, rest);
    DualClosing(p1, p2, rest);
    assert s[1..a] == p1;
    assert s[a + 5..a + 5 + |p2|] == p2;
  }

  lemma DualOpening(p1: string, p2: string, rest: string)
    requires '<' !in p1 && '{' !in p1
    ensures var s := "<" + p1 + "{dec}" + p2 + ">" + rest;
      FirstIndexIn(s[1..], {'<', '{'}) == |p1| && s[1 + |p1|..1 + |p1| + 5] == "{dec}"
  {
    var s := "<" + p1 + "{dec}" + p2 + ">" + rest;
    var after := p2 + ">" + rest;
    var tail := "dec}" + after;
    assert s == "<" + p1 + "{dec}" + after;
    assert s[1..] == p1 + ['{'] + tail;
    FirstIndexAt(p1, '{', tail, {'<', '{'});
    assert s[1 + |p1|..1 + |p1| + 5] == "{dec}" by {
      assert forall i :: 0 <= i < 5 ==> s[1 + |p1| + i] == "{dec}"[i];
    }
  }

  lemma DualClosing(p1: string, p2: string, rest: string)
    requires '>' !in p2
    ensures var s := "<" + p1 + "{dec}" + p2 + ">" + rest;
      FirstIndexIn(s[1 + |p1| + 5..], {'>'}) == |p2|
  {
    var s := "<" + p1 + "{dec}" + p2 + ">" + rest;
    assert s[1 + |p1| + 5..] == p2 + ['>'] + rest;
    FirstIndexAt(p2, '>', rest, {'>'});
  }

  /** The second pass expands a shorthand and continues right after it. */
  lemma {:induction false} DualPassStep(p1: string, p2: string, rest: string, vals: seq<string>)
    requires '<' !in p1 && '{' !in p1 && '>' !in p2
    ensures DualPass("<" + p1 + "{dec}" + p2 + ">" + rest, vals) == DualExpand(DualHit(p1, p2), vals) + DualPass(rest, vals)
  {
    var s := "<" + p1 + "{dec}" + p2 + ">" + rest;
    DualMatchAt(p1, p2, rest);
    assert s[DualLength(DualHit(p1, p2))..] == rest;
  }

  /** A template without `<` is not changed by the second pass. */
  lemma {:induction false} DualPassPlain(s: string, vals: seq<string>)
    requires '<' !in s
    ensures DualPass(s, vals) == s
    decreases |s|
  {
    if s != [] {
      assert '<' !in s[1..];
      DualPassPlain(s[1..], vals);
      assert s == [s[0]] + s[1..];
    }
  }

  /** One value gives one `<p1 v p2>`; two values give two of them separated by `", "`. */
  lemma DualExpandValues(h: DualHit, v: string, w: string)
    ensures DualExpand(h, [v]) == "<" + h.p1 + v + h.p2 + ">"
    ensures DualExpand(h, [v, w]) == "<" + h.p1 + v + h.p2 + ">, <" + h.p1 + w + h.p2 + ">"
  {
    assert Join([v, w], h.p2 + ">, <" + h.p1) == v + (h.p2 + ">, <" + h.p1) + w by {
      assert [v, w][1..] == [w];
    }
  }

  // ---------------------------------------------------------------------
  // Placeholders and buttons

  /** `open inner close` with no `close` inside is matched with exactly that inner text. */
  lemma {:induction false} BracketedAt(inner: string, rest: string, open: char, close: char)
    requires close !in inner
    ensures Bracketed([open] + inner + [close] + rest, open, close) == Some(inner)
  {
    var s := [open] + inner + [close] + rest;
    assert s[1..] == inner + [close] + rest;
    FirstIndexAt(inner, close, rest, {close});
    assert s[1..1 + |inner|] == inner;
  }

  /** The third pass replaces `{name}` and continues after the closing brace. */
  lemma {:induction false} PlaceholderStep(name: string, rest: string, v: Slots)
    requires '}' !in name
    ensures PlaceholderPass("{" + name + "}" + rest, v) == Substitute(name, v) + PlaceholderPass(rest, v)
  {
    var s := "{" + name + "}" + rest;
    assert s == ['{'] + name + ['}'] + rest;
    BracketedAt(name, rest, '{', '}');
    assert s[|name| + 2..] == rest;
  }

  /** The five names map to their renderers, `{dec}` joining its values with `", "`; any other name is kept with its braces. */
  lemma SubstituteNames(name: string, v: Slots)
    ensures name == "dec" ==> Substitute(name, v) == Join(TwoDecStrings(v.dec, v.sDec), ", ")
    ensures name == "decu" ==> Substitute(name, v) == DecString(v.dec)
    ensures name == "deci" ==> Substitute(name, v) == DecString(v.sDec)
    ensures name == "hex" ==> Substitute(name, v) == HexString(v.hex)
    ensures name == "bin" ==> Substitute(name, v) == BinString(v.bin)
    ensures name !in {"dec", "decu", "deci", "hex", "bin"} ==> Substitute(name, v) == "{" + name + "}"
  {
  }

  /** A template without `{` is not changed by the third pass. */
  lemma {:induction false} PlaceholderPlain(s: string, v: Slots)
    requires '{' !in s
    ensures PlaceholderPass(s, v) == s
    decreases |s|
  {
    if s != [] {
      assert '{' !in s[1..];
      PlaceholderPlain(s[1..], v);
      assert s == [s[0]] + s[1..];
    }
  }

  /** The five names the third pass replaces. */
  predicate KnownName(name: string) {
    name == "dec" || name == "decu" || name == "deci" || name == "hex" || name == "bin"
  }

  /** A decimal rendering starts with `N`, a sign or a digit. */
  lemma DecStringHead(x: Option<int>)
    ensures DecString(x) != [] && DecString(x)[0] != '{'
  {
    if x.Some? {
      RadixShape(x.value, 10);
    }
  }

  /** A joined list starts with its first element. */
  lemma JoinHead(xs: seq<string>, sep: string)
    requires |xs| >= 1 && xs[0] != []
    ensures Join(xs, sep) != [] && Join(xs, sep)[0] == xs[0][0]
  {
  }

  /** The hexadecimal and binary renderings start with `N`, `-` or a digit. */
  lemma RadixStringsHead(x: Option<nat>)
    ensures HexString(x) != [] && HexString(x)[0] != '{'
    ensures BinString(x) != [] && BinString(x)[0] != '{'
  {
    if x.Some? {
      HexStringValue(x.value);
      HexStringPadding(x.value);
      BinStringDigits(x.value);
    }
  }

  /** A replacement is never empty, and it is the placeholder itself exactly when the name is unknown. */
  lemma {:induction false} SubstituteKeepsUnknown(name: string, v: Slots)
    ensures Substitute(name, v) != []
    ensures Substitute(name, v) == "{" + name + "}" <==> !KnownName(name)
  {
    SubstituteNames(name, v);
    var r := Substitute(name, v);
    if name == "dec" {
      var ds := TwoDecStrings(v.dec, v.sDec);
      DecStringHead(v.dec);
      JoinHead(ds, ", ");
    } else if name == "decu" || name == "deci" {
      DecStringHead(v.dec);
      DecStringHead(v.sDec);
    } else if name == "hex" || name == "bin" {
      RadixStringsHead(v.hex);
      RadixStringsHead(v.bin);
    }
    assert KnownName(name) ==> r[0] != '{';
  }

  /** Every pair of braces in the text encloses a name the third pass does not know. */
  predicate OnlyUnknownNames(s: string) {
    forall i :: 0 <= i < |s| && Bracketed(s[i..], '{', '}').Some? ==> !KnownName(Bracketed(s[i..], '{', '}').value)
  }

  lemma OnlyUnknownNamesSuffix(s: string, k: nat)
    requires k <= |s| && OnlyUnknownNames(s)
    ensures OnlyUnknownNames(s[k..])
  {
    var t := s[k..];
    forall i | 0 <= i < |t|
      ensures t[i..] == s[k + i..]
    {
    }
  }

  /** The third pass keeps a text verbatim when every placeholder in it has an unknown name. */
  lemma {:induction false} PlaceholderVerbatim(s: string, v: Slots)
    requires OnlyUnknownNames(s)
    ensures PlaceholderPass(s, v) == s
    decreases |s|
  {
    if s != [] {
      assert s[0..] == s;
      match Bracketed(s, '{', '}')
      case Some(name) =>
        var k := |name| + 2;
        SubstituteKeepsUnknown(name, v);
        OnlyUnknownNamesSuffix(s, k);
        PlaceholderVerbatim(s[k..], v);
        assert s == s[..k] + s[k..];
      case None =>
        OnlyUnknownNamesSuffix(s, 1);
        PlaceholderVerbatim(s[1..], v);
        assert s == [s[0]] + s[1..];
    }
  }

  /** The fourth pass turns `<text>` into a link whose payload carries the one counter of the call, and continues after `>`. */
  lemma {:induction false} ButtonStep(text: string, rest: string, counter: nat, uri: string, range: Range,
                                      payload: (nat, string, string, Range) -> string)
    requires '>' !in text
    ensures ButtonPass("<" + text + ">" + rest, counter, uri, range, payload)
         == Link(text, payload(counter, text, uri, range)) + ButtonPass(rest, counter, uri, range, payload)
  {
    var s := "<" + text + ">" + rest;
    assert s == ['<'] + text + ['>'] + rest;
    BracketedAt(text, rest, '<', '>');
    assert s[|text| + 2..] == rest;
  }

  /** A template without `<` is not changed by the fourth pass. */
  lemma {:induction false} ButtonPlain(s: string, counter: nat, uri: string, range: Range,
                                       payload: (nat, string, string, Range) -> string)
    requires '<' !in s
    ensures ButtonPass(s, counter, uri, range, payload) == s
    decreases |s|
  {
    if s != [] {
      assert '<' !in s[1..];
      ButtonPlain(s[1..], counter, uri, range, payload);
      assert s == [s[0]] + s[1..];
    }
  }

  // ---------------------------------------------------------------------
  // Whole templates

  lemma DualPassNonEmpty(s: string, vals: seq<string>)
    requires s != []
    ensures DualPass(s, vals) != []
  {
  }

  lemma PlaceholderPassNonEmpty(s: string, v: Slots)
    requires s != []
    ensures PlaceholderPass(s, v) != []
  {
    match Bracketed(s, '{', '}')
    case Some(name) => SubstituteKeepsUnknown(name, v);
    case None =>
  }

  lemma ButtonPassNonEmpty(s: string, counter: nat, uri: string, range: Range, payload: (nat, string, string, Range) -> string)
    requires s != []
    ensures ButtonPass(s, counter, uri, range, payload) != []
  {
  }

  /** `formatString` returns the empty string exactly for an empty template: no pass turns a text into nothing. */
  lemma {:induction false} FormatEmptyIff(format: string, v: Slots, counter: nat, uri: string, range: Range,
                                          payload: (nat, string, string, Range) -> string)
    ensures FormatText(format, v, counter, uri, range, payload) == "" <==> format == ""
  {
    if format != "" {
      var expanded := ExpandNewlines(format);
      ExpandNewlinesHead(format);
      var dual := DualPass(expanded, TwoDecStrings(v.dec, v.sDec));
      DualPassNonEmpty(expanded, TwoDecStrings(v.dec, v.sDec));
      var named := PlaceholderPass(dual, v);
      PlaceholderPassNonEmpty(dual, v);
      ButtonPassNonEmpty(named, counter, uri, range, payload);
    }
  }

  /** `{hex}` with the value 10 formats to `0A`. */
  lemma {:induction false} FormatHexExample(counter: nat, uri: string, range: Range, payload: (nat, string, string, Range) -> string)
    ensures FormatText("{hex}", Slots(None, None, Some(10), None), counter, uri, range, payload) == "0A"
  {
    var v := Slots(None, None, Some(10), None);
    ExpandNewlinesPlain("{hex}");
    DualPassPlain("{hex}", TwoDecStrings(None, None));
    PlaceholderStep("hex", "", v);
    assert "{" + "hex" + "}" + "" == "{hex}";
    HexStringExample();
    assert PlaceholderPass("", v) == "";
    assert PlaceholderPass("{hex}", v) == "0A";
    ButtonPlain("0A", counter, uri, range, payload);
  }

  /** A decimal rendering holds none of the characters the passes look for. */
  lemma DecStringPlain(v: int)
    ensures var x := DecString(Some(v)); '<' !in x && '>' !in x && '{' !in x
  {
    var x := DecString(Some(v));
    DecStringReadsBack(v);
    forall i | 0 <= i < |x|
      ensures x[i] == '-' || '0' <= x[i] <= '9'
    {
      if v < 0 && i > 0 {
        assert x[i] == x[1..][i - 1];
      }
    }
  }

  /** A prefix or suffix of the shorthand that none of the passes reacts to. */
  predicate Inert(p: string) {
    '\\' !in p && '<' !in p && '>' !in p && '{' !in p && '}' !in p
  }

  /** The template `<p1{dec}p2>` is one shorthand: the first two passes give one `<p1 v p2>` per value. */
  lemma {:induction false} DualTemplatePass(p1: string, p2: string, vals: seq<string>)
    requires Inert(p1) && Inert(p2)
    ensures DualPass(ExpandNewlines("<" + p1 + "{dec}" + p2 + ">"), vals) == DualExpand(DualHit(p1, p2), vals)
  {
    var t := "<" + p1 + "{dec}" + p2 + ">";
    assert '\\' !in t;
    ExpandNewlinesPlain(t);
    assert t + "" == t;
    DualPassStep(p1, p2, "", vals);
    assert DualPass("", vals) == "";
  }

  /**
   * A decimal rendering between two inert strings is left alone by the third
   * pass, and the fourth pass takes all of it as the caption of `<c>`.
   */
  lemma CaptionPlain(p1: string, v: int, p2: string, slots: Slots, rest: string)
    requires Inert(p1) && Inert(p2)
    ensures var c := p1 + DecString(Some(v)) + p2;
      && '{' !in c && '>' !in c
      && PlaceholderPass(c, slots) == c
      && Bracketed("<" + c + ">" + rest, '<', '>') == Some(c)
  {
    var c := p1 + DecString(Some(v)) + p2;
    DecStringPlain(v);
    PlaceholderPlain(c, slots);
    BracketedAt(c, rest, '<', '>');
    assert "<" + c + ">" + rest == ['<'] + c + ['>'] + rest;
  }

  /** The fourth pass on `<x>, <y>` gives two buttons joined by `", "`, both with the counter of the call. */
  lemma {:induction false} ButtonPair(x: string, y: string, counter: nat, uri: string, range: Range,
                                      payload: (nat, string, string, Range) -> string)
    requires '>' !in x && '>' !in y
    ensures ButtonPass("<" + x + ">, <" + y + ">", counter, uri, range, payload)
         == Link(x, payload(counter, x, uri, range)) + ", " + Link(y, payload(counter, y, uri, range))
  {
    var second := "<" + y + ">";
    var l2 := Link(y, payload(counter, y, uri, range));
    SplitPair(x, y);
    ButtonStep(x, ", " + second, counter, uri, range, payload);
    ButtonComma(second, counter, uri, range, payload);
    ButtonSingle(y, counter, uri, range, payload);
  }

  /** The separator `", "` is copied by the fourth pass. */
  lemma ButtonComma(rest: string, counter: nat, uri: string, range: Range, payload: (nat, string, string, Range) -> string)
    ensures ButtonPass(", " + rest, counter, uri, range, payload) == ", " + ButtonPass(rest, counter, uri, range, payload)
  {
    var t := [' '] + rest;
    ButtonSkip(' ', rest, counter, uri, range, payload);
    ButtonSkip(',', t, counter, uri, range, payload);
    CommaSpace(rest);
    CommaSpace(ButtonPass(rest, counter, uri, range, payload));
  }

  lemma CommaSpace(r: string)
    ensures ", " + r == [','] + ([' '] + r)
  {
  }

  lemma SplitPair(x: string, y: string)
    ensures "<" + x + ">, <" + y + ">" == "<" + x + ">" + (", " + ("<" + y + ">"))
  {
    assert ">, <" == ">" + ", " + "<";
    RegroupSeparator("<", x, ">", ", ", "<", y, ">");
  }

  lemma RegroupSeparator(a: string, x: string, m1: string, m2: string, m3: string, y: string, z: string)
    ensures a + x + (m1 + m2 + m3) + y + z == a + x + m1 + (m2 + (m3 + y + z))
  {
  }

  /** `<y>` alone is one button. */
  lemma ButtonSingle(y: string, counter: nat, uri: string, range: Range, payload: (nat, string, string, Range) -> string)
    requires '>' !in y
    ensures ButtonPass("<" + y + ">", counter, uri, range, payload) == Link(y, payload(counter, y, uri, range))
  {
    assert "<" + y + ">" == "<" + y + ">" + "";
    ButtonStep(y, "", counter, uri, range, payload);
    assert ButtonPass("", counter, uri, range, payload) == "";
  }

  /** When the first two passes leave no `{`, the template's buttons are those of that intermediate text. */
  lemma FormatThrough(t: string, d: string, v: Slots, counter: nat, uri: string, range: Range,
                      payload: (nat, string, string, Range) -> string)
    requires t != "" && DualPass(ExpandNewlines(t), TwoDecStrings(v.dec, v.sDec)) == d && '{' !in d
    ensures FormatText(t, v, counter, uri, range, payload) == ButtonPass(d, counter, uri, range, payload)
  {
    PlaceholderPlain(d, v);
  }

  /** The shorthand with one value, before the fourth pass. */
  lemma DualSingleText(p1: string, p2: string, x: string)
    requires Inert(p1) && Inert(p2)
    ensures DualPass(ExpandNewlines("<" + p1 + "{dec}" + p2 + ">"), [x]) == "<" + (p1 + x + p2) + ">"
  {
    DualTemplatePass(p1, p2, [x]);
    assert Join([x], p2 + ">, <" + p1) == x;
    RegroupOne("<", p1, x, p2, ">");
  }

  /** The shorthand with two values, before the fourth pass. */
  lemma DualPairText(p1: string, p2: string, x: string, y: string)
    requires Inert(p1) && Inert(p2)
    ensures DualPass(ExpandNewlines("<" + p1 + "{dec}" + p2 + ">"), [x, y]) == "<" + (p1 + x + p2) + ">, <" + (p1 + y + p2) + ">"
  {
    DualTemplatePass(p1, p2, [x, y]);
    assert Join([x, y], p2 + ">, <" + p1) == x + (p2 + ">, <" + p1) + y by {
      assert [x, y][1..] == [y];
    }
    Regroup("<", p1, x, p2, ">, <", y, ">");
  }

  /** Regrouping the pieces of a one-value expansion. */
  lemma RegroupOne(a: string, p1: string, x: string, p2: string, z: string)
    ensures a + p1 + x + p2 + z == a + (p1 + x + p2) + z
  {
  }

  /** Regrouping the pieces of a two-value expansion. */
  lemma Regroup(a: string, p1: string, x: string, p2: string, m: string, y: string, z: string)
    ensures a + p1 + (x + (p2 + m + p1) + y) + p2 + z == a + (p1 + x + p2) + m + (p1 + y + p2) + z
  {
  }

  lemma PairInert(c1: string, c2: string)
    requires '{' !in c1 && '{' !in c2
    ensures '{' !in "<" + c1 + ">, <" + c2 + ">"
  {
  }

  /** `<p1{dec}p2>` with one decimal (no signed value, or an equal one) gives a single button reading `p1 x p2`. */
  lemma {:induction false} FormatDualSingle(p1: string, p2: string, v: Slots, counter: nat, uri: string, range: Range,
                                            payload: (nat, string, string, Range) -> string)
    requires Inert(p1) && Inert(p2)
    requires v.dec.Some? && (v.sDec.None? || v.sDec == v.dec)
    ensures var c := p1 + DecString(v.dec) + p2;
      FormatText("<" + p1 + "{dec}" + p2 + ">", v, counter, uri, range, payload) == Link(c, payload(counter, c, uri, range))
  {
    var x := DecString(v.dec);
    var c := p1 + x + p2;
    var d := "<" + c + ">";
    assert TwoDecStrings(v.dec, v.sDec) == [x];
    DualSingleText(p1, p2, x);
    CaptionPlain(p1, v.dec.value, p2, v, "");
    FormatThrough("<" + p1 + "{dec}" + p2 + ">", d, v, counter, uri, range, payload);
    ButtonSingle(c, counter, uri, range, payload);
  }

  /** `<p1{dec}p2>` with an unsigned and a different signed decimal gives two buttons, unsigned first, both with the counter of the call. */
  lemma {:induction false} FormatDualPair(p1: string, p2: string, v: Slots, counter: nat, uri: string, range: Range,
                                          payload: (nat, string, string, Range) -> string)
    requires Inert(p1) && Inert(p2)
    requires v.dec.Some? && v.sDec.Some? && v.dec != v.sDec
    ensures var c1 := p1 + DecString(v.dec) + p2; var c2 := p1 + DecString(v.sDec) + p2;
      FormatText("<" + p1 + "{dec}" + p2 + ">", v, counter, uri, range, payload)
        == Link(c1, payload(counter, c1, uri, range)) + ", " + Link(c2, payload(counter, c2, uri, range))
  {
    var x := DecString(v.dec);
    var y := DecString(v.sDec);
    var c1 := p1 + x + p2;
    var c2 := p1 + y + p2;
    assert TwoDecStrings(v.dec, v.sDec) == [x, y];
    DualPairText(p1, p2, x, y);
    CaptionPlain(p1, v.dec.value, p2, v, "");
    CaptionPlain(p1, v.sDec.value, p2, v, "");
    PairInert(c1, c2);
    FormatThrough("<" + p1 + "{dec}" + p2 + ">", "<" + c1 + ">, <" + c2 + ">", v, counter, uri, range, payload);
    ButtonPair(c1, c2, counter, uri, range, payload);
  }

  /** A character other than `<` is copied by the fourth pass. */
  lemma ButtonSkip(c: char, rest: string, counter: nat, uri: string, range: Range, payload: (nat, string, string, Range) -> string)
    requires c != '<'
    ensures ButtonPass([c] + rest, counter, uri, range, payload) == [c] + ButtonPass(rest, counter, uri, range, payload)
  {
    assert ([c] + rest)[1..] == rest;
  }

  /** A section is empty exactly when its source is undefined or zero, and otherwise ends in a line break. */
  lemma SectionShape(src: Option<int>, template: string, v: Slots, counter: nat, uri: string, range: Range,
                     payload: (nat, string, string, Range) -> string)
    ensures var s := Section(src, template, v, counter, uri, range, payload);
      && (s == "" <==> src.None? || src.value == 0)
      && (s != "" ==> s[|s| - 1] == '\n')
  {
  }

  // ---------------------------------------------------------------------
  // The range of the buttons

  /**
   * `fixRangeStart` on a range: a negative start character throws; a start
   * that stays at or before the end is the only coordinate that moves; a
   * start moved past the end trades places with the end.
   */
  lemma FixRangeCases(r: Range, offset: int)
    requires ValidRange(r)
    ensures var moved := NewRange(r.startLine, r.startCharacter + offset, r.endLine, r.endCharacter);
      && (moved.None? <==> r.startCharacter + offset < 0)
      && (r.startCharacter + offset >= 0 && !IsAfter(r.startLine, r.startCharacter + offset, r.endLine, r.endCharacter)
          ==> moved == Some(r.(startCharacter := r.startCharacter + offset)))
      && (r.startCharacter + offset >= 0 && IsAfter(r.startLine, r.startCharacter + offset, r.endLine, r.endCharacter)
          ==> moved == Some(Range(r.endLine, r.endCharacter, r.startLine, r.startCharacter + offset)))
  {
  }
}
