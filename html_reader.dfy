/**
 * A reader for the HTML the renderer writes, used as the renderer's
 * reference: it cuts HTML into opening spans, closing spans, line breaks
 * and displayed characters (decoding the three entities the renderer
 * writes). Reading back what the renderer wrote gives, run by run, the
 * run's spans in order, its text, and as many closing spans as opening
 * ones, provided the text holds no `&` and the colour no `"`.
 */
module HtmlReader {
  import opened Components
  import opened Tables
  import opened Renderer

  datatype HtmlToken = OpenSpan(style: string) | CloseSpan | LineBreak | Chr(ch: char)

  /** The index of the first double quote in `s`, or `|s|` if there is none. */
  function QuoteAt(s: string): (k: nat)
    ensures k <= |s|
    ensures forall i :: 0 <= i < k ==> s[i] != '"'
    ensures k < |s| ==> s[k] == '"'
    decreases |s|
  {
    if s == [] || s[0] == '"' then 0 else 1 + QuoteAt(s[1..])
  }

  /** After an opening prefix: a quoted style ends in `">`. */
  predicate EndsOpenTag(body: string) {
    var k := QuoteAt(body);
    k + 1 < |body| && body[k + 1] == '>'
  }

  /** Reads HTML as the renderer's tags and the characters a browser displays. */
  function Tokenize(h: string): seq<HtmlToken>
    decreases |h|
  {
    if h == [] then []
    else if "<br>" <= h then [LineBreak] + Tokenize(h[4..])
    else if CloseTag <= h then [CloseSpan] + Tokenize(h[|CloseTag|..])
    else if OpenPrefix <= h && EndsOpenTag(h[|OpenPrefix|..]) then
      var body := h[|OpenPrefix|..];
      var k := QuoteAt(body);
      [OpenSpan(body[..k])] + Tokenize(body[k + 2..])
    else if "&nbsp;" <= h then [Chr(' ')] + Tokenize(h[6..])
    else if "&lt;" <= h then [Chr('<')] + Tokenize(h[4..])
    else if "&gt;" <= h then [Chr('>')] + Tokenize(h[4..])
    else [Chr(h[0])] + Tokenize(h[1..])
  }

  function TextToken(ch: char): HtmlToken {
    if ch == '\n' then LineBreak else Chr(ch)
  }

  function TextTokens(t: string): seq<HtmlToken>
    decreases |t|
  {
    if t == [] then [] else TextTokens(t[..|t| - 1]) + [TextToken(t[|t| - 1])]
  }

  function OpenTokens(ds: seq<string>): seq<HtmlToken>
    decreases |ds|
  {
    if ds == [] then [] else OpenTokens(ds[..|ds| - 1]) + [OpenSpan(ds[|ds| - 1])]
  }

  function CloseTokens(n: nat): seq<HtmlToken> {
    if n == 0 then [] else CloseTokens(n - 1) + [CloseSpan]
  }

  /** What one run should read back as: its spans, its text, its closing spans. */
  function RunTokens(c: Component): seq<HtmlToken> {
    OpenTokens(Styles(c)) + TextTokens(c.text) + CloseTokens(|Styles(c)|)
  }

  function HtmlTokens(runs: seq<Component>): seq<HtmlToken>
    decreases |runs|
  {
    if runs == [] then [] else HtmlTokens(runs[..|runs| - 1]) + RunTokens(runs[|runs| - 1])
  }

  /** The text a browser shows for a token sequence: characters and line breaks. */
  function Displayed(toks: seq<HtmlToken>): string
    decreases |toks|
  {
    if toks == [] then []
    else
      var last := toks[|toks| - 1];
      Displayed(toks[..|toks| - 1]) +
        (match last
         case LineBreak => "\n"
         case Chr(ch) => [ch]
         case _ => [])
  }

  /** Every closing span closes an open one, and none stays open (starting `depth` deep). */
  predicate WellNested(toks: seq<HtmlToken>, depth: nat)
    decreases |toks|
  {
    if toks == [] then depth == 0
    else match toks[0]
      case OpenSpan(_) => WellNested(toks[1..], depth + 1)
      case CloseSpan => depth > 0 && WellNested(toks[1..], depth - 1)
      case _ => WellNested(toks[1..], depth)
  }

  /** A run whose HTML reads back as written: no `&` in its text, no `"` in its colour value. */
  predicate Renderable(c: Component) {
    && '&' !in c.text
    && (c.color.Some? ==> '"' !in ColorValue(c.color.value))
  }

  // Reading back the pieces the renderer writes.

  lemma TokenizeLineBreak(rest: string)
    ensures Tokenize("<br>" + rest) == [LineBreak] + Tokenize(rest)
  {
    var h := "<br>" + rest;
    assert "<br>" <= h && h[4..] == rest;
  }

  lemma TokenizeEntity(ch: char, rest: string)
    requires ch == ' ' || ch == '<' || ch == '>'
    ensures Tokenize(EscapeChar(ch) + rest) == [Chr(ch)] + Tokenize(rest)
  {
    var e := EscapeChar(ch);
    var h := e + rest;
    assert h[0] == '&';
    assert !("<br>" <= h) && !(CloseTag <= h) && !(OpenPrefix <= h);
    if ch == ' ' {
      assert e == "&nbsp;";
      assert "&nbsp;" <= h && h[6..] == rest;
    } else if ch == '<' {
      assert e == "&lt;";
      assert h[1] == 'l';
      assert "&lt;" <= h && h[4..] == rest;
    } else {
      assert e == "&gt;";
      assert h[1] == 'g';
      assert "&gt;" <= h && h[4..] == rest;
    }
  }

  lemma TokenizePlainChar(ch: char, rest: string)
    requires ch != '<' && ch != '&'
    ensures Tokenize([ch] + rest) == [Chr(ch)] + Tokenize(rest)
  {
    var h := [ch] + rest;
    assert h[0] == ch && h[1..] == rest;
  }

  /** `h` reads as `toks`, whatever follows it. */
  ghost predicate ReadsAs(h: string, toks: seq<HtmlToken>) {
    forall rest :: Tokenize(h + rest) == toks + Tokenize(rest)
  }

  /** Reading a concatenation piece by piece, for any reader `read` that reads a prefix independently of what follows. */
  lemma ReadPieces(read: string -> seq<HtmlToken>, a: string, ta: seq<HtmlToken>, b: string, tb: seq<HtmlToken>, rest: string)
    requires forall r :: read(a + r) == ta + read(r)
    requires forall r :: read(b + r) == tb + read(r)
    ensures read(a + b + rest) == ta + tb + read(rest)
  {
    assert a + b + rest == a + (b + rest);
    assert read(a + (b + rest)) == ta + read(b + rest);
    assert ta + (tb + read(rest)) == ta + tb + read(rest);
  }

  lemma ReadsAsAppend(a: string, ta: seq<HtmlToken>, b: string, tb: seq<HtmlToken>)
    requires ReadsAs(a, ta) && ReadsAs(b, tb)
    ensures ReadsAs(a + b, ta + tb)
  {
    forall rest
      ensures Tokenize(a + b + rest) == ta + tb + Tokenize(rest)
    {
      ReadPieces(Tokenize, a, ta, b, tb, rest);
    }
  }

  lemma ReadsAsEmpty()
    ensures ReadsAs([], [])
  {
    forall rest
      ensures Tokenize([] + rest) == [] + Tokenize(rest)
    {
      assert [] + rest == rest;
    }
  }

  lemma EscapeCharReads(ch: char)
    requires ch != '&'
    ensures ReadsAs(EscapeChar(ch), [TextToken(ch)])
  {
    forall rest
      ensures Tokenize(EscapeChar(ch) + rest) == [TextToken(ch)] + Tokenize(rest)
    {
      if ch == '\n' {
        TokenizeLineBreak(rest);
      } else if ch == ' ' || ch == '<' || ch == '>' {
        TokenizeEntity(ch, rest);
      } else {
        TokenizePlainChar(ch, rest);
      }
    }
  }

  lemma {:induction false} EscapeReads(t: string)
    requires '&' !in t
    ensures ReadsAs(Escape(t), TextTokens(t))
    decreases |t|
  {
    if t == [] {
      ReadsAsEmpty();
    } else {
      var t', x := t[..|t| - 1], t[|t| - 1];
      EscapeReads(t');
      EscapeCharReads(x);
      ReadsAsAppend(Escape(t'), TextTokens(t'), EscapeChar(x), [TextToken(x)]);
    }
  }

  lemma TokenizeOpenTag(d: string, rest: string)
    requires '"' !in d
    ensures Tokenize(OpenTag(d) + rest) == [OpenSpan(d)] + Tokenize(rest)
  {
    var h := OpenTag(d) + rest;
    assert h == OpenPrefix + (d + "\">" + rest);
    assert h[0] == '<' && h[1] == 's';
    assert !("<br>" <= h) && !(CloseTag <= h) && OpenPrefix <= h;
    var body := h[|OpenPrefix|..];
    assert body == d + "\">" + rest;
    assert body[|d|] == '"';
    var k := QuoteAt(body);
    assert forall i :: 0 <= i < |d| ==> body[i] == d[i] && d[i] != '"';
    assert k == |d|;
    assert body[k + 1] == '>' && body[..k] == d && body[k + 2..] == rest;
  }

  lemma {:induction false} OpenTagsRead(ds: seq<string>)
    requires forall i :: 0 <= i < |ds| ==> '"' !in ds[i]
    ensures ReadsAs(OpenTags(ds), OpenTokens(ds))
    decreases |ds|
  {
    if ds == [] {
      ReadsAsEmpty();
    } else {
      var ds', d := ds[..|ds| - 1], ds[|ds| - 1];
      OpenTagsRead(ds');
      forall rest
        ensures Tokenize(OpenTag(d) + rest) == [OpenSpan(d)] + Tokenize(rest)
      {
        TokenizeOpenTag(d, rest);
      }
      ReadsAsAppend(OpenTags(ds'), OpenTokens(ds'), OpenTag(d), [OpenSpan(d)]);
    }
  }

  lemma TokenizeCloseTag(rest: string)
    ensures Tokenize(CloseTag + rest) == [CloseSpan] + Tokenize(rest)
  {
    var h := CloseTag + rest;
    assert h[1] == '/';
    assert !("<br>" <= h) && CloseTag <= h && h[|CloseTag|..] == rest;
  }

  lemma {:induction false} ClosesRead(n: nat)
    ensures ReadsAs(Closes(n), CloseTokens(n))
  {
    if n == 0 {
      ReadsAsEmpty();
    } else {
      ClosesRead(n - 1);
      forall rest
        ensures Tokenize(CloseTag + rest) == [CloseSpan] + Tokenize(rest)
      {
        TokenizeCloseTag(rest);
      }
      ReadsAsAppend(Closes(n - 1), CloseTokens(n - 1), CloseTag, [CloseSpan]);
    }
  }

  lemma StylesHaveNoQuote(c: Component)
    requires c.color.Some? ==> '"' !in ColorValue(c.color.value)
    ensures forall i :: 0 <= i < |Styles(c)| ==> '"' !in Styles(c)[i]
  {
    if c.color.Some? {
      var v := ColorValue(c.color.value);
      assert ColorDecl(c.color.value) == "color: " + v + ";";
    }
  }

  /** One rendered run reads back as its spans, its text and as many closing spans. */
  lemma RunReads(c: Component)
    requires Renderable(c)
    ensures ReadsAs(RenderRun(c), RunTokens(c))
  {
    var ds := Styles(c);
    StylesHaveNoQuote(c);
    OpenTagsRead(ds);
    EscapeReads(c.text);
    ClosesRead(|ds|);
    ReadsAsAppend(OpenTags(ds), OpenTokens(ds), Escape(c.text), TextTokens(c.text));
    ReadsAsAppend(OpenTags(ds) + Escape(c.text), OpenTokens(ds) + TextTokens(c.text), Closes(|ds|), CloseTokens(|ds|));
  }

  lemma {:induction false} HtmlReads(runs: seq<Component>)
    requires forall k :: 0 <= k < |runs| ==> Renderable(runs[k])
    ensures ReadsAs(Html(runs), HtmlTokens(runs))
    decreases |runs|
  {
    if runs == [] {
      ReadsAsEmpty();
    } else {
      var runs', c := runs[..|runs| - 1], runs[|runs| - 1];
      HtmlReads(runs');
      RunReads(c);
      ReadsAsAppend(Html(runs'), HtmlTokens(runs'), RenderRun(c), RunTokens(c));
    }
  }

  // What the tokens display.

  lemma {:induction false} DisplayedAppend(a: seq<HtmlToken>, b: seq<HtmlToken>)
    ensures Displayed(a + b) == Displayed(a) + Displayed(b)
    decreases |b|
  {
    if b == [] {
      assert a + b == a;
    } else {
      var b' := b[..|b| - 1];
      assert (a + b)[..|a + b| - 1] == a + b';
      assert (a + b)[|a + b| - 1] == b[|b| - 1];
      DisplayedAppend(a, b');
    }
  }

  lemma {:induction false} DisplayedOpenTokens(ds: seq<string>)
    ensures Displayed(OpenTokens(ds)) == []
    decreases |ds|
  {
    if ds != [] {
      DisplayedOpenTokens(ds[..|ds| - 1]);
      DisplayedAppend(OpenTokens(ds[..|ds| - 1]), [OpenSpan(ds[|ds| - 1])]);
    }
  }

  lemma {:induction false} DisplayedCloseTokens(n: nat)
    ensures Displayed(CloseTokens(n)) == []
  {
    if n > 0 {
      DisplayedCloseTokens(n - 1);
      DisplayedAppend(CloseTokens(n - 1), [CloseSpan]);
    }
  }

  lemma {:induction false} DisplayedTextTokens(t: string)
    ensures Displayed(TextTokens(t)) == t
    decreases |t|
  {
    if t != [] {
      var t', x := t[..|t| - 1], t[|t| - 1];
      DisplayedTextTokens(t');
      DisplayedAppend(TextTokens(t'), [TextToken(x)]);
      assert Displayed([TextToken(x)]) == [x];
      assert t == t' + [x];
    }
  }

  lemma DisplayedRun(c: Component)
    ensures Displayed(RunTokens(c)) == c.text
  {
    var ds := Styles(c);
    DisplayedAppend(OpenTokens(ds) + TextTokens(c.text), CloseTokens(|ds|));
    DisplayedAppend(OpenTokens(ds), TextTokens(c.text));
    DisplayedOpenTokens(ds);
    DisplayedTextTokens(c.text);
    DisplayedCloseTokens(|ds|);
  }

  lemma {:induction false} DisplayedHtml(runs: seq<Component>)
    ensures Displayed(HtmlTokens(runs)) == Clean(runs)
    decreases |runs|
  {
    if runs != [] {
      var runs', c := runs[..|runs| - 1], runs[|runs| - 1];
      DisplayedHtml(runs');
      DisplayedAppend(HtmlTokens(runs'), RunTokens(c));
      DisplayedRun(c);
    }
  }

  // Nesting of the spans.

  lemma {:induction false} NestedOpenTokens(ds: seq<string>, rest: seq<HtmlToken>, depth: nat)
    ensures WellNested(OpenTokens(ds) + rest, depth) == WellNested(rest, depth + |ds|)
    decreases |ds|
  {
    if ds == [] {
      assert OpenTokens(ds) + rest == rest;
    } else {
      var ds', d := ds[..|ds| - 1], ds[|ds| - 1];
      assert OpenTokens(ds) + rest == OpenTokens(ds') + ([OpenSpan(d)] + rest);
      NestedOpenTokens(ds', [OpenSpan(d)] + rest, depth);
      assert ([OpenSpan(d)] + rest)[1..] == rest;
      assert WellNested([OpenSpan(d)] + rest, depth + |ds'|) == WellNested(rest, depth + |ds|);
    }
  }

  lemma {:induction false} NestedTextTokens(t: string, rest: seq<HtmlToken>, depth: nat)
    ensures WellNested(TextTokens(t) + rest, depth) == WellNested(rest, depth)
    decreases |t|
  {
    if t == [] {
      assert TextTokens(t) + rest == rest;
    } else {
      var t', x := t[..|t| - 1], t[|t| - 1];
      assert TextTokens(t) + rest == TextTokens(t') + ([TextToken(x)] + rest);
      NestedTextTokens(t', [TextToken(x)] + rest, depth);
      assert ([TextToken(x)] + rest)[1..] == rest;
      assert WellNested([TextToken(x)] + rest, depth) == WellNested(rest, depth);
    }
  }

  lemma {:induction false} NestedCloseTokens(n: nat, rest: seq<HtmlToken>, depth: nat)
    requires n <= depth
    ensures WellNested(CloseTokens(n) + rest, depth) == WellNested(rest, depth - n)
  {
    if n == 0 {
      assert CloseTokens(n) + rest == rest;
    } else {
      assert CloseTokens(n) + rest == CloseTokens(n - 1) + ([CloseSpan] + rest);
      NestedCloseTokens(n - 1, [CloseSpan] + rest, depth);
      assert ([CloseSpan] + rest)[1..] == rest;
      assert WellNested([CloseSpan] + rest, depth - (n - 1)) == WellNested(rest, depth - n);
    }
  }

  lemma NestedRun(c: Component, rest: seq<HtmlToken>, depth: nat)
    ensures WellNested(RunTokens(c) + rest, depth) == WellNested(rest, depth)
  {
    var ds := Styles(c);
    var opens, text, closes := OpenTokens(ds), TextTokens(c.text), CloseTokens(|ds|);
    assert RunTokens(c) + rest == opens + (text + (closes + rest));
    NestedOpenTokens(ds, text + (closes + rest), depth);
    NestedTextTokens(c.text, closes + rest, depth + |ds|);
    NestedCloseTokens(|ds|, rest, depth + |ds|);
  }

  lemma {:induction false} NestedHtml(runs: seq<Component>, rest: seq<HtmlToken>, depth: nat)
    ensures WellNested(HtmlTokens(runs) + rest, depth) == WellNested(rest, depth)
    decreases |runs|
  {
    if runs == [] {
      assert HtmlTokens(runs) + rest == rest;
    } else {
      var runs', c := runs[..|runs| - 1], runs[|runs| - 1];
      assert HtmlTokens(runs) + rest == HtmlTokens(runs') + (RunTokens(c) + rest);
      NestedHtml(runs', RunTokens(c) + rest, depth);
      NestedRun(c, rest, depth);
      assert HtmlTokens(runs) == HtmlTokens(runs') + RunTokens(c);
    }
  }

  /**
   * The HTML of runs whose texts hold no `&` and whose colours hold no `"`
   * reads back run by run as written; its spans are well nested (every run
   * closes exactly the spans it opened); and it displays the plain text of
   * the same runs.
   */
  lemma HtmlReadsBack(runs: seq<Component>)
    requires forall k :: 0 <= k < |runs| ==> Renderable(runs[k])
    ensures Tokenize(Html(runs)) == HtmlTokens(runs)
    ensures WellNested(Tokenize(Html(runs)), 0)
    ensures Displayed(Tokenize(Html(runs))) == Clean(runs)
  {
    HtmlReads(runs);
    assert Html(runs) + [] == Html(runs);
    assert Tokenize(Html(runs) + []) == HtmlTokens(runs) + Tokenize([]);
    assert HtmlTokens(runs) + Tokenize([]) == HtmlTokens(runs);
    NestedHtml(runs, [], 0);
    assert HtmlTokens(runs) + [] == HtmlTokens(runs);
    DisplayedHtml(runs);
  }

  /** A run of the four characters `&lt;`, without colour or style, is written as those four characters. */
  lemma EntityTextRendersVerbatim()
    ensures Html([Component("&lt;", None, None, None, None, None, None)]) == "&lt;"
  {
    var c := Component("&lt;", None, None, None, None, None, None);
    assert Styles(c) == [];
    EscapeKeepsPlainText(c.text);
    assert [c][..0] == [];
    assert Html([c]) == Html([]) + RenderRun(c);
    assert RenderRun(c) == [] + c.text + [];
  }

  /**
   * `&` is written unescaped, so a run whose text is the four characters
   * `&lt;` displays as the single character `<`: reading back needs its
   * no-`&` condition.
   */
  lemma AmpersandIsNotEscaped()
    ensures var c := Component("&lt;", None, None, None, None, None, None);
      Html([c]) == "&lt;" && Displayed(Tokenize(Html([c]))) == "<"
  {
    var c := Component("&lt;", None, None, None, None, None, None);
    EntityTextRendersVerbatim();
    TokenizeEntity('<', []);
    assert EscapeChar('<') + [] == "&lt;";
    assert Tokenize([]) == [];
    assert Displayed([Chr('<')]) == Displayed([]) + "<";
  }
}
