/**
 * The two renderings of a sequence of runs: HTML, where every run is
 * wrapped in one span per active attribute and its text is escaped, and
 * the plain text, the run texts one after the other.
 */
module Renderer {
  import opened Components
  import opened Tables

  const OpenPrefix: string := "<span style=\""
  const CloseTag: string := "</span>"

  const BoldDecl: string := "font-weight: bold;"
  const ItalicDecl: string := "font-style: italic;"
  const UnderlineDecl: string := "text-decoration: underline;"
  const StrikethroughDecl: string := "text-decoration: line-through;"

  /** The span that opens with style declaration `decl`. */
  function OpenTag(decl: string): string {
    OpenPrefix + decl + "\">"
  }

  /** The style spans, spelled out. */
  lemma BoldTagLiteral()
    ensures OpenTag(BoldDecl) == "<span style=\"font-weight: bold;\">"
  {
  }

  lemma ItalicTagLiteral()
    ensures OpenTag(ItalicDecl) == "<span style=\"font-style: italic;\">"
  {
  }

  lemma UnderlineTagLiteral()
    ensures OpenTag(UnderlineDecl) == "<span style=\"text-decoration: underline;\">"
  {
  }

  lemma StrikethroughTagLiteral()
    ensures OpenTag(StrikethroughDecl) == "<span style=\"text-decoration: line-through;\">"
  {
  }

  /** A colour in the table is written as its hex value, any other colour as it is. */
  function ColorValue(name: string): (v: string)
    ensures name in ColorMap ==> IsHexColour(v)
    ensures name !in ColorMap ==> v == name
  {
    HexValuesAreHexColours();
    if name in ColorMap then ColorMap[name] else name
  }

  /**
   * A colour in the table is written as that colour's own table value; the
   * value is a `#rrggbb` hex colour.
   */
  lemma ColorValueIsTableValue(name: string)
    requires name in ColorMap
    ensures ColorValue(name) == ColorMap[name]
    ensures IsHexColour(ColorValue(name))
  {
  }

  function ColorDecl(name: string): string {
    "color: " + ColorValue(name) + ";"
  }

  function Count(flag: Option<bool>): nat {
    if flag == Some(true) then 1 else 0
  }

  /** The colour span of a run: one when a colour is set, none otherwise. */
  function ColorStyles(c: Component): (ds: seq<string>)
    ensures |ds| == (if c.color.Some? then 1 else 0)
  {
    if c.color.Some? then [ColorDecl(c.color.value)] else []
  }

  /** `ds` followed by the span `decl` when `flag` is true. */
  function WithFlag(ds: seq<string>, flag: Option<bool>, decl: string): (r: seq<string>)
    ensures |r| == |ds| + Count(flag)
    ensures r[..|ds|] == ds
    ensures |r| > |ds| ==> r[|ds|] == decl
  {
    if flag == Some(true) then ds + [decl] else ds
  }

  /**
   * The style declarations of the spans wrapped around a run, outermost
   * first: colour, bold, italic, underlined, strikethrough. A colour opens
   * a span whenever it is set; a style only when it is true; obfuscation
   * never does.
   */
  function Styles(c: Component): (ds: seq<string>)
    ensures |ds| == (if c.color.Some? then 1 else 0)
      + Count(c.bold) + Count(c.italic) + Count(c.underlined) + Count(c.strikethrough)
  {
    var withColor := ColorStyles(c);
    var withBold := WithFlag(withColor, c.bold, BoldDecl);
    var withItalic := WithFlag(withBold, c.italic, ItalicDecl);
    var withUnderline := WithFlag(withItalic, c.underlined, UnderlineDecl);
    WithFlag(withUnderline, c.strikethrough, StrikethroughDecl)
  }

  /** A line break, a space or an angle bracket becomes markup; every other character stays. */
  function EscapeChar(ch: char): string {
    if ch == '\n' then "<br>"
    else if ch == ' ' then "&nbsp;"
    else if ch == '<' then "&lt;"
    else if ch == '>' then "&gt;"
    else [ch]
  }

  function Escape(t: string): string
    decreases |t|
  {
    if t == [] then [] else Escape(t[..|t| - 1]) + EscapeChar(t[|t| - 1])
  }

  function OpenTags(ds: seq<string>): string
    decreases |ds|
  {
    if ds == [] then [] else OpenTags(ds[..|ds| - 1]) + OpenTag(ds[|ds| - 1])
  }

  function Closes(n: nat): string {
    if n == 0 then [] else Closes(n - 1) + CloseTag
  }

  /** One run: its spans, its escaped text, and as many closing tags as spans. */
  function RenderRun(c: Component): string {
    OpenTags(Styles(c)) + Escape(c.text) + Closes(|Styles(c)|)
  }

  /** The HTML of a sequence of runs: each run rendered on its own, in order. */
  function Html(runs: seq<Component>): string
    decreases |runs|
  {
    if runs == [] then [] else Html(runs[..|runs| - 1]) + RenderRun(runs[|runs| - 1])
  }

  /** The plain text of a sequence of runs: their texts, in order. */
  function Clean(runs: seq<Component>): string
    decreases |runs|
  {
    if runs == [] then [] else Clean(runs[..|runs| - 1]) + runs[|runs| - 1].text
  }

  /** Escaping works character by character. */
  lemma {:induction false} EscapeAppend(a: string, b: string)
    ensures Escape(a + b) == Escape(a) + Escape(b)
    decreases |b|
  {
    if b == [] {
      assert a + b == a;
    } else {
      var b', x := b[..|b| - 1], b[|b| - 1];
      assert (a + b)[..|a + b| - 1] == a + b';
      assert (a + b)[|a + b| - 1] == x;
      EscapeAppend(a, b');
      var e := EscapeChar(x);
      assert Escape(a + b) == Escape(a + b') + e;
      assert Escape(b) == Escape(b') + e;
      assert Escape(a) + Escape(b') + e == Escape(a) + (Escape(b') + e);
    }
  }

  predicate IsPlain(ch: char) {
    ch != '\n' && ch != ' ' && ch != '<' && ch != '>'
  }

  /** Text without line breaks, spaces or angle brackets is written unchanged. */
  lemma {:induction false} EscapeKeepsPlainText(t: string)
    requires forall i :: 0 <= i < |t| ==> IsPlain(t[i])
    ensures Escape(t) == t
    decreases |t|
  {
    if t != [] {
      var t', x := t[..|t| - 1], t[|t| - 1];
      EscapeKeepsPlainText(t');
      assert EscapeChar(x) == [x];
      assert Escape(t) == Escape(t') + [x];
      assert t == t' + [x];
    }
  }

  lemma EscapeCharHasNoWhitespace(ch: char)
    ensures ' ' !in EscapeChar(ch) && '\n' !in EscapeChar(ch)
  {
  }

  /** The escaped text has no raw space or line break left. */
  lemma {:induction false} EscapeRemovesWhitespace(t: string)
    ensures ' ' !in Escape(t) && '\n' !in Escape(t)
    decreases |t|
  {
    if t != [] {
      var t', x := t[..|t| - 1], t[|t| - 1];
      EscapeRemovesWhitespace(t');
      EscapeCharHasNoWhitespace(x);
      var e := EscapeChar(x);
      assert Escape(t) == Escape(t') + e;
    }
  }

  /** Runs are rendered independently: the HTML of two sequences is the HTML of each, joined. */
  lemma {:induction false} HtmlAppend(a: seq<Component>, b: seq<Component>)
    ensures Html(a + b) == Html(a) + Html(b)
    decreases |b|
  {
    if b == [] {
      assert a + b == a;
    } else {
      var b' := b[..|b| - 1];
      assert (a + b)[..|a + b| - 1] == a + b';
      assert (a + b)[|a + b| - 1] == b[|b| - 1];
      HtmlAppend(a, b');
    }
  }

  /** The plain text of two sequences is the plain text of each, joined. */
  lemma {:induction false} CleanAppend(a: seq<Component>, b: seq<Component>)
    ensures Clean(a + b) == Clean(a) + Clean(b)
    decreases |b|
  {
    if b == [] {
      assert a + b == a;
    } else {
      var b' := b[..|b| - 1];
      assert (a + b)[..|a + b| - 1] == a + b';
      assert (a + b)[|a + b| - 1] == b[|b| - 1];
      CleanAppend(a, b');
    }
  }
}
