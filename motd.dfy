/**
 * A server's message of the day: the object that stores the two renderings,
 * the loops that produce them, and what decoding then rendering promises
 * end to end.
 */
module Motd {
  import opened Components
  import opened Tables
  import opened LegacyDecoder
  import opened DecoderLemmas
  import opened Renderer
  import opened HtmlReader

  /** A server whose message of the day is kept as HTML and as plain text. */
  class Server {
    var cleanMotd: string
    var htmlMotd: string

    constructor ()
      ensures cleanMotd == [] && htmlMotd == []
    {
      cleanMotd := [];
      htmlMotd := [];
    }

    /** Stores both renderings of already-structured runs. */
    method ProcessMotd(components: seq<Component>)
      modifies this
      ensures htmlMotd == Html(components)
      ensures cleanMotd == Clean(components)
    {
      GenerateHtml(components);
      GenerateClean(components);
    }

    /**
     * Decodes a legacy string and stores both renderings; the plain text
     * is the string without its markers and codes. A string that does not
     * decode leaves the server as it was and reports why.
     */
    method ProcessLegacyMotd(text: string) returns (failure: Option<DecodeError>)
      modifies this
      ensures Decode(text).Err? ==> failure == Some(Decode(text).error) && unchanged(this)
      ensures Decode(text).Ok? ==> failure == None
      ensures Decode(text).Ok? ==> htmlMotd == Html(Decode(text).value) && cleanMotd == Strip(text)
    {
      var r := ConvertOldFormatToComponents(text);
      match r {
        case Err(e) =>
          failure := Some(e);
        case Ok(components) =>
          CleanOfDecodeIsStripped(text, components);
          ProcessMotd(components);
          failure := None;
      }
    }

    /**
     * Renders runs as HTML: per run, its opening spans, its escaped text and
     * as many closing tags as it opened, appended in order.
     */
    method GenerateHtml(components: seq<Component>)
      modifies this`htmlMotd
      ensures htmlMotd == Html(components)
    {
      var text: string := [];
      for i := 0 to |components|
        invariant text == Html(components[..i])
      {
        var component := components[i];
        var tags, spans := OpenSpans(component);
        var escaped := EscapeText(component.text);
        var closes := CloseSpans(spans);
        var run := tags + escaped + closes;
        assert components[..i + 1][..i] == components[..i];
        assert Html(components[..i + 1]) == Html(components[..i]) + RenderRun(component);
        text := text + run;
      }
      assert components[..|components|] == components;
      htmlMotd := text;
    }

    /** Renders runs as plain text: their texts, one after the other. */
    method GenerateClean(components: seq<Component>)
      modifies this`cleanMotd
      ensures cleanMotd == Clean(components)
    {
      var text: string := [];
      for i := 0 to |components|
        invariant text == Clean(components[..i])
      {
        text := text + components[i].text;
        assert components[..i + 1][..i] == components[..i];
      }
      assert components[..|components|] == components;
      cleanMotd := text;
    }
  }

  /**
   * The opening tags of one run and how many there are: a colour span when a
   * colour is set (its table value, or the name itself when it is not in the
   * table), then bold, italic, underlined and strikethrough when true.
   */
  method OpenSpans(component: Component) returns (tags: string, spans: nat)
    ensures tags == OpenTags(Styles(component))
    ensures spans == |Styles(component)|
  {
    tags, spans := OpenColorSpan(component);
    ghost var decls := ColorStyles(component);
    tags, spans := PushFlagSpan(tags, spans, decls, component.bold, BoldDecl);
    decls := WithFlag(decls, component.bold, BoldDecl);
    tags, spans := PushFlagSpan(tags, spans, decls, component.italic, ItalicDecl);
    decls := WithFlag(decls, component.italic, ItalicDecl);
    tags, spans := PushFlagSpan(tags, spans, decls, component.underlined, UnderlineDecl);
    decls := WithFlag(decls, component.underlined, UnderlineDecl);
    tags, spans := PushFlagSpan(tags, spans, decls, component.strikethrough, StrikethroughDecl);
    decls := WithFlag(decls, component.strikethrough, StrikethroughDecl);
  }

  /** The colour span of a run, when it has a colour: its hex value from the table, or the name as it is. */
  method OpenColorSpan(component: Component) returns (tags: string, spans: nat)
    ensures tags == OpenTags(ColorStyles(component))
    ensures spans == |ColorStyles(component)|
  {
    tags := [];
    spans := 0;
    if component.color.Some? {
      var color := component.color.value;
      spans := spans + 1;
      if color in ColorMap {
        var value := ColorMap[color];
        ColorTagLiteral(value);
        tags := tags + "<span style=\"color: " + value + ";\">";
      } else {
        ColorTagLiteral(color);
        tags := tags + "<span style=\"color: " + color + ";\">";
      }
      OpenTagsPush([], ColorDecl(color));
      assert [] + [ColorDecl(color)] == ColorStyles(component);
    }
  }

  /** Opens one more span, with declaration `decl`, when `flag` is true. */
  method PushFlagSpan(tags: string, spans: nat, ghost decls: seq<string>, flag: Option<bool>, decl: string)
      returns (tags': string, spans': nat)
    requires tags == OpenTags(decls) && spans == |decls|
    ensures tags' == OpenTags(WithFlag(decls, flag, decl))
    ensures spans' == |WithFlag(decls, flag, decl)|
  {
    tags', spans' := tags, spans;
    if flag == Some(true) {
      spans' := spans' + 1;
      tags' := tags' + OpenTag(decl);
      OpenTagsPush(decls, decl);
    }
  }

  /** Escapes a run's text character by character: line break, space and angle brackets become markup. */
  method EscapeText(t: string) returns (e: string)
    ensures e == Escape(t)
  {
    e := [];
    for j := 0 to |t|
      invariant e == Escape(t[..j])
    {
      var c := t[j];
      assert t[..j + 1][..j] == t[..j];
      if c == '\n' {
        e := e + "<br>";
      } else if c == ' ' {
        e := e + "&nbsp;";
      } else if c == '<' {
        e := e + "&lt;";
      } else if c == '>' {
        e := e + "&gt;";
      } else {
        e := e + [c];
      }
    }
    assert t[..|t|] == t;
  }

  /** Closes `spans` spans. */
  method CloseSpans(spans: nat) returns (closes: string)
    ensures closes == Closes(spans)
  {
    closes := [];
    for k := 0 to spans
      invariant closes == Closes(k)
    {
      closes := closes + "</span>";
    }
  }

  lemma ColorTagLiteral(v: string)
    ensures OpenPrefix + ("color: " + v + ";") + "\">" == "<span style=\"color: " + v + ";\">"
  {
  }

  lemma OpenTagsPush(ds: seq<string>, d: string)
    ensures OpenTags(ds + [d]) == OpenTags(ds) + OpenTag(d)
  {
    assert (ds + [d])[..|ds|] == ds;
  }

  lemma {:induction false} ScanClean(rest: string, st: FormatState, txt: string, runs: seq<Component>)
    requires Scan(rest, st, txt) == Ok(runs)
    ensures Clean(runs) == txt + Strip(rest)
    decreases |rest|
  {
    if rest == [] {
      assert Clean(runs) == Clean([]) + txt;
    } else if rest[0] != Marker {
      ScanClean(rest[1..], st, txt + [rest[0]], runs);
      assert Strip(rest) == [rest[0]] + Strip(rest[1..]);
      assert txt + [rest[0]] + Strip(rest[1..]) == txt + ([rest[0]] + Strip(rest[1..]));
    } else {
      var next := ApplyCode(st, rest[1]).value;
      var tail := Scan(rest[2..], next, []).value;
      ScanClean(rest[2..], next, [], tail);
      CleanCons(Snapshot(txt, st), tail);
      assert Strip(rest) == Strip(rest[2..]);
    }
  }

  lemma CleanCons(c: Component, tail: seq<Component>)
    ensures Clean([c] + tail) == c.text + Clean(tail)
  {
    CleanAppend([c], tail);
    assert [c][..0] == [];
    assert Clean([c]) == Clean([]) + c.text;
  }

  /** The plain text of the decoded runs is the legacy string without its markers and codes. */
  lemma CleanOfDecodeIsStripped(s: string, runs: seq<Component>)
    requires Decode(s) == Ok(runs)
    ensures Clean(runs) == Strip(s)
  {
    ScanClean(s, InitialState, [], runs);
    assert [] + Strip(s) == Strip(s);
  }

  lemma {:induction false} SegmentsAvoid(s: string, x: char)
    requires x !in s
    ensures forall k :: 0 <= k < |Segments(s)| ==> x !in Segments(s)[k]
    decreases |s|
  {
    if s == [] {
    } else if s[0] != Marker {
      SegmentsAvoid(s[1..], x);
      var tail := Segments(s[1..]);
      assert Segments(s) == [[s[0]] + tail[0]] + tail[1..];
      forall k | 1 <= k < |Segments(s)|
        ensures x !in Segments(s)[k]
      {
        assert Segments(s)[k] == tail[k];
      }
    } else if |s| >= 2 {
      SegmentsAvoid(s[2..], x);
      forall k | 1 <= k < |Segments(s)|
        ensures x !in Segments(s)[k]
      {
        assert Segments(s)[k] == Segments(s[2..])[k - 1];
      }
    }
  }

  /** Every decoded colour is in the colour table, so it is written as a `#rrggbb` hex value. */
  lemma DecodedColoursRenderAsHex(s: string, runs: seq<Component>)
    requires Decode(s) == Ok(runs)
    ensures forall k :: 0 <= k < |runs| ==>
      runs[k].color.Some? && runs[k].color.value in ColorMap && IsHexColour(ColorValue(runs[k].color.value))
  {
    DecodedRunsReachable(s, runs);
    IndexedNamesHaveHex();
    forall k | 0 <= k < |runs|
      ensures runs[k].color.Some? && runs[k].color.value in ColorMap
    {
      assert Reachable(StateOf(runs[k]));
      var name := runs[k].color.value;
      var code :| code in ColorIndex && ColorIndex[code] == name;
    }
  }

  /**
   * For a legacy string without `&`, the HTML of its decoded runs is well
   * nested and displays exactly the string without its markers and codes,
   * which is also the plain rendering.
   */
  lemma LegacyHtmlShowsStrippedText(s: string, runs: seq<Component>)
    requires Decode(s) == Ok(runs)
    requires '&' !in s
    ensures WellNested(Tokenize(Html(runs)), 0)
    ensures Displayed(Tokenize(Html(runs))) == Strip(s) == Clean(runs)
  {
    DecodeCharacterized(s, runs);
    SegmentsAvoid(s, '&');
    DecodedColoursRenderAsHex(s, runs);
    forall k | 0 <= k < |runs|
      ensures Renderable(runs[k])
    {
      var v := ColorValue(runs[k].color.value);
      assert forall i :: 0 <= i < |v| ==> v[i] != '"';
    }
    HtmlReadsBack(runs);
    CleanOfDecodeIsStripped(s, runs);
  }
}
