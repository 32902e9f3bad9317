/**
 * The legacy "section-sign" decoder: a string in which a marker character
 * followed by one code switches colour or style is cut into styled runs.
 *
 * `Decode` is the specification: a scan that threads an explicit
 * `FormatState` and snapshots it into a run at every marker and at the end.
 * `ConvertOldFormatToComponents` is the decoder as the program runs it, a
 * loop over separate state variables, proved equal to `Decode`.
 */
module LegacyDecoder {
  import opened Components
  import opened Tables

  /** The character that introduces a format code. */
  const Marker: char := '§'

  /** The code that resets every style and the colour. */
  const ResetCode: char := 'r'

  /** The style codes: bold, obfuscated, strikethrough, underlined, italic. */
  predicate IsStyleCode(c: char) {
    c == 'l' || c == 'k' || c == 'm' || c == 'n' || c == 'o'
  }

  /** A character the decoder accepts after a marker. */
  predicate IsCode(c: char) {
    IsStyleCode(c) || c == ResetCode || c in ColorIndex
  }

  /** The running format of the scan, snapshotted into every run. */
  datatype FormatState = FormatState(
    bold: Option<bool>,
    italic: Option<bool>,
    underlined: Option<bool>,
    strikethrough: Option<bool>,
    obfuscated: Option<bool>,
    color: Option<string>)

  /** White and no style: the state before the first code and after a reset. */
  const InitialState: FormatState := FormatState(None, None, None, None, None, Some(White))

  function Snapshot(txt: string, st: FormatState): Component {
    Component(txt, st.color, st.bold, st.italic, st.underlined, st.strikethrough, st.obfuscated)
  }

  function StateOf(run: Component): FormatState {
    FormatState(run.bold, run.italic, run.underlined, run.strikethrough, run.obfuscated, run.color)
  }

  /**
   * The effect of one code on the running state. A style code sets its own
   * flag only, `r` restores the initial state, a colour code replaces the
   * colour only, and anything else is an unknown code.
   */
  function ApplyCode(st: FormatState, code: char): (r: Result<FormatState, DecodeError>)
    ensures r.Err? <==> !IsCode(code)
    ensures r.Err? ==> r.error == UnknownFormatCode(code)
    ensures IsStyleCode(code) ==> (
      && r.Ok?
      && r.value.color == st.color
      && r.value.bold == (if code == 'l' then Some(true) else st.bold)
      && r.value.obfuscated == (if code == 'k' then Some(true) else st.obfuscated)
      && r.value.strikethrough == (if code == 'm' then Some(true) else st.strikethrough)
      && r.value.underlined == (if code == 'n' then Some(true) else st.underlined)
      && r.value.italic == (if code == 'o' then Some(true) else st.italic))
    ensures code == ResetCode ==> r == Ok(InitialState)
    ensures code in ColorIndex ==> (
      && r.Ok?
      && r.value.color == Some(ColorIndex[code])
      && r.value.(color := st.color) == st)
  {
    if code == 'l' then Ok(st.(bold := Some(true)))
    else if code == 'k' then Ok(st.(obfuscated := Some(true)))
    else if code == 'm' then Ok(st.(strikethrough := Some(true)))
    else if code == 'n' then Ok(st.(underlined := Some(true)))
    else if code == 'o' then Ok(st.(italic := Some(true)))
    else if code == ResetCode then Ok(InitialState)
    else if code in ColorIndex then Ok(st.(color := Some(ColorIndex[code])))
    else Err(UnknownFormatCode(code))
  }

  /** Puts `done` in front of the runs of a successful result. */
  function Prefixed(done: seq<Component>, r: Result<seq<Component>, DecodeError>): Result<seq<Component>, DecodeError> {
    match r
    case Ok(runs) => Ok(done + runs)
    case Err(e) => Err(e)
  }

  lemma PrefixedTwice(a: seq<Component>, b: seq<Component>, r: Result<seq<Component>, DecodeError>)
    ensures Prefixed(a, Prefixed(b, r)) == Prefixed(a + b, r)
  {
    if r.Ok? {
      assert a + (b + r.value) == (a + b) + r.value;
    }
  }

  /**
   * Scans `rest` with running state `st` and text buffer `txt`. The first
   * run it emits carries `st` and begins with `txt`.
   */
  function Scan(rest: string, st: FormatState, txt: string): (r: Result<seq<Component>, DecodeError>)
    ensures r.Ok? ==> |r.value| >= 1 && StateOf(r.value[0]) == st && txt <= r.value[0].text
    decreases |rest|
  {
    if rest == [] then Ok([Snapshot(txt, st)])
    else if rest[0] != Marker then Scan(rest[1..], st, txt + [rest[0]])
    else if |rest| == 1 then Err(TruncatedFormatCode)
    else match ApplyCode(st, rest[1])
      case Err(e) => Err(e)
      case Ok(next) => Prefixed([Snapshot(txt, st)], Scan(rest[2..], next, []))
  }

  /** The runs of a legacy-formatted string, or why it has none. */
  function Decode(s: string): (r: Result<seq<Component>, DecodeError>)
    ensures r.Ok? ==> |r.value| >= 1 && StateOf(r.value[0]) == InitialState
  {
    Scan(s, InitialState, [])
  }

  /**
   * The decoder as a loop: separate state variables, a `styleChange` flag
   * that makes a style code skip the colour lookup, and an index that
   * advances past the code after each marker.
   */
  method ConvertOldFormatToComponents(text: string) returns (r: Result<seq<Component>, DecodeError>)
    ensures r == Decode(text)
  {
    var components: seq<Component> := [];
    var bold: Option<bool> := None;
    var italic: Option<bool> := None;
    var strikethrough: Option<bool> := None;
    var obfuscated: Option<bool> := None;
    var underlined: Option<bool> := None;
    var color: Option<string> := Some(White);
    var styleChange := false;
    var txt: string := [];
    var i := 0;
    assert text[i..] == text;
    assert Prefixed([], Decode(text)) == Decode(text) by {
      if Decode(text).Ok? { assert [] + Decode(text).value == Decode(text).value; }
    }
    while true
      invariant 0 <= i <= |text|
      invariant !styleChange
      invariant Decode(text) == Prefixed(components,
        Scan(text[i..], FormatState(bold, italic, underlined, strikethrough, obfuscated, color), txt))
      decreases |text| - i
    {
      if i == |text| {
        components := components + [Component(txt, color, bold, italic, underlined, strikethrough, obfuscated)];
        break;
      }
      var ch := text[i];
      ghost var st := FormatState(bold, italic, underlined, strikethrough, obfuscated, color);
      ghost var rest := text[i..];
      i := i + 1;
      if ch == Marker {
        if i == |text| {
          return Err(TruncatedFormatCode);
        }
        var specifier := text[i];
        i := i + 1;
        assert rest[2..] == text[i..];
        ghost var oldComponents, oldTxt := components, txt;
        components := components + [Component(txt, color, bold, italic, underlined, strikethrough, obfuscated)];
        if specifier == 'l' {
          bold := Some(true);
          styleChange := true;
        }
        if specifier == 'k' {
          obfuscated := Some(true);
          styleChange := true;
        }
        if specifier == 'm' {
          strikethrough := Some(true);
          styleChange := true;
        }
        if specifier == 'n' {
          underlined := Some(true);
          styleChange := true;
        }
        if specifier == 'o' {
          italic := Some(true);
          styleChange := true;
        }
        txt := [];
        if specifier == ResetCode {
          bold, italic, strikethrough, obfuscated, underlined := None, None, None, None, None;
          color := Some(White);
          styleChange := true;
        }
        if !styleChange {
          if specifier !in ColorIndex {
            return Err(UnknownFormatCode(specifier));
          }
          color := Some(ColorIndex[specifier]);
        } else {
          styleChange := false;
        }
        assert ApplyCode(st, specifier) == Ok(FormatState(bold, italic, underlined, strikethrough, obfuscated, color));
        PrefixedTwice(oldComponents, [Snapshot(oldTxt, st)], Scan(text[i..], FormatState(bold, italic, underlined, strikethrough, obfuscated, color), []));
        continue;
      }
      assert rest[1..] == text[i..];
      txt := txt + [ch];
    }
    r := Ok(components);
  }
}
