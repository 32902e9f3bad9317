/**
 * What the legacy decoder promises, stated against reference definitions of
 * a legacy string's parts (its codes, the text between markers, the text
 * with every marker and code removed) and proved about `Decode`.
 */
module DecoderLemmas {
  import opened Components
  import opened Tables
  import opened LegacyDecoder

  /** The string with every marker and the code after it removed; a final lone marker is dropped. */
  function Strip(s: string): string
    decreases |s|
  {
    if s == [] then []
    else if s[0] != Marker then [s[0]] + Strip(s[1..])
    else if |s| == 1 then []
    else Strip(s[2..])
  }

  /** Every marker is followed by a code the decoder knows. */
  predicate WellFormed(s: string)
    decreases |s|
  {
    if s == [] then true
    else if s[0] != Marker then WellFormed(s[1..])
    else |s| >= 2 && IsCode(s[1]) && WellFormed(s[2..])
  }

  /** The codes that follow the markers, in order. */
  function Codes(s: string): seq<char>
    decreases |s|
  {
    if s == [] then []
    else if s[0] != Marker then Codes(s[1..])
    else if |s| == 1 then []
    else [s[1]] + Codes(s[2..])
  }

  /** The pieces of text before, between and after the marker-code pairs. */
  function Segments(s: string): (r: seq<string>)
    ensures |r| == |Codes(s)| + 1
    decreases |s|
  {
    if s == [] then [[]]
    else if s[0] != Marker then
      var tail := Segments(s[1..]);
      [[s[0]] + tail[0]] + tail[1..]
    else if |s| == 1 then [[]]
    else [[]] + Segments(s[2..])
  }

  /**
   * The marker at index `n` is the first malformed one: the text before it
   * is well formed, and either nothing follows it (a truncated code) or the
   * character after it is no code.
   */
  ghost predicate FirstBadMarker(s: string, n: nat, e: DecodeError) {
    && n < |s|
    && s[n] == Marker
    && WellFormed(s[..n])
    && if n + 1 == |s| then e == TruncatedFormatCode
       else !IsCode(s[n + 1]) && e == UnknownFormatCode(s[n + 1])
  }

  /** A style is either absent or set; the colour is one of the sixteen names. */
  predicate Reachable(st: FormatState) {
    && (st.bold == None || st.bold == Some(true))
    && (st.italic == None || st.italic == Some(true))
    && (st.underlined == None || st.underlined == Some(true))
    && (st.strikethrough == None || st.strikethrough == Some(true))
    && (st.obfuscated == None || st.obfuscated == Some(true))
    && st.color.Some? && st.color.value in ColorIndex.Values
  }

  lemma MarkerIsNoCode()
    ensures !IsCode(Marker)
  {
  }

  lemma {:induction false} ScanSucceedsIffWellFormed(rest: string, st: FormatState, txt: string)
    ensures Scan(rest, st, txt).Ok? <==> WellFormed(rest)
    decreases |rest|
  {
    if rest == [] {
    } else if rest[0] != Marker {
      ScanSucceedsIffWellFormed(rest[1..], st, txt + [rest[0]]);
    } else if |rest| >= 2 && IsCode(rest[1]) {
      ScanSucceedsIffWellFormed(rest[2..], ApplyCode(st, rest[1]).value, []);
    }
  }

  /** A legacy string decodes exactly when every marker is followed by a known code. */
  lemma DecodeSucceedsIffWellFormed(s: string)
    ensures Decode(s).Ok? <==> WellFormed(s)
  {
    ScanSucceedsIffWellFormed(s, InitialState, []);
  }

  lemma {:induction false} ScanFailsAtBadMarker(rest: string, st: FormatState, txt: string, n: nat, e: DecodeError)
    requires FirstBadMarker(rest, n, e)
    ensures Scan(rest, st, txt) == Err(e)
    decreases n
  {
    if n == 0 {
    } else if rest[0] != Marker {
      assert rest[..n][1..] == rest[1..][..n - 1];
      ScanFailsAtBadMarker(rest[1..], st, txt + [rest[0]], n - 1, e);
    } else {
      assert rest[..n][2..] == rest[2..][..n - 2];
      ScanFailsAtBadMarker(rest[2..], ApplyCode(st, rest[1]).value, [], n - 2, e);
    }
  }

  lemma {:induction false} ScanErrorHasBadMarker(rest: string, st: FormatState, txt: string, e: DecodeError)
    requires Scan(rest, st, txt) == Err(e)
    ensures exists n :: FirstBadMarker(rest, n, e)
    decreases |rest|
  {
    if rest[0] != Marker {
      ScanErrorHasBadMarker(rest[1..], st, txt + [rest[0]], e);
      var m: nat :| FirstBadMarker(rest[1..], m, e);
      assert rest[..m + 1][1..] == rest[1..][..m];
      assert FirstBadMarker(rest, m + 1, e);
    } else if |rest| == 1 || !IsCode(rest[1]) {
      assert FirstBadMarker(rest, 0, e);
    } else {
      ScanErrorHasBadMarker(rest[2..], ApplyCode(st, rest[1]).value, [], e);
      var m: nat :| FirstBadMarker(rest[2..], m, e);
      assert rest[..m + 2][2..] == rest[2..][..m];
      assert FirstBadMarker(rest, m + 2, e);
    }
  }

  /**
   * Decoding fails with `e` exactly when the first malformed marker calls
   * for `e`: a final marker is a truncated code, a marker followed by a
   * character that is no code is that unknown code.
   */
  lemma DecodeFailsAtFirstBadMarker(s: string, e: DecodeError)
    ensures Decode(s) == Err(e) <==> exists n :: FirstBadMarker(s, n, e)
  {
    if Decode(s) == Err(e) {
      ScanErrorHasBadMarker(s, InitialState, [], e);
    }
    if n :| FirstBadMarker(s, n, e) {
      ScanFailsAtBadMarker(s, InitialState, [], n, e);
    }
  }

  lemma {:induction false} ScanRunCount(rest: string, st: FormatState, txt: string, runs: seq<Component>)
    requires Scan(rest, st, txt) == Ok(runs)
    ensures |runs| == multiset(rest)[Marker] + 1
    decreases |rest|
  {
    if rest == [] {
    } else if rest[0] != Marker {
      ScanRunCount(rest[1..], st, txt + [rest[0]], runs);
      assert rest == [rest[0]] + rest[1..];
    } else {
      var next := ApplyCode(st, rest[1]).value;
      var tail := Scan(rest[2..], next, []).value;
      ScanRunCount(rest[2..], next, [], tail);
      MarkerIsNoCode();
      assert rest == [rest[0], rest[1]] + rest[2..];
    }
  }

  /** One run per marker, plus the final run. */
  lemma DecodeRunCount(s: string, runs: seq<Component>)
    requires Decode(s) == Ok(runs)
    ensures |runs| == multiset(s)[Marker] + 1
  {
    ScanRunCount(s, InitialState, [], runs);
  }

  lemma {:induction false} ScanStates(rest: string, st: FormatState, txt: string, runs: seq<Component>)
    requires Scan(rest, st, txt) == Ok(runs)
    ensures |runs| == |Codes(rest)| + 1
    ensures forall k :: 0 <= k < |runs| - 1 ==>
      ApplyCode(StateOf(runs[k]), Codes(rest)[k]) == Ok(StateOf(runs[k + 1]))
    decreases |rest|
  {
    if rest == [] {
    } else if rest[0] != Marker {
      ScanStates(rest[1..], st, txt + [rest[0]], runs);
    } else {
      var next := ApplyCode(st, rest[1]).value;
      var tail := Scan(rest[2..], next, []).value;
      ScanStates(rest[2..], next, [], tail);
      assert runs == [Snapshot(txt, st)] + tail;
      forall k | 0 <= k < |runs| - 1
        ensures ApplyCode(StateOf(runs[k]), Codes(rest)[k]) == Ok(StateOf(runs[k + 1]))
      {
        if k > 0 {
          assert runs[k] == tail[k - 1] && runs[k + 1] == tail[k];
        }
      }
    }
  }

  lemma {:induction false} ScanTexts(rest: string, st: FormatState, txt: string, runs: seq<Component>)
    requires Scan(rest, st, txt) == Ok(runs)
    ensures |runs| == |Segments(rest)|
    ensures runs[0].text == txt + Segments(rest)[0]
    ensures forall k :: 1 <= k < |runs| ==> runs[k].text == Segments(rest)[k]
    decreases |rest|
  {
    ScanStates(rest, st, txt, runs);
    if rest == [] {
    } else if rest[0] != Marker {
      ScanTexts(rest[1..], st, txt + [rest[0]], runs);
      var tail := Segments(rest[1..]);
      assert txt + [rest[0]] + tail[0] == txt + ([rest[0]] + tail[0]);
    } else {
      var next := ApplyCode(st, rest[1]).value;
      var tail := Scan(rest[2..], next, []).value;
      ScanTexts(rest[2..], next, [], tail);
      assert runs == [Snapshot(txt, st)] + tail;
      assert txt + [] == txt;
      forall k | 1 <= k < |runs|
        ensures runs[k].text == Segments(rest)[k]
      {
        assert runs[k] == tail[k - 1];
        if k == 1 {
          assert [] + Segments(rest[2..])[0] == Segments(rest[2..])[0];
        }
      }
    }
  }

  /**
   * The runs of a legacy string, completely: the first carries the initial
   * state (white, no style) even when the string begins with a marker;
   * each later run carries the state of the one before with the code
   * between them applied; run `k` holds the `k`-th piece of text between
   * markers.
   */
  lemma DecodeCharacterized(s: string, runs: seq<Component>)
    requires Decode(s) == Ok(runs)
    ensures |runs| == |Codes(s)| + 1 == |Segments(s)|
    ensures StateOf(runs[0]) == InitialState
    ensures forall k :: 0 <= k < |runs| - 1 ==>
      ApplyCode(StateOf(runs[k]), Codes(s)[k]) == Ok(StateOf(runs[k + 1]))
    ensures forall k :: 0 <= k < |runs| ==> runs[k].text == Segments(s)[k]
  {
    ScanStates(s, InitialState, [], runs);
    ScanTexts(s, InitialState, [], runs);
    assert [] + Segments(s)[0] == Segments(s)[0];
  }

  lemma {:induction false} ScanReachable(rest: string, st: FormatState, txt: string, runs: seq<Component>)
    requires Reachable(st)
    requires Scan(rest, st, txt) == Ok(runs)
    ensures forall k :: 0 <= k < |runs| ==> Reachable(StateOf(runs[k]))
    decreases |rest|
  {
    if rest == [] {
    } else if rest[0] != Marker {
      ScanReachable(rest[1..], st, txt + [rest[0]], runs);
    } else {
      var next := ApplyCode(st, rest[1]).value;
      assert ColorIndex['f'] == White;
      assert Reachable(next);
      var tail := Scan(rest[2..], next, []).value;
      ScanReachable(rest[2..], next, [], tail);
      assert runs == [Snapshot(txt, st)] + tail;
      forall k | 1 <= k < |runs|
        ensures Reachable(StateOf(runs[k]))
      {
        assert runs[k] == tail[k - 1];
      }
    }
  }

  /**
   * The decoder never sets a style to false, and every run's colour is one
   * of the sixteen colour names.
   */
  lemma DecodedRunsReachable(s: string, runs: seq<Component>)
    requires Decode(s) == Ok(runs)
    ensures forall k :: 0 <= k < |runs| ==> Reachable(StateOf(runs[k]))
  {
    assert ColorIndex['f'] == White;
    ScanReachable(s, InitialState, [], runs);
  }

  lemma {:induction false} ScanWithoutMarker(rest: string, st: FormatState, txt: string)
    requires Marker !in rest
    ensures Scan(rest, st, txt) == Ok([Snapshot(txt + rest, st)])
    decreases |rest|
  {
    if rest == [] {
      assert txt + rest == txt;
    } else {
      assert rest[0] != Marker;
      ScanWithoutMarker(rest[1..], st, txt + [rest[0]]);
      assert txt + [rest[0]] + rest[1..] == txt + rest;
    }
  }

  /** A string without a marker is one white, unstyled run holding the whole string. */
  lemma DecodeWithoutMarker(s: string)
    requires Marker !in s
    ensures Decode(s) == Ok([Component(s, Some(White), None, None, None, None, None)])
  {
    ScanWithoutMarker(s, InitialState, []);
    assert [] + s == s;
  }

  /** An empty string still yields one run: empty, white and unstyled. */
  lemma DecodeEmptyString()
    ensures Decode("") == Ok([Component("", Some(White), None, None, None, None, None)])
  {
  }

  /** A lone colour code yields two empty runs: the white one it closes, then a red one. */
  lemma DecodeLoneColourCode()
    ensures Decode("§c") == Ok([
      Component("", Some(White), None, None, None, None, None),
      Component("", Some("red"), None, None, None, None, None)])
  {
    var s := "§c";
    var red := InitialState.(color := Some("red"));
    assert s[0] == Marker && s[1] == 'c' && s[2..] == [];
    assert ColorIndex['c'] == "red";
    assert ApplyCode(InitialState, 'c') == Ok(red);
    assert Scan(s[2..], red, []) == Ok([Snapshot([], red)]);
    assert Scan(s, InitialState, []) == Prefixed([Snapshot([], InitialState)], Scan(s[2..], red, []));
    assert Snapshot([], InitialState) == Component("", Some(White), None, None, None, None, None);
    assert Snapshot([], red) == Component("", Some("red"), None, None, None, None, None);
    assert [Snapshot([], InitialState)] + [Snapshot([], red)] == [Snapshot([], InitialState), Snapshot([], red)];
  }

  /** A marker at the very end, and a marker before an unknown code, are failures. */
  lemma DecodeMalformedExamples()
    ensures Decode("a§") == Err(TruncatedFormatCode)
    ensures Decode("§z") == Err(UnknownFormatCode('z'))
  {
    assert "a§"[1..] == "§";
  }
}
