/**
 * The two fixed tables of the legacy format: colour name to HTML hex value,
 * and colour code character to colour name.
 */
module Tables {

  /** Colour name to the hex value written into HTML. */
  const ColorMap: map<string, string> := map[
    "black" := "#000000",
    "dark_blue" := "#0000aa",
    "dark_green" := "#00aa00",
    "dark_aqua" := "#00aaaa",
    "dark_red" := "#aa0000",
    "dark_purple" := "#aa00aa",
    "gold" := "#ffaa00",
    "gray" := "#aaaaaa",
    "dark_gray" := "#555555",
    "blue" := "#5555ff",
    "green" := "#55ff55",
    "aqua" := "#55ffff",
    "red" := "#ff5555",
    "light_purple" := "#ff55ff",
    "yellow" := "#ffff55",
    "white" := "#ffffff"
  ]

  /** Legacy colour code (the character after the marker) to colour name. */
  const ColorIndex: map<char, string> := map[
    '0' := "black",
    '1' := "dark_blue",
    '2' := "dark_green",
    '3' := "dark_aqua",
    '4' := "dark_red",
    '5' := "dark_purple",
    '6' := "gold",
    '7' := "gray",
    '8' := "dark_gray",
    '9' := "blue",
    'a' := "green",
    'b' := "aqua",
    'c' := "red",
    'd' := "light_purple",
    'e' := "yellow",
    'f' := "white"
  ]

  /** The colour a decode starts with and a reset returns to. */
  const White: string := "white"

  predicate IsHexDigit(c: char) {
    '0' <= c <= '9' || 'a' <= c <= 'f'
  }

  /** A `#rrggbb` value in lower-case hex digits. */
  predicate IsHexColour(v: string) {
    |v| == 7 && v[0] == '#' && forall i :: 1 <= i < 7 ==> IsHexDigit(v[i])
  }

  /** The colour codes are exactly the sixteen lower-case hex digits. */
  lemma ColorCodesAreHexDigits()
    ensures forall c :: c in ColorIndex <==> IsHexDigit(c)
  {
  }

  /** Every name a colour code yields has a hex value, and white is code `f`. */
  lemma IndexedNamesHaveHex()
    ensures forall c :: c in ColorIndex ==> ColorIndex[c] in ColorMap
    ensures 'f' in ColorIndex && ColorIndex['f'] == White
  {
  }

  /** Every hex value in the colour table is a well-formed `#rrggbb`. */
  lemma HexValuesAreHexColours()
    ensures forall n :: n in ColorMap ==> IsHexColour(ColorMap[n])
  {
  }
}
