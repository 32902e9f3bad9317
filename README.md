# tear: legacy MOTD decoding and rendering, in Dafny

`tear` queries a Minecraft server and turns its message of the day (MOTD)
into two strings: an HTML fragment and plain text. This project models the
part of `src/main.rs` that does this work:

- **The colour tables.** `COLOR_MAP` maps the 16 colour names to `#rrggbb`.
  `COLOR_INDEX` maps the code characters `0`-`9` and `a`-`f` to those names.
- **The legacy decoder** `convert_old_format_to_components`.
  - It cuts a string into styled runs at every `§` marker followed by a
    one-character code.
  - Each run carries a text, a colour and five optional style flags: bold,
    italic, underlined, strikethrough and obfuscated.
- **The two renderers.**
  - `generate_html` wraps each run in one `<span>` per active attribute and
    escapes its text.
  - `generate_clean` joins the run texts.
- **The compositions** `process_motd` and `process_legacy_motd`. They store
  both renderings on the `Server`.

Files:

- `components.dfy`: the run type `Component`, with `Option`, `Result` and
  the decoder's two failure kinds.
- `tables.dfy`: the two colour tables as constant maps, and facts about them.
- `decoder.dfy`: the decoder.
  - `Decode` is the specification: a scan that threads an explicit
    `FormatState`.
  - `ApplyCode` is the effect of one code.
  - `ConvertOldFormatToComponents` is the source's loop. It keeps separate
    state variables and the `style_change` flag, and is proved equal to
    `Decode`.
- `decoder_lemmas.dfy`: reference definitions of a legacy string's parts.
  - `Strip` is the string without its markers and codes.
  - `Codes` are the codes after the markers.
  - `Segments` are the pieces of text between markers.
  - `WellFormed` holds when every marker is followed by a known code.
  - The decoder's promises are proved against these definitions.
- `renderer.dfy`: the specification of both renderings (`Html`, `Clean`),
  built from `Styles`, `Escape`, `OpenTags` and `Closes`.
- `html_reader.dfy`: an independent reader for the produced HTML (`Tokenize`).
  - It checks that the spans are well nested.
  - It checks that the HTML displays the plain rendering.
- `motd.dfy`: the `Server` class and the loops of `generate_html` and
  `generate_clean`, proved against `Html` and `Clean`, plus the
  decode-then-render lemmas.

A `§` at the end of the string, or a `§` followed by an unknown code, makes
the source panic (`unwrap` at `src/main.rs:113` and `src/main.rs:164`). The
model returns these as an explicit error instead (`TruncatedFormatCode`,
`UnknownFormatCode(c)`); the first malformed marker decides which one. The
test `c.to_string().contains("\n")` holds exactly when `c` is a line break,
and is modelled that way.

## Model

| member | source | states |
|---|---|---|
| Tables.ColorCodesAreHexDigits | src/main.rs:32-52 | the colour codes are exactly the sixteen characters `0`-`9`, `a`-`f` |
| Tables.IndexedNamesHaveHex | src/main.rs:11-52 | every name a colour code yields has a hex value in the colour table; code `f` is white |
| Tables.HexValuesAreHexColours | src/main.rs:11-31 | every value in the colour table is a `#` followed by six hex digits |
| LegacyDecoder.ApplyCode | src/main.rs:129-167 | a style code `l`/`k`/`m`/`n`/`o` sets exactly its own flag to true and keeps colour and the other flags; `r` gives white with no style; a colour code changes only the colour, to the indexed name; any other code fails as that unknown code |
| LegacyDecoder.Scan | src/main.rs:89-172 | a successful scan emits at least one run, and the first run carries the state and begins with the text the scan was given |
| LegacyDecoder.Decode | src/main.rs:74-88 | a successful decode has at least one run and the first is white and unstyled |
| LegacyDecoder.ConvertOldFormatToComponents | src/main.rs:74-175 | the loop over separate state variables with the style-change flag returns exactly `Decode` of its input, failures included |
| DecoderLemmas.DecodeSucceedsIffWellFormed | src/main.rs:109-164 | decoding succeeds if and only if every marker is followed by a known code |
| DecoderLemmas.DecodeFailsAtFirstBadMarker | src/main.rs:112-164 | decoding fails with error `e` if and only if the first malformed marker is final (truncated) or followed by the non-code that `e` names |
| DecoderLemmas.DecodeRunCount | src/main.rs:92-126 | the number of runs is the number of markers plus one |
| DecoderLemmas.DecodeCharacterized | src/main.rs:112-171 | run count is codes plus one; the first run is the initial state; each run's state is the previous run's state after the code between them, so a run is snapshotted before its closing code applies; run `k` holds the `k`-th text segment |
| DecoderLemmas.DecodedRunsReachable | src/main.rs:129-165 | no decoded flag is ever `Some(false)` and every colour is one of the sixteen names |
| DecoderLemmas.DecodeWithoutMarker | src/main.rs:89-107 | a string without a marker decodes to one white unstyled run holding the whole string |
| DecoderLemmas.DecodeEmptyString | src/main.rs:92-107 | the empty string still yields one empty white unstyled run |
| DecoderLemmas.DecodeLoneColourCode | src/main.rs:112-168 | `§c` yields two empty runs, a white one and a red one |
| DecoderLemmas.DecodeMalformedExamples | src/main.rs:113-164 | `a§` fails as truncated and `§z` as unknown code `z` |
| Renderer.ColorValue | src/main.rs:182-190 | a colour in the table is written as a `#rrggbb` hex colour, a colour outside it verbatim |
| Renderer.ColorValueIsTableValue | src/main.rs:185-187 | a colour in the table is written as exactly that colour's own table value, which is a `#rrggbb` hex colour |
| Renderer.Styles | src/main.rs:180-211 | the number of spans of a run is one for a set colour plus one per true bold, italic, underlined and strikethrough flag; obfuscation adds none |
| Renderer.BoldTagLiteral | src/main.rs:193-196 | the bold span is the source's literal tag |
| Renderer.ItalicTagLiteral | src/main.rs:198-201 | the italic span is the source's literal tag |
| Renderer.UnderlineTagLiteral | src/main.rs:203-206 | the underline span is the source's literal tag |
| Renderer.StrikethroughTagLiteral | src/main.rs:208-211 | the strikethrough span is the source's literal tag |
| Renderer.EscapeAppend | src/main.rs:213-225 | escaping works character by character: the escape of a concatenation is the concatenation of escapes |
| Renderer.EscapeKeepsPlainText | src/main.rs:222-224 | text without line breaks, spaces or angle brackets is written unchanged |
| Renderer.EscapeRemovesWhitespace | src/main.rs:214-217 | escaped text holds no raw space or line break |
| Renderer.HtmlAppend | src/main.rs:179-230 | runs are rendered independently: the HTML of two sequences joined is their HTMLs joined |
| Renderer.CleanAppend | src/main.rs:240-242 | the plain text of two sequences joined is their plain texts joined |
| HtmlReader.HtmlReadsBack | src/main.rs:177-230 | for runs whose text has no `&` (and whose colour value has no quote), the HTML reads back as each run's spans, escaped text and as many closing spans, is well nested, and displays exactly the plain rendering |
| HtmlReader.RunReads | src/main.rs:182-229 | one rendered run reads back as its opening spans, its text and exactly as many closing spans |
| HtmlReader.AmpersandIsNotEscaped | src/main.rs:213-225 | `&` passes through unescaped, so a run whose text is `&lt;` displays as `<` |
| Motd.Server.GenerateHtml | src/main.rs:177-232 | stores the HTML specification `Html` of the runs in the HTML field |
| Motd.OpenSpans | src/main.rs:180-211 | the opening tags of one run are the spans of its `Styles`, and the counter equals their number |
| Motd.OpenColorSpan | src/main.rs:182-191 | a run with a colour gets one colour span, written with the table's hex value or the name verbatim; a run without colour gets none |
| Motd.PushFlagSpan | src/main.rs:193-211 | a true style flag adds its span to the opened tags and one to the counter; any other value adds nothing |
| Motd.EscapeText | src/main.rs:213-225 | the per-character loop produces `Escape` of the text |
| Motd.CloseSpans | src/main.rs:227-229 | the closing loop writes exactly `spans` closing tags |
| Motd.Server.GenerateClean | src/main.rs:237-245 | stores the concatenated run texts `Clean` in the plain field |
| Motd.Server.ProcessMotd | src/main.rs:65-68 | sets both fields to the two renderings of the runs |
| Motd.Server.ProcessLegacyMotd | src/main.rs:70-72 | on a decodable string, stores the HTML of its runs and the string without markers and codes; otherwise reports the decode error and changes nothing |
| Motd.CleanOfDecodeIsStripped | src/main.rs:112-171 | the plain rendering of the decoded runs is the input with every marker and its code removed |
| Motd.DecodedColoursRenderAsHex | src/main.rs:164 | every decoded colour is in the colour table, so it renders as a `#rrggbb` value |
| Motd.LegacyHtmlShowsStrippedText | src/main.rs:70-72 | for an input without `&`, the HTML of the decoded runs is well nested and displays the input without markers and codes |

## Left out

- `main` (`src/main.rs:248-295`) is not part of this model. It is the async entry point and the network status query through an external crate.
- The `print!` at `src/main.rs:234` and the `println!` in `main` are console output. They are not modelled.
- The `address` and `port` fields of `Server` are only read by `main`. The class holds only the two MOTD fields.
- The `lazy_static` and `HashMap` machinery is not modelled. The tables are constant maps with the same sixteen entries.
- The external crate's component type has more fields. Only the fields the core reads or writes are modelled.
- Strings are sequences of characters. Rust's UTF-8 storage and `chars()` decoding are not modelled.
- Motd.Server.ProcessLegacyMotd: in the source, a malformed string panics and ends the program. The model returns the decode error and leaves the server unchanged.
- HtmlReader.HtmlReadsBack: the source writes `&` and `"` unescaped. The read-back guarantee therefore needs text without `&` and a colour value without `"`. `AmpersandIsNotEscaped` shows an input where it fails.
- The obfuscated flag is decoded and carried, but the HTML renderer ignores it, as in the source.
