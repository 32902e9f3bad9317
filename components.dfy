/**
 * The values exchanged between the legacy decoder and the renderers:
 * optional values, results with an error, and the styled text run
 * (a server-description component reduced to the fields the core uses).
 */
module Components {

  datatype Option<+T> = None | Some(value: T)

  datatype Result<+T, +E> = Ok(value: T) | Err(error: E)

  /** Why a legacy-formatted string cannot be decoded. */
  datatype DecodeError =
    | TruncatedFormatCode          // the marker is the last character: no code follows it
    | UnknownFormatCode(code: char) // the marker is followed by a character that is no code

  /**
   * One run of text sharing one format. `color` is a colour name (or any
   * string, when the run did not come from the legacy decoder); each style
   * is unset, set to true, or (only in runs built elsewhere) set to false.
   */
  datatype Component = Component(
    text: string,
    color: Option<string>,
    bold: Option<bool>,
    italic: Option<bool>,
    underlined: Option<bool>,
    strikethrough: Option<bool>,
    obfuscated: Option<bool>)
}
