/** The filter fields of the command-line arguments (`Args` in src/main.rs). */
module Args {

  /**
   * `charCounts` and the `minChars`/`maxChars` bounds are mutually exclusive on the
   * command line; the parser consults the bounds only when `charCounts` is empty.
   */
  datatype FilterArgs = FilterArgs(
    charCounts: seq<nat>,
    keepNumbers: bool,
    maxChars: nat,
    minChars: nat,
    onlyWholeWords: bool)

  /** The defaults of the command line: no length list, numbers dropped, 0..45 bytes, any word shape. */
  function Defaults(): FilterArgs {
    FilterArgs([], false, 45, 0, false)
  }
}
