/**
 * The settings of an `HtmlCompressor` (HtmlCompressor.java lines 39-56):
 * which rewrites of the markup run, whether `<script>` and `<style>`
 * bodies go through the YUI minifier, and the options handed to it.
 */
module Settings {
  /** Java's `int`. */
  newtype int32 = x: int | -0x8000_0000 <= x < 0x8000_0000

  datatype Config = Config(
    enabled: bool,
    removeComments: bool,
    removeMultiSpaces: bool,
    removeIntertagSpaces: bool,
    removeQuotes: bool,
    compressJavaScript: bool,
    compressCss: bool,
    yuiJsNoMunge: bool,
    yuiJsPreserveAllSemiColons: bool,
    yuiJsDisableOptimizations: bool,
    yuiJsLineBreak: int32,
    yuiCssLineBreak: int32)

  /**
   * A new compressor: enabled, removing comments and runs of whitespace,
   * nothing else; no line breaks in minified code.
   */
  const Default: Config := Config(true, true, true, false, false, false, false, false, false, false, -1, -1)
}
