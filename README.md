# HtmlCompressor: block preservation, markup rewriting and minification

This project models the core of `HtmlCompressor.compress` from the
htmlcompressor library, as bundled in jspcompressor, and proves properties of it.
`compress` works in five steps:

1. It takes five kinds of block out of the page: `<pre>`, `<script>`,
   `<style>`, JSP scriptlets `<% … %>` and `<textarea>`. Each block is
   replaced by a numbered placeholder such as `%%%COMPRESS~SCRIPT~0%%%`.
2. It rewrites the markup that is left. It removes HTML and JSP comments,
   removes whitespace between tags, collapses runs of whitespace and drops
   the quotes around simple attribute values. Each rewrite runs only when
   its setting is on.
3. It runs the body of every stored script and style block through YUI's
   minifier, when that is switched on.
4. It puts the blocks back in place of their placeholders.
5. It trims the result.

Modules, one concern each:

- `Outcomes`: `Option`, `Result` and the exceptions that can escape `compress`.
- `Chars`: character classes, ASCII case folding, `Integer.parseInt`, `Integer.toString` and `String.trim`.
- `Patterns`: one scanner per regular expression of the class. Each scanner says whether and where the expression matches at the start of a text.
- `Rewriting`: the `find`/`appendReplacement`/`appendTail` loop.
  - `ReplaceAll` is its specification.
  - `ReplaceEach` is the loop.
  - `MatchedTexts` lists what the loop collects.
- `Blocks`: one preserve pass and one return pass, and their round trip.
- `BlockPasses`: `preserveBlocks` and `returnBlocks` as chains of five passes.
- `OrderFinding`: two concrete inputs on which the return order as written fails.
- `HtmlPasses`: `processHtml`.
- `Minify`: `processScriptBlocks`, `processStyleBlocks`, `compressJavaScript` and `compressCssStyles`.
- `Settings`: the configuration record.
- `Compressor`: the `HtmlCompressor` class, its setters and `compress`. `CompressOf` is the function that specifies `compress`, with the return passes as written; `CorrectedCompressOf` runs them in the reverse of the extraction order.

All source paths below are relative to the repository root. `HC` stands for
`src/com/googlecode/htmlcompressor/compressor/HtmlCompressor.java` in the
prose. The table cites the full path.

## Model

| member | source | states |
|---|---|---|
| Chars.DecimalString | src/com/googlecode/htmlcompressor/compressor/HtmlCompressor.java:129 | `Integer.toString` of a block index is a non-empty string of digits whose decimal value is the index |
| Chars.ParseIntOfDecimalString | src/com/googlecode/htmlcompressor/compressor/HtmlCompressor.java:187 | parsing the digits written for an index that fits an `int` gives back that index |
| Chars.TrimStart | src/com/googlecode/htmlcompressor/compressor/HtmlCompressor.java:119 | `trim` drops exactly the leading characters up to U+0020: what is kept is a suffix, begins with a character above U+0020, and all that is dropped is at or below it |
| Chars.TrimEnd | src/com/googlecode/htmlcompressor/compressor/HtmlCompressor.java:119 | the same at the end of the text |
| Chars.TrimIsTrimmed | src/com/googlecode/htmlcompressor/compressor/HtmlCompressor.java:119 | the result of `trim` begins and ends with a character above U+0020, or is empty |
| Chars.TrimOfTrimmed | src/com/googlecode/htmlcompressor/compressor/HtmlCompressor.java:119 | `trim` leaves an already trimmed text as it is |
| Patterns.ElementAt | src/com/googlecode/htmlcompressor/compressor/HtmlCompressor.java:70-76 | `<name[^>]*?>(.*?)</name>`, ignoring case (`(.+?)` for the non-empty variants): a match is reported exactly when one exists; the reported match has the earliest closing tag; its group is the body |
| Patterns.JspAt | src/com/googlecode/htmlcompressor/compressor/HtmlCompressor.java:77 | `<%[^-=@](.+?)%>`: the third character is none of `-`, `=`, `@`, and the match ends at the first `%>` after a non-empty body; without such a close there is no match |
| Patterns.CommentAt | src/com/googlecode/htmlcompressor/compressor/HtmlCompressor.java:66 | `<!--[^\[].*?-->`: a comment whose fifth character is not `[`, up to the first `-->` after it; no match exactly when there is none |
| Patterns.JspCommentAt | src/com/googlecode/htmlcompressor/compressor/HtmlCompressor.java:67 | `<%--.+?--%>`: up to the first `--%>` after a non-empty body; no match exactly when there is none |
| Patterns.IntertagAt | src/com/googlecode/htmlcompressor/compressor/HtmlCompressor.java:68 | `>\s+?<`: `>`, one or more whitespace characters, `<`; the match is the only one possible |
| Patterns.MultiSpaceAt | src/com/googlecode/htmlcompressor/compressor/HtmlCompressor.java:69 | `\s{2,}` matches exactly when the text begins with two whitespace characters, and takes the whole run |
| Patterns.LookaheadCloses | src/com/googlecode/htmlcompressor/compressor/HtmlCompressor.java:72 | the lookahead `(?=[^<]*?>)` holds exactly when a `>` comes before any `<` |
| Patterns.TagQuoteAtMatches | src/com/googlecode/htmlcompressor/compressor/HtmlCompressor.java:72 | the quoted-value scanner reports a match of `\s*=\s*(["'])([a-z0-9-_]+?)\1(?=[^<]*?>)` exactly when one exists, and it is the only one; the group is the value |
| Patterns.PlaceholderAtMatches | src/com/googlecode/htmlcompressor/compressor/HtmlCompressor.java:79-83 | `%%%COMPRESS~CAT~(\d+?)%%%`, ignoring case: a match is reported exactly when one exists, and it is the only one; the group is the digits |
| Rewriting.Find | src/com/googlecode/htmlcompressor/compressor/HtmlCompressor.java:127 | `Matcher.find` gives the leftmost position where the pattern matches, with no match before it, or nothing when it matches nowhere |
| Rewriting.ReplaceEach | src/com/googlecode/htmlcompressor/compressor/HtmlCompressor.java:124-132 | the `find`/`appendReplacement`/`appendTail` loop computes `ReplaceAll` and collects the matched texts in order |
| Rewriting.NoMatchIdentity | src/com/googlecode/htmlcompressor/compressor/HtmlCompressor.java:131 | with no match anywhere the loop returns the text unchanged and collects nothing |
| Blocks.PreserveCategory | src/com/googlecode/htmlcompressor/compressor/HtmlCompressor.java:124-132 | one preserve loop yields the text with every block replaced by its placeholder, and the blocks in the order found |
| Blocks.RestoreCategory | src/com/googlecode/htmlcompressor/compressor/HtmlCompressor.java:184-190 | one return loop replaces every placeholder by the stored block it numbers, or throws |
| Blocks.RoundTrip | src/com/googlecode/htmlcompressor/compressor/HtmlCompressor.java:122-229 | for every category, the return pass undoes the preserve pass on any text that holds no placeholder head of that category, in either case, and fits a Java string |
| Blocks.ExtractNothing | src/com/googlecode/htmlcompressor/compressor/HtmlCompressor.java:124-132 | a text without the opening tag of a category is left as it is and nothing is stored |
| Blocks.RestoreNothing | src/com/googlecode/htmlcompressor/compressor/HtmlCompressor.java:184-190 | a text without a placeholder head of a category is left as it is by that return pass |
| Blocks.RestoreOne | src/com/googlecode/htmlcompressor/compressor/HtmlCompressor.java:187 | the first placeholder is replaced by the stored block its digits number, verbatim (`quoteReplacement`), and the text before it is copied |
| Blocks.RestoreMissing | src/com/googlecode/htmlcompressor/compressor/HtmlCompressor.java:187 | a placeholder number beyond the stored list makes the return pass throw: `IndexOutOfBoundsException` when the number fits an `int`, `NumberFormatException` when it does not |
| BlockPasses.PreserveBlocks | src/com/googlecode/htmlcompressor/compressor/HtmlCompressor.java:122-180 | `preserveBlocks` runs the pre, script, style, JSP and textarea passes in that order, each over the text the one before left, into five new lists |
| BlockPasses.ChainOfFive | src/com/googlecode/htmlcompressor/compressor/HtmlCompressor.java:122-180 | the five lists are exactly what the five passes collect, in the extraction order, each numbered from 0 |
| BlockPasses.ReturnBlocks | src/com/googlecode/htmlcompressor/compressor/HtmlCompressor.java:182-229 | `returnBlocks` runs the textarea, style, JSP, script and pre passes, in that order as written, each over the text the one before gave; the first exception ends it |
| BlockPasses.ReversedExtractOrder | src/com/googlecode/htmlcompressor/compressor/HtmlCompressor.java:122-229 | the corrected return order (textarea, JSP, style, script, pre) is the extraction order reversed |
| BlockPasses.ReversedSwappedOrder | src/com/googlecode/htmlcompressor/compressor/HtmlCompressor.java:182-229 | the return order as written is the reverse of the extraction order with the style and JSP passes swapped |
| BlockPasses.SourceOrderRoundTrip | src/com/googlecode/htmlcompressor/compressor/HtmlCompressor.java:122-229 | `returnBlocks` as written undoes `preserveBlocks` on every text that taking the JSP blocks out before the style blocks would leave with the same text and lists, and on which no pass of that swapped order meets a placeholder head it did not write |
| BlockPasses.PreserveThenReturn | src/com/googlecode/htmlcompressor/compressor/HtmlCompressor.java:122-229 | return passes in the reverse of the extraction order give back the original text, provided no preserve pass meets a placeholder head it did not write |
| BlockPasses.TextAreaFailsFirst | src/com/googlecode/htmlcompressor/compressor/HtmlCompressor.java:183-190 | a failure of the textarea pass, the first pass, is the failure of `returnBlocks` in either order |
| BlockPasses.ReturnMissing | src/com/googlecode/htmlcompressor/compressor/HtmlCompressor.java:187 | a textarea placeholder numbering no stored block makes `returnBlocks` throw, in either order |
| BlockPasses.UntouchedWithoutTags | src/com/googlecode/htmlcompressor/compressor/HtmlCompressor.java:122-180 | a text without `<` passes through `preserveBlocks` unchanged with all five lists empty |
| BlockPasses.PlaceholderInInput | src/com/googlecode/htmlcompressor/compressor/HtmlCompressor.java:182-229 | a placeholder written in the input itself survives `preserveBlocks` and then makes `returnBlocks` throw |
| OrderFinding.SourceOrderBreaksRoundTrip | src/com/googlecode/htmlcompressor/compressor/HtmlCompressor.java:192-208 | on `<%<style></style>%>`, a text the passes can take apart, the return order as written gives `<%%%%COMPRESS~STYLE~0%%%%>` rather than the input |
| OrderFinding.ReverseOrderRestores | src/com/googlecode/htmlcompressor/compressor/HtmlCompressor.java:192-208 | on the same blocks, the return passes in reverse give the input back |
| OrderFinding.CompressLeaksPlaceholder | src/com/googlecode/htmlcompressor/compressor/HtmlCompressor.java:94-120 | with the default settings `compress` turns `<%<style></style>%>` into `<%%%%COMPRESS~STYLE~0%%%%>`; with the return passes in reverse it gives the input back |
| OrderFinding.StraddlingPlaceholderThrows | src/com/googlecode/htmlcompressor/compressor/HtmlCompressor.java:192-208 | `<%ab%>COMPRESS~STYLE~0%%%` passes every placeholder-head check and its JSP block holds no style placeholder head, yet `compress` as written throws under every enabled setting: the JSP placeholder's last `%%%` and the text after it read as a style placeholder with no stored block. With the return passes in reverse the input comes back |
| HtmlPasses.CommentsRemoved | src/com/googlecode/htmlcompressor/compressor/HtmlCompressor.java:233-236 | removing comments never lengthens the text, and changes it exactly when an HTML or a JSP comment occurs in it |
| HtmlPasses.ConditionalCommentsKept | src/com/googlecode/htmlcompressor/compressor/HtmlCompressor.java:234 | a text whose every `<!--` opens a conditional comment `<!--[` is left as it is by HTML comment removal |
| HtmlPasses.IntertagSpacesRemoved | src/com/googlecode/htmlcompressor/compressor/HtmlCompressor.java:239-241 | after the rewrite, no `>` is followed by whitespace and then `<`. Only whitespace is removed. The text changes exactly when such a gap exists |
| HtmlPasses.SpacesCollapsed | src/com/googlecode/htmlcompressor/compressor/HtmlCompressor.java:244-246 | afterwards no two whitespace characters are adjacent. Only whitespace is removed. The text changes exactly when two were adjacent. A second pass changes nothing |
| HtmlPasses.CollapseSpacesSqueezes | src/com/googlecode/htmlcompressor/compressor/HtmlCompressor.java:244-246 | collapsing whitespace runs equals an independent one-scan definition: two whitespace characters in a row merge into one space, which merges with the whitespace after it |
| HtmlPasses.QuotesRemoved | src/com/googlecode/htmlcompressor/compressor/HtmlCompressor.java:249-251 | the rewrite removes only whitespace and quotes, never lengthens the text, and changes it exactly when a quoted simple value followed by `>` occurs |
| HtmlPasses.QuoteUnquoted | src/com/googlecode/htmlcompressor/compressor/HtmlCompressor.java:249-251 | at the first match of the quote pattern, the text before it stays, the spaces, `=`, spaces and quoted value become `=` and the value without its quotes (`=$2`), and the pass carries on after the closing quote |
| HtmlPasses.ProcessHtmlShortens | src/com/googlecode/htmlcompressor/compressor/HtmlCompressor.java:231-254 | whatever the settings, `processHtml` never lengthens the text |
| HtmlPasses.ProcessHtmlKeepsMarkup | src/com/googlecode/htmlcompressor/compressor/HtmlCompressor.java:231-254 | with comment removal off, `processHtml` removes whitespace and quotes and nothing else; every other character stays, in order |
| HtmlPasses.InertUnprocessed | src/com/googlecode/htmlcompressor/compressor/HtmlCompressor.java:231-254 | a text without `<`, `>`, `=` and whitespace goes through `processHtml` unchanged, whatever the settings |
| Placeholders.RewriteKeepsPlaceholders | src/com/googlecode/htmlcompressor/compressor/HtmlCompressor.java:238-251 | a `replaceAll` whose every match and replacement open with a bracket, `=` or whitespace and hold no `%` keeps the placeholders of the text: the same texts, in the same order |
| Placeholders.PlaceholdersKept | src/com/googlecode/htmlcompressor/compressor/HtmlCompressor.java:231-254 | with comment removal off, `processHtml` keeps the placeholders of every category, the same texts in the same order, whatever the other settings |
| Placeholders.ExtractWritesTokens | src/com/googlecode/htmlcompressor/compressor/HtmlCompressor.java:122-180 | a preserve pass writes the placeholders of its category numbered 0, 1, 2, ..., one per stored block, in order, and no other |
| Placeholders.RestoreInOrder | src/com/googlecode/htmlcompressor/compressor/HtmlCompressor.java:183-190 | a return pass over a text holding exactly the placeholders its preserve pass wrote succeeds and puts the `k`-th stored block verbatim in place of the `k`-th placeholder |
| Minify.CompressEach | src/com/googlecode/htmlcompressor/compressor/HtmlCompressor.java:258-260 | compressing a list succeeds exactly when every block does. The result has one entry per block, each that block's compressed form. Otherwise the error is that of the first block that fails |
| Minify.FailsEarly | src/com/googlecode/htmlcompressor/compressor/HtmlCompressor.java:258-260 | a failure among the first blocks is the failure of the whole list; later blocks are never reached |
| Minify.ProcessBlocks | src/com/googlecode/htmlcompressor/compressor/HtmlCompressor.java:256-270 | switched off, the list is left untouched; switched on, each entry is replaced in place by its compressed form, keeping the length, or the first failure is returned |
| Minify.ProcessScriptBlocks | src/com/googlecode/htmlcompressor/compressor/HtmlCompressor.java:256-262 | `processScriptBlocks`: the loop above, guarded by `compressJavaScript`, with `compressJavaScript(String)` as the step |
| Minify.ProcessStyleBlocks | src/com/googlecode/htmlcompressor/compressor/HtmlCompressor.java:264-270 | `processStyleBlocks`: the loop above, guarded by `compressCss`, with `compressCssStyles` as the step |
| Minify.BlocksAreWhole | src/com/googlecode/htmlcompressor/compressor/HtmlCompressor.java:135-154 | every block the script or style pattern collects is one whole element: the pattern, tried on the block, matches all of it |
| Minify.NonEmptySameSpan | src/com/googlecode/htmlcompressor/compressor/HtmlCompressor.java:73-76 | on a whole element with a non-empty body, the non-empty pattern finds the same element and the same body as the block pattern |
| Minify.BodyReplaced | src/com/googlecode/htmlcompressor/compressor/HtmlCompressor.java:272-311 | in a whole element with a non-empty body, only the body is replaced by what the minifier makes of it; the opening and closing tags stay, and a minifier failure is the result |
| Minify.EmptyBodyKept | src/com/googlecode/htmlcompressor/compressor/HtmlCompressor.java:290-291 | a whole element with an empty body is returned unchanged and the minifier is not called |
| Minify.IdentityMinifierKeeps | src/com/googlecode/htmlcompressor/compressor/HtmlCompressor.java:272-311 | a minifier that returns every body unchanged leaves every text unchanged |
| Minify.ScriptBodyMinified | src/com/googlecode/htmlcompressor/compressor/HtmlCompressor.java:285-288 | the script body goes to the JavaScript minifier with the line break, munging unless `yuiJsNoMunge`, verbosity off, and the semicolon and optimisation switches as set |
| Minify.StyleBodyMinified | src/com/googlecode/htmlcompressor/compressor/HtmlCompressor.java:303-306 | the style body goes to the CSS minifier with the CSS line break |
| Compressor.CompressOf | src/com/googlecode/htmlcompressor/compressor/HtmlCompressor.java:94-120 | `compress` with the return passes as written: its input back when switched off or given the empty string; a successful result of an enabled compressor is trimmed |
| Compressor.CorrectedCompressOf | src/com/googlecode/htmlcompressor/compressor/HtmlCompressor.java:94-120 | the same for `compress` with the return passes in the reverse of the extraction order (see Findings) |
| Compressor.MinifyLists | src/com/googlecode/htmlcompressor/compressor/HtmlCompressor.java:113-114 | the script list is processed, then the style list, each in place; a script failure is thrown before any style is processed |
| Compressor.HtmlCompressor.Compress | src/com/googlecode/htmlcompressor/compressor/HtmlCompressor.java:94-120 | the steps of `compress` in the source's order, with `returnBlocks` as written, compute `CompressOf` of the current settings |
| Compressor.HtmlCompressor.constructor | src/com/googlecode/htmlcompressor/compressor/HtmlCompressor.java:39-56 | a new compressor is enabled, removes comments and runs of whitespace, does nothing else, and has line breaks of -1 |
| Compressor.HtmlCompressor.SetCompressJavaScript | src/com/googlecode/htmlcompressor/compressor/HtmlCompressor.java:338-340 | sets that switch and changes no other setting |
| Compressor.HtmlCompressor.SetCompressCss | src/com/googlecode/htmlcompressor/compressor/HtmlCompressor.java:367-369 | sets that switch and changes no other setting |
| Compressor.HtmlCompressor.SetYuiJsNoMunge | src/com/googlecode/htmlcompressor/compressor/HtmlCompressor.java:394-396 | sets that switch and changes no other setting |
| Compressor.HtmlCompressor.SetYuiJsPreserveAllSemiColons | src/com/googlecode/htmlcompressor/compressor/HtmlCompressor.java:422-424 | sets that switch and changes no other setting |
| Compressor.HtmlCompressor.SetYuiJsDisableOptimizations | src/com/googlecode/htmlcompressor/compressor/HtmlCompressor.java:451-453 | sets that switch and changes no other setting |
| Compressor.HtmlCompressor.SetYuiJsLineBreak | src/com/googlecode/htmlcompressor/compressor/HtmlCompressor.java:479-481 | sets the JavaScript line break, an `int`, and changes no other setting |
| Compressor.HtmlCompressor.SetYuiCssLineBreak | src/com/googlecode/htmlcompressor/compressor/HtmlCompressor.java:507-509 | sets the CSS line break, an `int`, and changes no other setting |
| Compressor.HtmlCompressor.SetRemoveQuotes | src/com/googlecode/htmlcompressor/compressor/HtmlCompressor.java:531-533 | sets that switch and changes no other setting |
| Compressor.HtmlCompressor.SetEnabled | src/com/googlecode/htmlcompressor/compressor/HtmlCompressor.java:550-552 | sets that switch and changes no other setting |
| Compressor.HtmlCompressor.SetRemoveComments | src/com/googlecode/htmlcompressor/compressor/HtmlCompressor.java:569-571 | sets that switch and changes no other setting |
| Compressor.HtmlCompressor.SetRemoveMultiSpaces | src/com/googlecode/htmlcompressor/compressor/HtmlCompressor.java:589-591 | sets that switch and changes no other setting |
| Compressor.HtmlCompressor.SetRemoveIntertagSpaces | src/com/googlecode/htmlcompressor/compressor/HtmlCompressor.java:612-614 | sets that switch and changes no other setting |
| Compressor.PlainCompress | src/com/googlecode/htmlcompressor/compressor/HtmlCompressor.java:94-120 | with every rewrite and both minifiers off, `compress` as written returns its input trimmed, blocks and all, on every input on which taking the JSP blocks out before the style blocks changes nothing and no pass of that swapped order meets a placeholder head it did not write |
| Compressor.CorrectedPlainCompress | src/com/googlecode/htmlcompressor/compressor/HtmlCompressor.java:94-120 | with the return passes in reverse, the same holds of every input on which no preserve pass meets a placeholder head it did not write |
| Compressor.MinifyingOff | src/com/googlecode/htmlcompressor/compressor/HtmlCompressor.java:256-270 | with both minifiers off, the stored lists reach `returnBlocks` unchanged |
| Compressor.MinifyingKeepsOthers | src/com/googlecode/htmlcompressor/compressor/HtmlCompressor.java:256-270 | the minifiers change only the script and style lists; the pre, JSP and textarea lists reach `returnBlocks` as stored |
| Compressor.ScriptBlocksWhole | src/com/googlecode/htmlcompressor/compressor/HtmlCompressor.java:135-143 | every block `compress` hands to the JavaScript step is one whole `<script>` element |
| Compressor.StyleBlocksWhole | src/com/googlecode/htmlcompressor/compressor/HtmlCompressor.java:146-154 | every block `compress` hands to the CSS step is one whole `<style>` element |
| Compressor.ScriptFailureFirst | src/com/googlecode/htmlcompressor/compressor/HtmlCompressor.java:113-114 | when a script block fails to minify, `compress` throws that failure, whatever the style blocks would do |
| Compressor.LiteralPlaceholderThrows | src/com/googlecode/htmlcompressor/compressor/HtmlCompressor.java:94-120 | an enabled compressor throws on input that is a `<textarea>` placeholder, under every setting |
| Compressor.TextAreasComeBack | src/com/googlecode/htmlcompressor/compressor/HtmlCompressor.java:105-120 | with comment removal off, whatever the other settings and minifiers, the first return pass meets exactly the `<textarea>` placeholders the preserve pass wrote, numbered in order, and puts each stored block back verbatim |

## Left out

- YUI's JavaScript and CSS compressors: not part of this model. They are parameters of `compress`: a function from a body and the options to the minified text or an error. That the options reach them is proved; what they do with a body is not modelled.
- General regular expressions: not modelled. Each of the class's patterns has its own scanner, proved to find exactly the matches of that pattern.
- Case-insensitive matching: only ASCII letters are folded. Java's `CASE_INSENSITIVE` flag without `UNICODE_CASE` does the same.
- `\s`: the six ASCII whitespace characters.
- `trim`: removes characters up to U+0020, as Java's `String.trim` does.
- `null` input: not modelled; a Dafny string cannot be null. The empty input is modelled.
- Getters of the settings: not modelled. `Configuration()` reads all settings at once.
- Thread safety and Java's `StringBuffer`/`StringBuilder`: not modelled. Texts are values.
- `CmdLineCompressor`: not part of this model. It reads files and command-line options and calls `compress`.
- Placeholder round trip: `Blocks.RoundTrip`, `BlockPasses.PreserveThenReturn` and `Compressor.PlainCompress` hold only for texts that contain no placeholder head of the category, in either case, at the pass in question. Input that contains such text is handled by the error lemmas (`BlockPasses.PlaceholderInInput`, `Compressor.LiteralPlaceholderThrows`), not by the round trip.

- Blocks coming back verbatim after `processHtml`: proved for the first return pass, `<textarea>` (`Compressor.TextAreasComeBack`). For the later passes the text also holds the restored blocks, which may themselves contain placeholder text, so the full chain is proved only with every rewrite off (`Compressor.PlainCompress`, `Compressor.CorrectedPlainCompress`).
- Comment removal: with it on, a placeholder inside an HTML or JSP comment is removed with the comment and its block is never returned. `Placeholders.PlaceholdersKept` and `Compressor.TextAreasComeBack` therefore require comment removal off.

## Findings

| source | as written | input that shows it | evidently intended | confidence | as-written member | corrected member |
|---|---|---|---|---|---|---|
| src/com/googlecode/htmlcompressor/compressor/HtmlCompressor.java:192-208 | `returnBlocks` puts the style blocks back before the JSP blocks, although `preserveBlocks` takes styles out before JSP. A style placeholder stored inside a JSP block is therefore never replaced, and the last `%%%` of a JSP placeholder can complete a style placeholder that no pass wrote | `<%<style></style>%>`: `compress` with the default settings gives `<%%%%COMPRESS~STYLE~0%%%%>`. `<%ab%>COMPRESS~STYLE~0%%%`: `compress` throws `IndexOutOfBoundsException` under every enabled setting | return the blocks in the reverse of the extraction order, so that every page the passes can take apart comes back unchanged | not executed | OrderFinding.CompressLeaksPlaceholder | Compressor.CorrectedPlainCompress |
