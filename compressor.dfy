/**
 * `HtmlCompressor` itself (HtmlCompressor.java lines 39-56, 94-120 and
 * 338-613): its settings, their setters, and `compress`, which takes the
 * blocks out, rewrites the markup left, minifies the script and style
 * blocks, puts the blocks back and trims the result.
 *
 * `CompressOf` says what `compress` computes; `HtmlCompressor.Compress`
 * computes it step by step, as the Java method does.
 */
module Compressor {
  import opened Outcomes
  import opened Chars
  import opened Patterns
  import opened Rewriting
  import opened Blocks
  import opened BlockPasses
  import opened HtmlPasses
  import opened Minify
  import opened Settings
  import opened Placeholders

  /** A list of blocks through `compressOne` when `on`; otherwise the list as it is. */
  function CompressBlocks(on: bool, compressOne: string -> Result<string>, blocks: seq<string>): Result<seq<string>> {
    if on then CompressEach(compressOne, blocks) else Ok(blocks)
  }

  /**
   * `processScriptBlocks` then `processStyleBlocks` on the lists of
   * `stores`: the minified lists, or the first failure, scripts first.
   */
  function MinifyStores(config: Config, jsMinifier: JsMinifier, cssMinifier: CssMinifier, stores: Stores): Result<Stores> {
    var scripts :- CompressBlocks(config.compressJavaScript, ScriptCompressor(config, jsMinifier), stores.script);
    var styles :- CompressBlocks(config.compressCss, StyleCompressor(config, cssMinifier), stores.style);
    Ok(stores.(script := scripts, style := styles))
  }

  /**
   * `compress` with the return passes run in `restoreOrder`: the input
   * itself when the compressor is switched off or the input is empty;
   * otherwise the trimmed text, or the first exception thrown on the way.
   */
  function CompressIn(restoreOrder: seq<Category>, config: Config, jsMinifier: JsMinifier, cssMinifier: CssMinifier,
                      html: string): (r: Result<string>)
    ensures !config.enabled || html == [] ==> r == Ok(html)
    ensures config.enabled && r.Ok? ==> IsTrimmed(r.value)
  {
    if !config.enabled || html == [] then Ok(html)
    else
      var (preserved, stores) := ExtractAll(ExtractOrder, html, NoBlocks);
      var minified :- MinifyStores(config, jsMinifier, cssMinifier, stores);
      var restored :- RestoreAll(restoreOrder, ProcessHtml(config, preserved), minified);
      TrimIsTrimmed(restored);
      Ok(Trim(restored))
  }

  /**
   * What `compress` gives for `html` under `config`, with `jsMinifier`
   * and `cssMinifier` standing for YUI: the return passes run as
   * `returnBlocks` runs them.
   */
  function CompressOf(config: Config, jsMinifier: JsMinifier, cssMinifier: CssMinifier, html: string): (r: Result<string>)
    ensures !config.enabled || html == [] ==> r == Ok(html)
    ensures config.enabled && r.Ok? ==> IsTrimmed(r.value)
  {
    CompressIn(SourceRestoreOrder, config, jsMinifier, cssMinifier, html)
  }

  /** `compress` with the return passes in the reverse of the extraction order (see Findings). */
  function CorrectedCompressOf(config: Config, jsMinifier: JsMinifier, cssMinifier: CssMinifier, html: string)
    : (r: Result<string>)
    ensures !config.enabled || html == [] ==> r == Ok(html)
    ensures config.enabled && r.Ok? ==> IsTrimmed(r.value)
  {
    CompressIn(RestoreOrder, config, jsMinifier, cssMinifier, html)
  }

  class HtmlCompressor {
    var enabled: bool
    var removeComments: bool
    var removeMultiSpaces: bool
    var removeIntertagSpaces: bool
    var removeQuotes: bool
    var compressJavaScript: bool
    var compressCss: bool
    var yuiJsNoMunge: bool
    var yuiJsPreserveAllSemiColons: bool
    var yuiJsDisableOptimizations: bool
    var yuiJsLineBreak: int32
    var yuiCssLineBreak: int32

    /** The current settings. */
    function Configuration(): Config
      reads this
    {
      Config(enabled, removeComments, removeMultiSpaces, removeIntertagSpaces, removeQuotes,
             compressJavaScript, compressCss, yuiJsNoMunge, yuiJsPreserveAllSemiColons,
             yuiJsDisableOptimizations, yuiJsLineBreak, yuiCssLineBreak)
    }

    /** A compressor with the field initialisers of the class. */
    constructor()
      ensures Configuration() == Default
    {
      enabled := true;
      removeComments := true;
      removeMultiSpaces := true;
      removeIntertagSpaces := false;
      removeQuotes := false;
      compressJavaScript := false;
      compressCss := false;
      yuiJsNoMunge := false;
      yuiJsPreserveAllSemiColons := false;
      yuiJsDisableOptimizations := false;
      yuiJsLineBreak := -1;
      yuiCssLineBreak := -1;
    }

    method SetCompressJavaScript(value: bool)
      modifies this
      ensures Configuration() == old(Configuration()).(compressJavaScript := value)
    {
      compressJavaScript := value;
    }

    method SetCompressCss(value: bool)
      modifies this
      ensures Configuration() == old(Configuration()).(compressCss := value)
    {
      compressCss := value;
    }

    method SetYuiJsNoMunge(value: bool)
      modifies this
      ensures Configuration() == old(Configuration()).(yuiJsNoMunge := value)
    {
      yuiJsNoMunge := value;
    }

    method SetYuiJsPreserveAllSemiColons(value: bool)
      modifies this
      ensures Configuration() == old(Configuration()).(yuiJsPreserveAllSemiColons := value)
    {
      yuiJsPreserveAllSemiColons := value;
    }

    method SetYuiJsDisableOptimizations(value: bool)
      modifies this
      ensures Configuration() == old(Configuration()).(yuiJsDisableOptimizations := value)
    {
      yuiJsDisableOptimizations := value;
    }

    method SetYuiJsLineBreak(value: int32)
      modifies this
      ensures Configuration() == old(Configuration()).(yuiJsLineBreak := value)
    {
      yuiJsLineBreak := value;
    }

    method SetYuiCssLineBreak(value: int32)
      modifies this
      ensures Configuration() == old(Configuration()).(yuiCssLineBreak := value)
    {
      yuiCssLineBreak := value;
    }

    method SetRemoveQuotes(value: bool)
      modifies this
      ensures Configuration() == old(Configuration()).(removeQuotes := value)
    {
      removeQuotes := value;
    }

    method SetEnabled(value: bool)
      modifies this
      ensures Configuration() == old(Configuration()).(enabled := value)
    {
      enabled := value;
    }

    method SetRemoveComments(value: bool)
      modifies this
      ensures Configuration() == old(Configuration()).(removeComments := value)
    {
      removeComments := value;
    }

    method SetRemoveMultiSpaces(value: bool)
      modifies this
      ensures Configuration() == old(Configuration()).(removeMultiSpaces := value)
    {
      removeMultiSpaces := value;
    }

    method SetRemoveIntertagSpaces(value: bool)
      modifies this
      ensures Configuration() == old(Configuration()).(removeIntertagSpaces := value)
    {
      removeIntertagSpaces := value;
    }

    /**
     * `compress`: the five block lists are filled, the markup between
     * them rewritten, the script and style lists compressed in place, the
     * blocks returned and the result trimmed.
     */
    method Compress(html: string, jsMinifier: JsMinifier, cssMinifier: CssMinifier) returns (r: Result<string>)
      ensures r == CompressOf(Configuration(), jsMinifier, cssMinifier, html)
    {
      if !enabled || |html| == 0 {
        return Ok(html);
      }
      var config := Configuration();
      var preserved, stores := PreserveBlocks(html);
      var processed := ProcessHtml(config, preserved);

      var minified := MinifyLists(config, jsMinifier, cssMinifier, stores);
      if minified.Err? {
        return Err(minified.error);
      }
      var restored := ReturnBlocks(processed, minified.value);
      if restored.Err? {
        return Err(restored.error);
      }
      r := Ok(Trim(restored.value));
    }
  }

  /**
   * The middle of `compress`: the script and the style list copied into
   * arrays and compressed in place there.
   */
  method MinifyLists(config: Config, jsMinifier: JsMinifier, cssMinifier: CssMinifier, stores: Stores)
    returns (r: Result<Stores>)
    ensures r == MinifyStores(config, jsMinifier, cssMinifier, stores)
  {
    var scriptList := stores.script;
    var scriptBlocks := new string[|scriptList|](i requires 0 <= i < |scriptList| => scriptList[i]);
    assert scriptBlocks[..] == scriptList;
    var failure := ProcessScriptBlocks(config, jsMinifier, scriptBlocks);
    if failure.Some? {
      return Err(failure.value);
    }

    var styleList := stores.style;
    var styleBlocks := new string[|styleList|](i requires 0 <= i < |styleList| => styleList[i]);
    assert styleBlocks[..] == styleList;
    failure := ProcessStyleBlocks(config, cssMinifier, styleBlocks);
    if failure.Some? {
      return Err(failure.value);
    }
    r := Ok(stores.(script := scriptBlocks[..], style := styleBlocks[..]));
  }

  // ---------------------------------------------------------------------
  // What `compress` promises

  /**
   * With the markup rewrites and both minifiers switched off, `compress`
   * gives back its input trimmed, whatever blocks it holds, as long as
   * taking the JSP blocks out before the style blocks would leave the
   * same text and lists, and no pass of that order meets a placeholder
   * head it did not write.
   */
  lemma PlainCompress(config: Config, jsMinifier: JsMinifier, cssMinifier: CssMinifier, html: string)
    requires config.enabled
    requires !config.removeComments && !config.removeMultiSpaces && !config.removeIntertagSpaces && !config.removeQuotes
    requires !config.compressJavaScript && !config.compressCss
    requires StagesFree(SwappedExtractOrder, html)
    requires ExtractAll(ExtractOrder, html, NoBlocks) == ExtractAll(SwappedExtractOrder, html, NoBlocks)
    ensures CompressOf(config, jsMinifier, cssMinifier, html) == Ok(Trim(html))
  {
    if html != [] {
      SourceOrderRoundTrip(html);
      PlainCompressIn(SourceRestoreOrder, config, jsMinifier, cssMinifier, html);
    }
  }

  /**
   * With the return passes in reverse, the same holds of every input on
   * which no preserve pass meets a placeholder head it did not write.
   */
  lemma CorrectedPlainCompress(config: Config, jsMinifier: JsMinifier, cssMinifier: CssMinifier, html: string)
    requires config.enabled
    requires !config.removeComments && !config.removeMultiSpaces && !config.removeIntertagSpaces && !config.removeQuotes
    requires !config.compressJavaScript && !config.compressCss
    requires StagesFree(ExtractOrder, html)
    ensures CorrectedCompressOf(config, jsMinifier, cssMinifier, html) == Ok(Trim(html))
  {
    if html != [] {
      PreserveThenReturn(html);
      PlainCompressIn(RestoreOrder, config, jsMinifier, cssMinifier, html);
    }
  }

  /** With the markup rewrites and the minifiers off, `compress` trims what the return passes give. */
  lemma PlainCompressIn(restoreOrder: seq<Category>, config: Config, jsMinifier: JsMinifier, cssMinifier: CssMinifier,
                        html: string)
    requires config.enabled && html != []
    requires !config.removeComments && !config.removeMultiSpaces && !config.removeIntertagSpaces && !config.removeQuotes
    requires !config.compressJavaScript && !config.compressCss
    requires RestoreAll(restoreOrder, ExtractAll(ExtractOrder, html, NoBlocks).0, ExtractAll(ExtractOrder, html, NoBlocks).1)
             == Ok(html)
    ensures CompressIn(restoreOrder, config, jsMinifier, cssMinifier, html) == Ok(Trim(html))
  {
    var (preserved, stores) := ExtractAll(ExtractOrder, html, NoBlocks);
    MinifyingOff(config, jsMinifier, cssMinifier, stores);
    CompressThrough(restoreOrder, config, jsMinifier, cssMinifier, html, preserved, stores, html);
  }

  /**
   * When the markup rewrites and the minifiers leave the text and the
   * lists as they are, `compress` trims what the return passes give.
   */
  lemma CompressThrough(restoreOrder: seq<Category>, config: Config, jsMinifier: JsMinifier, cssMinifier: CssMinifier,
                        html: string, preserved: string, stores: Stores, restored: string)
    requires config.enabled && html != []
    requires ExtractAll(ExtractOrder, html, NoBlocks) == (preserved, stores)
    requires ProcessHtml(config, preserved) == preserved
    requires MinifyStores(config, jsMinifier, cssMinifier, stores) == Ok(stores)
    requires RestoreAll(restoreOrder, preserved, stores) == Ok(restored)
    ensures CompressIn(restoreOrder, config, jsMinifier, cssMinifier, html) == Ok(Trim(restored))
  {
  }

  /** With both minifiers off, the lists stay as they are. */
  lemma MinifyingOff(config: Config, jsMinifier: JsMinifier, cssMinifier: CssMinifier, stores: Stores)
    requires !config.compressJavaScript && !config.compressCss
    ensures MinifyStores(config, jsMinifier, cssMinifier, stores) == Ok(stores)
  {
    assert stores.(script := stores.script, style := stores.style) == stores;
  }

  /** The minifiers touch only the script and style lists. */
  lemma MinifyingKeepsOthers(config: Config, jsMinifier: JsMinifier, cssMinifier: CssMinifier, stores: Stores)
    ensures var r := MinifyStores(config, jsMinifier, cssMinifier, stores);
            r.Ok? ==> r.value.pre == stores.pre && r.value.jsp == stores.jsp && r.value.textArea == stores.textArea
  {
  }

  /** The script list is what the second pass collects, the style list what the third does. */
  lemma ChainLists(extract: Extractor, html: string)
    ensures var h1 := extract(Pre, html).0;
            ExtractChain(extract, ExtractOrder, html, NoBlocks).1.script == extract(Script, h1).1 &&
            ExtractChain(extract, ExtractOrder, html, NoBlocks).1.style == extract(Style, extract(Script, h1).0).1
  {
    ChainOfFive(extract, html);
  }

  /** Every block `compress` hands to the JavaScript minifier is one whole `<script>` element. */
  lemma ScriptBlocksWhole(html: string)
    ensures forall b :: b in ExtractAll(ExtractOrder, html, NoBlocks).1.script ==> IsWholeElement("script", b)
  {
    var h1 := Extract(Pre, html).0;
    ChainLists(Extract, html);
    assert Extract(Script, h1).1 == MatchedTexts(Compile(Element("script", false)), h1);
    BlocksAreWhole("script", h1);
  }

  /** Every block `compress` hands to the CSS minifier is one whole `<style>` element. */
  lemma StyleBlocksWhole(html: string)
    ensures forall b :: b in ExtractAll(ExtractOrder, html, NoBlocks).1.style ==> IsWholeElement("style", b)
  {
    var h2 := Extract(Script, Extract(Pre, html).0).0;
    ChainLists(Extract, html);
    assert Extract(Style, h2).1 == MatchedTexts(Compile(Element("style", false)), h2);
    BlocksAreWhole("style", h2);
  }

  /**
   * A minifier failure ends `compress` with that failure; the scripts
   * come first, so when a script and a style block both fail, the
   * script's error is the one thrown.
   */
  lemma ScriptFailureFirst(config: Config, jsMinifier: JsMinifier, cssMinifier: CssMinifier, html: string, e: Error)
    requires config.enabled && html != [] && config.compressJavaScript
    requires CompressEach(ScriptCompressor(config, jsMinifier),
                          ExtractAll(ExtractOrder, html, NoBlocks).1.script) == Err(e)
    ensures CompressOf(config, jsMinifier, cssMinifier, html) == Err(e)
  {
  }

  /**
   * A placeholder written in the input makes `compress` throw, whatever
   * the settings, as long as the compressor is on: nothing touches it on
   * the way, and no `<textarea>` block was stored for it to name.
   */
  lemma LiteralPlaceholderThrows(config: Config, jsMinifier: JsMinifier, cssMinifier: CssMinifier, k: nat)
    requires config.enabled
    ensures CompressOf(config, jsMinifier, cssMinifier, Token(TextArea, k)) == Err(MissingError(k, 0))
  {
    PlaceholderInInput(k);
    TokenInert(TextArea, k);
    InertUnprocessed(config, Token(TextArea, k));
    assert MinifyStores(config, jsMinifier, cssMinifier, NoBlocks) == Ok(NoBlocks);
  }

  /**
   * With comment removal off, the first return pass of `compress` puts
   * the `<textarea>` blocks back verbatim, whatever the other settings and
   * whatever the minifiers do: the `k`-th placeholder it meets is the one
   * the preserve pass wrote for the `k`-th block, and it becomes that
   * block. (This holds of both orders of the return passes, which both
   * start with `<textarea>`.)
   */
  lemma TextAreasComeBack(config: Config, jsMinifier: JsMinifier, cssMinifier: CssMinifier, html: string)
    requires !config.removeComments
    requires StagesFree(ExtractOrder, html)
    ensures var (preserved, stores) := ExtractAll(ExtractOrder, html, NoBlocks);
            var processed := ProcessHtml(config, preserved);
            && (MinifyStores(config, jsMinifier, cssMinifier, stores).Ok? ==>
                  MinifyStores(config, jsMinifier, cssMinifier, stores).value.textArea == stores.textArea)
            && MatchedTexts(PlaceholderMatcher(TextArea), processed)
               == Numbered(TokenPrefix(TextArea), 0, |stores.textArea|)
            && Restore(TextArea, processed, stores.textArea).Ok?
            && Restore(TextArea, processed, stores.textArea)
               == ReplaceAll(PlaceholderMatcher(TextArea), processed, InOrder(stores.textArea), 0)
  {
    var (preserved, stores) := ExtractAll(ExtractOrder, html, NoBlocks);
    var h4 := Extract(Jsp, Extract(Style, Extract(Script, Extract(Pre, html).0).0).0).0;
    assert Extract(TextArea, h4) == (preserved, stores.textArea) && Clean(TextArea, h4) by {
      ChainOfFive(Extract, html);
      LastStage(Clean, Extract, html);
    }
    TextAreaPassBack(config, h4, preserved, stores.textArea);
    MinifyingKeepsOthers(config, jsMinifier, cssMinifier, stores);
  }

  /**
   * The last preserve pass and the first return pass around `processHtml`
   * with comment removal off: the placeholders written are the ones met,
   * and each becomes its block.
   */
  lemma TextAreaPassBack(config: Config, h4: string, preserved: string, blocks: seq<string>)
    requires !config.removeComments
    requires Clean(TextArea, h4) && Extract(TextArea, h4) == (preserved, blocks)
    ensures MatchedTexts(PlaceholderMatcher(TextArea), ProcessHtml(config, preserved))
            == Numbered(TokenPrefix(TextArea), 0, |blocks|)
    ensures Restore(TextArea, ProcessHtml(config, preserved), blocks).Ok?
    ensures Restore(TextArea, ProcessHtml(config, preserved), blocks)
            == ReplaceAll(PlaceholderMatcher(TextArea), ProcessHtml(config, preserved), InOrder(blocks), 0)
  {
    ExtractWritesTokens(TextArea, h4);
    PlaceholdersKept(config, TextArea, preserved);
    RestoreInOrder(TextArea, ProcessHtml(config, preserved), blocks);
  }

  /** Before the last preserve pass, `fits` holds when it holds before every pass. */
  lemma LastStage(fits: (Category, string) -> bool, extract: Extractor, html: string)
    requires Stages(fits, extract, ExtractOrder, html)
    ensures fits(TextArea, extract(Jsp, extract(Style, extract(Script, extract(Pre, html).0).0).0).0)
  {
    var order := ExtractOrder;
    var t1 := extract(Pre, html).0;
    var t2 := extract(Script, t1).0;
    var t3 := extract(Style, t2).0;
    var t4 := extract(Jsp, t3).0;
    assert order[1..] == [Script, Style, Jsp, TextArea] && order[2..] == [Style, Jsp, TextArea];
    assert order[3..] == [Jsp, TextArea] && order[4..] == [TextArea];
    assert Stages(fits, extract, order[1..], t1);
    assert Stages(fits, extract, order[2..], t2);
    assert Stages(fits, extract, order[3..], t3);
    assert Stages(fits, extract, order[4..], t4);
  }
}
