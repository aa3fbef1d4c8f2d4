/**
 * `processScriptBlocks`, `processStyleBlocks`, `compressJavaScript` and
 * `compressCssStyles` (HtmlCompressor.java lines 256-311): when switched
 * on, every preserved `<script>` (`<style>`) block has the body of its
 * first non-empty element run through YUI's minifier, in place in its
 * list. The minifier itself is not part of this model: it is a parameter,
 * a function from a body and the options to the minified text or the
 * error YUI throws.
 */
module Minify {
  import opened Outcomes
  import opened Chars
  import opened Patterns
  import opened Rewriting
  import opened Settings

  /** The arguments `compressJavaScript` hands to `JavaScriptCompressor.compress` besides the body. */
  datatype JsOptions = JsOptions(lineBreak: int32, munge: bool, verbose: bool,
                                 preserveAllSemiColons: bool, disableOptimizations: bool)

  /** YUI's JavaScript minifier. */
  type JsMinifier = (string, JsOptions) -> Result<string>

  /** YUI's CSS minifier, given the column to break lines at. */
  type CssMinifier = (string, int32) -> Result<string>

  /** Munging unless `yuiJsNoMunge`, never verbose, the other options as set. */
  function JsOptionsOf(config: Config): JsOptions {
    JsOptions(config.yuiJsLineBreak, !config.yuiJsNoMunge, false,
              config.yuiJsPreserveAllSemiColons, config.yuiJsDisableOptimizations)
  }

  /** `source` with the characters from `gs` to `ge` replaced by the successful `minified`. */
  function Splice(source: string, gs: nat, ge: nat, minified: Result<string>): Result<string>
    requires gs <= ge <= |source|
  {
    match minified
    case Ok(text) => Ok(source[..gs] + text + source[ge..])
    case Err(e) => Err(e)
  }

  /**
   * The first match of `f` anywhere in `source` has its group replaced by
   * what `minify` makes of it; without a match, `source` is returned as it
   * is.
   */
  function CompressFirst(f: Matcher, minify: string -> Result<string>, source: string): Result<string> {
    match Find(f, source, 0)
    case None => Ok(source)
    case Some(start) =>
      var m := f(source[start..]).value;
      Splice(source, start + m.groupStart, start + m.groupEnd,
             minify(source[start + m.groupStart..start + m.groupEnd]))
  }

  /** The body of the first element `name` with a non-empty body, through `minify`. */
  function CompressElement(name: string, minify: string -> Result<string>, source: string): Result<string> {
    CompressFirst(Compile(Element(name, true)), minify, source)
  }

  /** The JavaScript minifier with the configured options, as a step on a body. */
  function JsBodyMinifier(config: Config, minifier: JsMinifier): string -> Result<string> {
    body => minifier(body, JsOptionsOf(config))
  }

  /** The CSS minifier with the configured line break, as a step on a body. */
  function CssBodyMinifier(config: Config, minifier: CssMinifier): string -> Result<string> {
    body => minifier(body, config.yuiCssLineBreak)
  }

  /** `compressJavaScript`: the script body through the JavaScript minifier with the configured options. */
  function CompressJavaScript(config: Config, minifier: JsMinifier, source: string): Result<string> {
    CompressElement("script", JsBodyMinifier(config, minifier), source)
  }

  /** `compressCssStyles`: the style body through the CSS minifier with the configured line break. */
  function CompressCssStyles(config: Config, minifier: CssMinifier, source: string): Result<string> {
    CompressElement("style", CssBodyMinifier(config, minifier), source)
  }

  // ---------------------------------------------------------------------
  // One block

  /** `r` is the first match of the pattern of element `name` at the start of `t`, as `ElementAt` reports it. */
  ghost predicate FirstElementOf(r: Option<Span>, name: string, nonEmpty: bool, t: string) {
    && (r.Some? ==> && 1 <= r.value.groupStart
                    && r.value.end == r.value.groupEnd + |name| + 3
                    && IsElementMatch(name, nonEmpty, t, r.value.groupStart - 1, r.value.groupEnd)
                    && forall gt, close :: IsElementMatch(name, nonEmpty, t, gt, close) ==>
                         gt == r.value.groupStart - 1 && r.value.groupEnd <= close)
    && (r.None? ==> forall gt, close :: !IsElementMatch(name, nonEmpty, t, gt, close))
  }

  /** `f` tries the pattern of element `name` (with a non-empty body when `nonEmpty`). */
  ghost predicate FindsElements(f: Matcher, name: string, nonEmpty: bool) {
    forall t :: FirstElementOf(f(t), name, nonEmpty, t)
  }

  lemma ElementFinds(name: string, nonEmpty: bool)
    ensures FindsElements(Compile(Element(name, nonEmpty)), name, nonEmpty)
  {
    var f := Compile(Element(name, nonEmpty));
    forall t ensures FirstElementOf(f(t), name, nonEmpty, t) {
      assert f(t) == ElementAt(name, nonEmpty, t);
    }
  }

  /** `b` is all of one match of `f`. */
  ghost predicate IsWhole(f: Matcher, b: string) {
    f(b).Some? && f(b).value.end == |b|
  }

  /** `b` is one whole element `name`, as the block patterns cut them out. */
  ghost predicate IsWholeElement(name: string, b: string) {
    IsWhole(Compile(Element(name, false)), b)
  }

  /** A match of the non-empty pattern is one of the general pattern with a non-empty body, and back. */
  lemma NonEmptyIsMatch(name: string, source: string, gt: nat, close: nat)
    ensures IsElementMatch(name, true, source, gt, close) <==> IsElementMatch(name, false, source, gt, close) && gt + 1 < close
  {
  }

  /** A minifier that gives every body back as it is leaves every text as it is. */
  lemma UnchangedByIdentity(f: Matcher, source: string)
    ensures CompressFirst(f, body => Ok(body), source) == Ok(source)
  {
    match Find(f, source, 0)
    case None =>
    case Some(start) =>
      var m := f(source[start..]).value;
      var gs, ge := start + m.groupStart, start + m.groupEnd;
      assert source[..gs] + source[gs..ge] + source[ge..] == source;
  }

  /** A match at the very start is the one whose group is replaced. */
  lemma FirstAtStart(f: Matcher, minify: string -> Result<string>, source: string)
    requires f(source).Some?
    ensures var m := f(source).value;
            CompressFirst(f, minify, source) == Splice(source, m.groupStart, m.groupEnd, minify(source[m.groupStart..m.groupEnd]))
  {
    assert source[0..] == source;
  }

  /** In a whole element with a non-empty body, the non-empty pattern `g` finds the element's own body. */
  lemma NonEmptySameSpan(f: Matcher, g: Matcher, name: string, source: string)
    requires FindsElements(f, name, false) && FindsElements(g, name, true)
    requires IsWhole(f, source) && f(source).value.groupStart < f(source).value.groupEnd
    ensures g(source) == f(source)
  {
    var m := f(source).value;
    assert FirstElementOf(f(source), name, false, source);
    NonEmptyIsMatch(name, source, m.groupStart - 1, m.groupEnd);
    assert FirstElementOf(g(source), name, true, source);
    var r := g(source).value;
    NonEmptyIsMatch(name, source, r.groupStart - 1, r.groupEnd);
  }

  /**
   * An opening tag of `name` that starts anywhere in `source` ends at or
   * after `gt`, when no `>` stands between the name and `gt`.
   */
  lemma OpenTagEndsAfter(name: string, source: string, gt: nat)
    requires gt <= |source|
    requires forall p :: |name| + 1 <= p < gt ==> source[p] != '>'
    ensures forall j: nat, gt': nat, close': nat :: j <= |source| && IsElementMatch(name, true, source[j..], gt', close') ==>
              gt + 2 <= j + close'
  {
    forall j: nat, gt': nat, close': nat | j <= |source| && IsElementMatch(name, true, source[j..], gt', close')
      ensures gt + 2 <= j + close'
    {
      assert source[j..][gt'] == source[j + gt'];
    }
  }

  /** In a whole element with an empty body, the non-empty pattern `g` matches nowhere. */
  lemma NoNonEmptyIn(f: Matcher, g: Matcher, name: string, source: string)
    requires FindsElements(f, name, false) && FindsElements(g, name, true)
    requires IsWhole(f, source) && f(source).value.groupStart == f(source).value.groupEnd
    ensures NoMatchBetween(g, source, 0, |source| + 1)
  {
    var m := f(source).value;
    assert FirstElementOf(f(source), name, false, source);
    OpenTagEndsAfter(name, source, m.groupStart - 1);
    forall j | 0 <= j < |source| + 1 && j <= |source| ensures g(source[j..]).None? {
      assert FirstElementOf(g(source[j..]), name, true, source[j..]);
    }
  }

  /** A match of the element pattern is a match in any text that starts with the matched characters, and back. */
  lemma MatchInPrefix(name: string, u: string, b: string, gt: nat, close: nat)
    requires |b| <= |u| && b == u[..|b|] && close + |name| + 3 <= |b|
    ensures IsElementMatch(name, false, u, gt, close) <==> IsElementMatch(name, false, b, gt, close)
  {
    var closeTag := "</" + name + ">";
    if |name| + 1 <= gt < |b| && gt + 1 <= close {
      StartsWithSamePrefix(b, u, "<" + name);
      assert b[close..][..|closeTag|] == u[close..][..|closeTag|];
      StartsWithSamePrefix(b[close..], u[close..], closeTag);
    }
  }

  /** The element `f` finds, cut out of the text, is a whole element with the same span. */
  lemma CutIsWhole(f: Matcher, name: string, u: string)
    requires FindsElements(f, name, false) && f(u).Some?
    ensures IsWhole(f, u[..f(u).value.end]) && f(u[..f(u).value.end]) == f(u)
  {
    var m := f(u).value;
    var b := u[..m.end];
    assert FirstElementOf(f(u), name, false, u);
    MatchInPrefix(name, u, b, m.groupStart - 1, m.groupEnd);
    assert FirstElementOf(f(b), name, false, b);
    var mb := f(b).value;
    MatchInPrefix(name, u, b, mb.groupStart - 1, mb.groupEnd);
  }

  /** Every text `f` collects is all of one match. */
  lemma {:induction false} CollectedAreWhole(f: Matcher, name: string, t: string)
    requires FindsElements(f, name, false)
    ensures forall b :: b in MatchedTexts(f, t) ==> IsWhole(f, b)
    decreases |t|
  {
    if t != [] {
      match f(t)
      case Some(m) =>
        CutIsWhole(f, name, t);
        CollectedAreWhole(f, name, t[m.end..]);
      case None =>
        CollectedAreWhole(f, name, t[1..]);
    }
  }

  /** Every block the pattern of element `name` collects from a text is one whole element. */
  lemma BlocksAreWhole(name: string, t: string)
    ensures forall b :: b in MatchedTexts(Compile(Element(name, false)), t) ==> IsWholeElement(name, b)
  {
    ElementFinds(name, false);
    CollectedAreWhole(Compile(Element(name, false)), name, t);
  }

  /**
   * In a whole element with a non-empty body, the body is what is
   * minified and replaced; the opening and the closing tag stay. A
   * failure of the minifier is the result.
   */
  lemma BodyReplaced(name: string, minify: string -> Result<string>, source: string)
    requires IsWholeElement(name, source)
    requires Compile(Element(name, false))(source).value.groupStart < Compile(Element(name, false))(source).value.groupEnd
    ensures var m := Compile(Element(name, false))(source).value;
            CompressElement(name, minify, source) ==
              Splice(source, m.groupStart, m.groupEnd, minify(source[m.groupStart..m.groupEnd]))
  {
    ElementFinds(name, false);
    ElementFinds(name, true);
    NonEmptySameSpan(Compile(Element(name, false)), Compile(Element(name, true)), name, source);
    FirstAtStart(Compile(Element(name, true)), minify, source);
  }

  /** A whole element with an empty body stays as it is, whatever the minifier. */
  lemma EmptyBodyKept(name: string, minify: string -> Result<string>, source: string)
    requires IsWholeElement(name, source)
    requires Compile(Element(name, false))(source).value.groupStart == Compile(Element(name, false))(source).value.groupEnd
    ensures CompressElement(name, minify, source) == Ok(source)
  {
    ElementFinds(name, false);
    ElementFinds(name, true);
    NoNonEmptyIn(Compile(Element(name, false)), Compile(Element(name, true)), name, source);
  }

  /** A minifier that gives every body back as it is leaves every block as it is. */
  lemma IdentityMinifierKeeps(name: string, source: string)
    ensures CompressElement(name, body => Ok(body), source) == Ok(source)
  {
    UnchangedByIdentity(Compile(Element(name, true)), source);
  }

  /**
   * A whole `<script>` element with a non-empty body has that body minified
   * with the line break, the munge switch (the opposite of `yuiJsNoMunge`),
   * verbosity off, and the semicolon and optimisation switches as set.
   */
  lemma ScriptBodyMinified(config: Config, minifier: JsMinifier, source: string)
    requires IsWholeElement("script", source)
    requires Compile(Element("script", false))(source).value.groupStart < Compile(Element("script", false))(source).value.groupEnd
    ensures var m := Compile(Element("script", false))(source).value;
            CompressJavaScript(config, minifier, source) ==
              Splice(source, m.groupStart, m.groupEnd,
                     minifier(source[m.groupStart..m.groupEnd],
                              JsOptions(config.yuiJsLineBreak, !config.yuiJsNoMunge, false,
                                        config.yuiJsPreserveAllSemiColons, config.yuiJsDisableOptimizations)))
  {
    var m := Compile(Element("script", false))(source).value;
    BodyReplaced("script", JsBodyMinifier(config, minifier), source);
    assert JsBodyMinifier(config, minifier)(source[m.groupStart..m.groupEnd]) ==
             minifier(source[m.groupStart..m.groupEnd], JsOptionsOf(config));
  }

  /** A whole `<style>` element with a non-empty body has that body minified with the CSS line break. */
  lemma StyleBodyMinified(config: Config, minifier: CssMinifier, source: string)
    requires IsWholeElement("style", source)
    requires Compile(Element("style", false))(source).value.groupStart < Compile(Element("style", false))(source).value.groupEnd
    ensures var m := Compile(Element("style", false))(source).value;
            CompressCssStyles(config, minifier, source) ==
              Splice(source, m.groupStart, m.groupEnd, minifier(source[m.groupStart..m.groupEnd], config.yuiCssLineBreak))
  {
    var m := Compile(Element("style", false))(source).value;
    BodyReplaced("style", CssBodyMinifier(config, minifier), source);
    assert CssBodyMinifier(config, minifier)(source[m.groupStart..m.groupEnd]) ==
             minifier(source[m.groupStart..m.groupEnd], config.yuiCssLineBreak);
  }

  /** `compressJavaScript` as the step applied to each script block. */
  function ScriptCompressor(config: Config, minifier: JsMinifier): string -> Result<string> {
    source => CompressJavaScript(config, minifier, source)
  }

  /** `compressCssStyles` as the step applied to each style block. */
  function StyleCompressor(config: Config, minifier: CssMinifier): string -> Result<string> {
    source => CompressCssStyles(config, minifier, source)
  }

  // ---------------------------------------------------------------------
  // Every block of a list

  /**
   * Every block through `compressOne`, in order: all of them compressed
   * when none fails, otherwise the error of the first that fails.
   */
  function CompressEach(compressOne: string -> Result<string>, blocks: seq<string>): (r: Result<seq<string>>)
    ensures r.Ok? <==> forall i :: 0 <= i < |blocks| ==> compressOne(blocks[i]).Ok?
    ensures r.Ok? ==> |r.value| == |blocks| && forall i :: 0 <= i < |blocks| ==> compressOne(blocks[i]) == Ok(r.value[i])
    ensures r.Err? ==> exists i :: 0 <= i < |blocks| && compressOne(blocks[i]) == Err(r.error)
                                   && forall j :: 0 <= j < i ==> compressOne(blocks[j]).Ok?
  {
    if blocks == [] then Ok([])
    else
      var init :- CompressEach(compressOne, blocks[..|blocks| - 1]);
      var last :- compressOne(blocks[|blocks| - 1]);
      Ok(init + [last])
  }

  /** A failure among the first `n` blocks is the failure of the whole list. */
  lemma {:induction false} FailsEarly(compressOne: string -> Result<string>, blocks: seq<string>, n: nat)
    requires n <= |blocks| && CompressEach(compressOne, blocks[..n]).Err?
    ensures CompressEach(compressOne, blocks) == CompressEach(compressOne, blocks[..n])
    decreases |blocks| - n
  {
    if n < |blocks| {
      assert blocks[..n + 1][..n] == blocks[..n];
      FailsEarly(compressOne, blocks, n + 1);
    } else {
      assert blocks[..n] == blocks;
    }
  }

  /**
   * The loop of `processScriptBlocks`/`processStyleBlocks`: when
   * `enabled`, each entry of the list is replaced by its compressed form,
   * in place and in order; the first failure ends the loop and is
   * returned. When not enabled, the list is left alone.
   */
  method ProcessBlocks(enabled: bool, compressOne: string -> Result<string>, blocks: array<string>)
    returns (failure: Option<Error>)
    modifies blocks
    ensures !enabled ==> failure == None && blocks[..] == old(blocks[..])
    ensures enabled ==> match CompressEach(compressOne, old(blocks[..]))
                        case Ok(done) => failure == None && blocks[..] == done
                        case Err(e) => failure == Some(e)
  {
    if enabled {
      ghost var original := blocks[..];
      for i := 0 to blocks.Length
        invariant blocks[i..] == original[i..]
        invariant CompressEach(compressOne, original[..i]) == Ok(blocks[..i])
      {
        var compressed := compressOne(blocks[i]);
        assert original[..i + 1][..i] == original[..i];
        if compressed.Err? {
          FailsEarly(compressOne, original, i + 1);
          return Some(compressed.error);
        }
        blocks[i] := compressed.value;
        assert blocks[..i + 1] == blocks[..i] + [compressed.value];
      }
      assert original[..blocks.Length] == original;
    }
    return None;
  }

  /** `processScriptBlocks`. */
  method ProcessScriptBlocks(config: Config, minifier: JsMinifier, scriptBlocks: array<string>)
    returns (failure: Option<Error>)
    modifies scriptBlocks
    ensures !config.compressJavaScript ==> failure == None && scriptBlocks[..] == old(scriptBlocks[..])
    ensures config.compressJavaScript ==>
              match CompressEach(ScriptCompressor(config, minifier), old(scriptBlocks[..]))
              case Ok(done) => failure == None && scriptBlocks[..] == done
              case Err(e) => failure == Some(e)
  {
    failure := ProcessBlocks(config.compressJavaScript, ScriptCompressor(config, minifier), scriptBlocks);
  }

  /** `processStyleBlocks`. */
  method ProcessStyleBlocks(config: Config, minifier: CssMinifier, styleBlocks: array<string>)
    returns (failure: Option<Error>)
    modifies styleBlocks
    ensures !config.compressCss ==> failure == None && styleBlocks[..] == old(styleBlocks[..])
    ensures config.compressCss ==>
              match CompressEach(StyleCompressor(config, minifier), old(styleBlocks[..]))
              case Ok(done) => failure == None && styleBlocks[..] == done
              case Err(e) => failure == Some(e)
  {
    failure := ProcessBlocks(config.compressCss, StyleCompressor(config, minifier), styleBlocks);
  }
}
