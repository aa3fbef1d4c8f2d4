/**
 * `returnBlocks` (HtmlCompressor.java lines 182-229) puts the style
 * blocks back before the JSP blocks, although `preserveBlocks` takes the
 * style blocks out before the JSP blocks. A style element inside a JSP
 * scriptlet is therefore replaced by its placeholder, the placeholder is
 * stored inside the JSP block, and when the JSP block comes back the
 * style pass has already run: the placeholder reaches the output.
 *
 * A second input shows that the JSP blocks need not hold anything of the
 * style pass for the order to matter: a JSP placeholder's closing `%%%`
 * followed by `COMPRESS~STYLE~0%%%` reads as a style placeholder, which
 * the style pass, run first, cannot find in its empty list.
 */
module OrderFinding {
  import opened Outcomes
  import opened Chars
  import opened Patterns
  import opened Rewriting
  import opened Blocks
  import opened BlockPasses
  import opened HtmlPasses
  import opened Minify
  import opened Settings
  import opened Compressor
  import opened Placeholders

  const StyleElement: string := "<style></style>"

  /** A JSP scriptlet whose body is an empty `<style>` element. */
  const Input: string := "<%" + (StyleElement + "%>")

  /** The scriptlet after the style pass: `"<%" + (Token(Style, 0) + "%>")`. */
  const Scriptlet: string := "<%%%%COMPRESS~STYLE~0%%%%>"

  /** The text after all five preserve passes: `Token(Jsp, 0)`. */
  const Preserved: string := "%%%COMPRESS~JSP~0%%%"

  /** The lists after all five preserve passes. */
  const PreservedStores: Stores := Stores([], [], [StyleElement], [Scriptlet], [])

  lemma SpelledTokens()
    ensures Scriptlet == "<%" + (Token(Style, 0) + "%>")
    ensures Preserved == Token(Jsp, 0)
  {
    assert DecimalString(0) == "0";
  }

  // Lemmas about any text, which the ones about the input above instantiate.

  /** The only `x` outside the prefix `t[..|t| - 1]` is the last character. */
  lemma LastOccurrence(t: string, x: char, j: nat)
    requires |t| > 0 && x !in t[..|t| - 1] && j < |t| && t[j] == x
    ensures j == |t| - 1
  {
  }

  /** An element with an empty body, matched at the start of a text. */
  lemma EmptyElementAt(name: string, after: string)
    ensures ElementAt(name, false, ("<" + name + ">") + (("</" + name + ">") + after))
            == Some(Span(2 * |name| + 5, |name| + 2, |name| + 2))
  {
    var t := ("<" + name + ">") + (("</" + name + ">") + after);
    var gt, close := |name| + 1, |name| + 2;
    assert t == ("<" + name) + (">" + (("</" + name + ">") + after));
    StartsWithItself("<" + name, ">" + (("</" + name + ">") + after));
    assert t[close..] == ("</" + name + ">") + after;
    StartsWithItself("</" + name + ">", after);
    assert IsElementMatch(name, false, t, gt, close);
  }

  /** The style pattern matches the element at the start of `StyleElement + after`. */
  lemma StyleMatchAt(after: string)
    ensures Compile(BlockPattern(Style))(StyleElement + after) == Some(Span(15, 7, 7))
  {
    assert StyleElement + after == ("<" + "style" + ">") + (("</" + "style" + ">") + after);
    EmptyElementAt("style", after);
  }

  /** A matcher that needs `opener` at its start matches at neither of two positions that do not start it. */
  lemma NoMatchInTwo(fb: Matcher, opener: string, t: string)
    requires NeedsHead(fb, opener) && |t| >= 2
    requires !StartsWithCI(t, opener) && !StartsWithCI(t[1..], opener)
    ensures NoMatchBetween(fb, t, 0, 2)
  {
    assert t[0..] == t;
  }

  /** The style pattern starts at neither of the two characters of `before`. */
  lemma NoStyleBefore(before: string, rest: string)
    requires |before| == 2 && before[1] == '%'
    ensures NoMatchBetween(Compile(BlockPattern(Style)), before + rest, 0, 2)
  {
    var t := before + rest;
    BlockNeedsOpener(Style);
    assert Opener(Style)[0] == '<' && Opener(Style)[1] == 's';
    assert !StartsWithCI(t, Opener(Style)) by { assert t[1] == '%'; }
    assert !StartsWithCI(t[1..], Opener(Style)) by { assert t[1..][0] == '%'; }
    NoMatchInTwo(Compile(BlockPattern(Style)), Opener(Style), t);
  }

  /** A style element after two characters the style pattern cannot start at is the one block. */
  lemma StyleOnce(before: string, after: string)
    requires |before| == 2 && before[1] == '%' && |after| < |Opener(Style)|
    ensures Extract(Style, before + (StyleElement + after)) == (before + (Token(Style, 0) + after), [StyleElement])
  {
    var fb := Compile(BlockPattern(Style));
    BlockNeedsOpener(Style);
    CategoryNumbers(Style);
    StyleMatchAt(after);
    NoStyleBefore(before, StyleElement + after);
    ExtractOneAt(fb, TokenFor(Style), TokenPrefix(Style), Opener(Style), before, StyleElement, after, 0);
    OneBlockAt(fb, Opener(Style), before, StyleElement, after);
  }

  /** A text that is one JSP scriptlet from end to end. */
  lemma WholeJspAt(t: string)
    requires |t| >= 6 && t[..2] == "<%" && t[2] != '-' && t[2] != '=' && t[2] != '@'
    requires t[|t| - 2..] == "%>" && '>' !in t[..|t| - 1]
    ensures JspAt(t) == Some(Span(|t|, 3, |t| - 2))
  {
    assert t == "<%" + t[2..];
    StartsWithItself("<%", t[2..]);
    assert t[|t| - 2..] == "%>" + [];
    StartsWithItself("%>", []);
    assert IsJspMatch(t, |t| - 2);
    var close := JspAt(t).value.groupEnd;
    assert t[close..][1] == t[close + 1];
    LowerOfNonLetter(t[close + 1], '>');
    LastOccurrence(t, '>', close + 1);
  }

  /** A text that is one JSP scriptlet is the one JSP block. */
  lemma JspWhole(t: string)
    requires |t| >= 6 && t[..2] == "<%" && t[2] != '-' && t[2] != '=' && t[2] != '@'
    requires t[|t| - 2..] == "%>" && '>' !in t[..|t| - 1]
    ensures Extract(Jsp, t) == (Token(Jsp, 0), [t])
  {
    var fb := Compile(BlockPattern(Jsp));
    BlockNeedsOpener(Jsp);
    CategoryNumbers(Jsp);
    WholeJspAt(t);
    assert t + [] == t && [] + (t + []) == t;
    ExtractOneAt(fb, TokenFor(Jsp), TokenPrefix(Jsp), Opener(Jsp), [], t, [], 0);
    OneBlockAt(fb, Opener(Jsp), [], t, []);
    assert [] + (Token(Jsp, 0) + []) == Token(Jsp, 0);
  }

  /** A text that is one placeholder comes back as the block it names. */
  lemma RestoresWhole(c: Category, block: string)
    ensures Restore(c, Token(c, 0), [block]) == Ok(block)
  {
    RestoreOne(c, [], 0, [], [block]);
    assert [] + (Token(c, 0) + []) == Token(c, 0);
    assert ReplaceAll(PlaceholderMatcher(c), [], StoredBlock([block]), 1) == Ok([]);
    assert [] + block + [] == block;
  }

  // The characters the lemmas below hang on.

  lemma Letters()
    ensures Opener(Pre)[1] == 'p' && Opener(Script)[2] == 'c' && Opener(TextArea)[0] == '<'
    ensures TokenPrefix(Pre)[3] == 'C' && TokenPrefix(Script)[3] == 'C' && TokenPrefix(Style)[3] == 'C'
    ensures TokenPrefix(Jsp)[12] == 'J' && TokenPrefix(TextArea)[14] == 'X'
    ensures TokenPrefix(Style)[14] == 'Y' && TokenPrefix(Script)[15] == 'I'
    ensures OtherCase('p') == 'P' && OtherCase('c') == 'C' && OtherCase('<') == '<' && OtherCase('C') == 'c'
    ensures OtherCase('J') == 'j' && OtherCase('X') == 'x' && OtherCase('Y') == 'y' && OtherCase('I') == 'i'
  {
  }

  lemma InputLacks()
    ensures 'p' !in Input && 'P' !in Input && 'c' !in Input && 'C' !in Input && |Input| <= MaxInt
  {
  }

  lemma ScriptletLacks()
    ensures 'J' !in Scriptlet && 'j' !in Scriptlet && |Scriptlet| <= MaxInt
  {
  }

  lemma ScriptletLacksI()
    ensures 'I' !in Scriptlet && 'i' !in Scriptlet
  {
  }

  /** The one `C` of the scriptlet, at index 5. */
  lemma ScriptletOneC()
    ensures 'C' !in Scriptlet[..5] && 'c' !in Scriptlet[..5]
  {
    assert Scriptlet[..5] == "<%%%%";
  }

  lemma ScriptletOneCAfter()
    ensures 'C' !in Scriptlet[6..] && 'c' !in Scriptlet[6..]
  {
    ScriptletTail();
    TailLacksC("OMPRESS~STYLE~0%%%%>");
  }

  lemma TailLacksC(tail: string)
    requires tail == "OMPRESS~STYLE~0%%%%>"
    ensures 'C' !in tail && 'c' !in tail
  {
  }

  lemma ScriptletTail()
    ensures Scriptlet[6..] == "OMPRESS~STYLE~0%%%%>"
  {
    assert Scriptlet == "<%%%%C" + "OMPRESS~STYLE~0%%%%>";
  }

  /** The scriptlet opens with `<%%`, closes with `%>` and has no other `>`. */
  lemma ScriptletShape()
    ensures |Scriptlet| >= 6 && Scriptlet[..2] == "<%" && Scriptlet[2] == '%'
    ensures Scriptlet[|Scriptlet| - 2..] == "%>" && '>' !in Scriptlet[..|Scriptlet| - 1]
  {
    var body := "<%%%%COMPRESS~STYLE~0%%%%";
    assert Scriptlet == body + ">";
    assert Scriptlet[..|Scriptlet| - 1] == body;
  }

  lemma PreservedLacks()
    ensures '<' !in Preserved && 'X' !in Preserved && 'x' !in Preserved && |Preserved| <= MaxInt
  {
  }

  lemma PreservedLacksY()
    ensures 'Y' !in Preserved && 'y' !in Preserved
  {
  }

  lemma PreMissesScriptlet()
    ensures !StartsWithCI(Scriptlet[2..], TokenPrefix(Pre))
  {
    assert Scriptlet[2..][12] == 'S' && TokenPrefix(Pre)[12] == 'P';
  }

  // The input, pass by pass.

  lemma PreAndScriptSkip()
    ensures Extract(Pre, Input) == (Input, [])
    ensures Extract(Script, Input) == (Input, [])
  {
    Letters();
    InputLacks();
    SkipsWithout(Pre, Input, 1);
    SkipsWithout(Script, Input, 2);
  }

  lemma StyleTaken()
    ensures Extract(Style, Input) == (Scriptlet, [StyleElement])
  {
    StyleOnce("<%", "%>");
    SpelledTokens();
  }

  lemma JspTaken()
    ensures Extract(Jsp, Scriptlet) == (Preserved, [Scriptlet])
  {
    SpelledTokens();
    ScriptletShape();
    JspWhole(Scriptlet);
  }

  lemma TextAreaSkips()
    ensures Extract(TextArea, Preserved) == (Preserved, [])
  {
    Letters();
    PreservedLacks();
    SkipsWithout(TextArea, Preserved, 0);
  }

  /** The five preserve passes turn the input into one JSP placeholder, whose block holds the style placeholder. */
  lemma InputPreserved()
    ensures ExtractAll(ExtractOrder, Input, NoBlocks) == (Preserved, PreservedStores)
  {
    PreAndScriptSkip();
    StyleTaken();
    JspTaken();
    TextAreaSkips();
    ChainOfFive(Extract, Input);
  }

  /** The texts before each preserve pass are clean for that pass. */
  lemma StagesClean()
    ensures Clean(Pre, Input) && Clean(Script, Input) && Clean(Style, Input)
    ensures Clean(Jsp, Scriptlet) && Clean(TextArea, Preserved)
  {
    Letters();
    InputLacks();
    ScriptletLacks();
    PreservedLacks();
    CleanWithout(Pre, Input, 3);
    CleanWithout(Script, Input, 3);
    CleanWithout(Style, Input, 3);
    CleanWithout(Jsp, Scriptlet, 12);
    CleanWithout(TextArea, Preserved, 14);
  }

  /** The input's only `C`, in either case, is its seventh character. */
  lemma AbuttingOneC()
    ensures 'C' !in Abutting[..6] && 'c' !in Abutting[..6]
    ensures 'C' !in Abutting[7..] && 'c' !in Abutting[7..]
  {
    assert Abutting[..6] == ShortScriptlet;
    assert Abutting[7..] == "OMPRESS~STYLE~0%%%";
  }

  /** Before each preserve pass the text holds no placeholder head of that pass. */
  lemma InputClean()
    ensures StagesFree(ExtractOrder, Input)
  {
    PreAndScriptSkip();
    StyleTaken();
    JspTaken();
    StagesClean();
    StagesThrough(Clean, Extract, Input, Scriptlet, Preserved);
  }

  /** Five stages over given intermediate texts, for any passes. */
  lemma StagesThrough(fits: (Category, string) -> bool, extract: Extractor, t0: string, t3: string, t4: string)
    requires extract(Pre, t0).0 == t0 && extract(Script, t0).0 == t0
    requires extract(Style, t0).0 == t3 && extract(Jsp, t3).0 == t4
    requires fits(Pre, t0) && fits(Script, t0) && fits(Style, t0) && fits(Jsp, t3) && fits(TextArea, t4)
    ensures Stages(fits, extract, ExtractOrder, t0)
  {
    StagesOfFive(fits, extract, ExtractOrder, t0);
  }

  lemma TextAreaKeeps()
    ensures Restore(TextArea, Preserved, []) == Ok(Preserved)
  {
    Letters();
    PreservedLacks();
    KeepsWithout(TextArea, Preserved, [], 14);
  }

  lemma StyleKeeps()
    ensures Restore(Style, Preserved, [StyleElement]) == Ok(Preserved)
  {
    Letters();
    PreservedLacksY();
    KeepsWithout(Style, Preserved, [StyleElement], 14);
  }

  lemma ScriptAndPreKeep()
    ensures Restore(Script, Scriptlet, []) == Ok(Scriptlet)
    ensures Restore(Pre, Scriptlet, []) == Ok(Scriptlet)
  {
    Letters();
    ScriptletLacksI();
    ScriptletOneC();
    ScriptletOneCAfter();
    KeepsWithout(Script, Scriptlet, [], 15);
    PreMissesScriptlet();
    FreeOfAnchored(Scriptlet, TokenPrefix(Pre), 3, 5);
    RestoreNothing(Pre, Scriptlet, []);
  }

  /**
   * The return passes in the order as written give back the scriptlet
   * with the style placeholder still in it.
   */
  lemma SourceOrderLeaks()
    ensures RestoreAll(SourceRestoreOrder, Preserved, PreservedStores) == Ok(Scriptlet)
  {
    TextAreaKeeps();
    StyleKeeps();
    JspRestored();
    ScriptAndPreKeep();
    LeakChain(Restore, Preserved, Scriptlet, StyleElement);
  }

  lemma JspRestored()
    ensures Restore(Jsp, Preserved, [Scriptlet]) == Ok(Scriptlet)
  {
    SpelledTokens();
    RestoresWhole(Jsp, Scriptlet);
  }

  /**
   * For any return passes: when the JSP pass brings back a block that
   * neither the script nor the pre pass changes, the order as written
   * ends with that block.
   */
  lemma LeakChain(restore: Restorer, t2: string, t1: string, style: string)
    requires restore(TextArea, t2, []) == Ok(t2) && restore(Style, t2, [style]) == Ok(t2)
    requires restore(Jsp, t2, [t1]) == Ok(t1)
    requires restore(Script, t1, []) == Ok(t1) && restore(Pre, t1, []) == Ok(t1)
    ensures RestoreChain(restore, SourceRestoreOrder, t2, Stores([], [], [style], [t1], [])) == Ok(t1)
  {
    ReturnChainOfFive(restore, SourceRestoreOrder, t2, Stores([], [], [style], [t1], []));
  }

  /**
   * `preserveBlocks` followed by `returnBlocks` as written does not give
   * back the input, although before each pass the text holds no
   * placeholder head of that pass: the output keeps
   * `%%%COMPRESS~STYLE~0%%%` where the style element was.
   */
  lemma SourceOrderBreaksRoundTrip()
    ensures StagesFree(ExtractOrder, Input)
    ensures ExtractAll(ExtractOrder, Input, NoBlocks) == (Preserved, PreservedStores)
    ensures RestoreAll(SourceRestoreOrder, Preserved, PreservedStores) == Ok(Scriptlet)
    ensures Scriptlet != Input && Scriptlet == "<%" + (Token(Style, 0) + "%>")
  {
    InputClean();
    InputPreserved();
    SourceOrderLeaks();
    SpelledTokens();
    assert |Scriptlet| == 26 && |Input| == 19;
  }

  /**
   * `compress` with the default settings turns the scriptlet into one
   * that holds the style placeholder instead of the style element; with
   * the return passes in reverse it gives the input back.
   */
  lemma CompressLeaksPlaceholder(jsMinifier: JsMinifier, cssMinifier: CssMinifier)
    ensures CompressOf(Default, jsMinifier, cssMinifier, Input) == Ok(Scriptlet)
    ensures CorrectedCompressOf(Default, jsMinifier, cssMinifier, Input) == Ok(Input)
  {
    SourceOrderCompress(jsMinifier, cssMinifier);
    ReverseOrderCompress(jsMinifier, cssMinifier);
  }

  /** The preserved text comes through the markup passes and the minifiers unchanged. */
  lemma PreservedUntouched(jsMinifier: JsMinifier, cssMinifier: CssMinifier)
    ensures ProcessHtml(Default, Preserved) == Preserved
    ensures MinifyStores(Default, jsMinifier, cssMinifier, PreservedStores) == Ok(PreservedStores)
  {
    SpelledTokens();
    TokenInert(Jsp, 0);
    InertUnprocessed(Default, Preserved);
    MinifyingOff(Default, jsMinifier, cssMinifier, PreservedStores);
  }

  lemma SourceOrderCompress(jsMinifier: JsMinifier, cssMinifier: CssMinifier)
    ensures CompressOf(Default, jsMinifier, cssMinifier, Input) == Ok(Scriptlet)
  {
    SourceOrderBreaksRoundTrip();
    PreservedUntouched(jsMinifier, cssMinifier);
    CompressThrough(SourceRestoreOrder, Default, jsMinifier, cssMinifier, Input, Preserved, PreservedStores, Scriptlet);
    assert Scriptlet[0] == '<' && Scriptlet[|Scriptlet| - 1] == '>';
    TrimOfTrimmed(Scriptlet);
  }

  lemma ReverseOrderCompress(jsMinifier: JsMinifier, cssMinifier: CssMinifier)
    ensures CorrectedCompressOf(Default, jsMinifier, cssMinifier, Input) == Ok(Input)
  {
    ReverseOrderRestores();
    InputPreserved();
    PreservedUntouched(jsMinifier, cssMinifier);
    CompressThrough(RestoreOrder, Default, jsMinifier, cssMinifier, Input, Preserved, PreservedStores, Input);
    assert Input[0] == '<' && Input[|Input| - 1] == '>';
    TrimOfTrimmed(Input);
  }

  /** The return passes in reverse give the same input back. */
  lemma ReverseOrderRestores()
    ensures RestoreAll(RestoreOrder, Preserved, PreservedStores) == Ok(Input)
  {
    InputClean();
    InputPreserved();
    PreserveThenReturn(Input);
  }

  // ---------------------------------------------------------------------
  // A second input: a placeholder that straddles the end of a JSP placeholder

  /** A short JSP scriptlet. */
  const ShortScriptlet: string := "<%ab%>"

  /** Text that, written after a placeholder, completes a style placeholder with the placeholder's last `%%%`. */
  const StyleTail: string := "COMPRESS~STYLE~0%%%"

  /** The scriptlet followed by that text: neither holds a placeholder head. */
  const Abutting: string := ShortScriptlet + StyleTail

  /** What is left of it after the five preserve passes. */
  const AbuttingPreserved: string := JspOpening + "%%%" + StyleTail

  /** The JSP placeholder without its last `%%%`. */
  const JspOpening: string := "%%%COMPRESS~JSP~0"

  /** The lists after the five preserve passes: only the scriptlet. */
  const AbuttingStores: Stores := Stores([], [], [], [ShortScriptlet], [])

  lemma SpelledAbutting()
    ensures AbuttingPreserved == Token(Jsp, 0) + StyleTail
    ensures AbuttingPreserved == JspOpening + (Token(Style, 0) + [])
  {
    SpelledZeroTokens();
    ConcatAssoc(JspOpening, "%%%", StyleTail);
  }

  lemma SpelledZeroTokens()
    ensures Token(Jsp, 0) == JspOpening + "%%%"
    ensures Token(Style, 0) + [] == "%%%" + StyleTail
  {
    assert DecimalString(0) == "0";
  }

  /** The JSP pattern matches the scriptlet at the start of the input. */
  lemma ShortJspAt()
    ensures JspAt(Abutting) == Some(Span(6, 3, 4))
  {
    var t := Abutting;
    assert t == "<%" + t[2..];
    StartsWithItself("<%", t[2..]);
    assert t[4..] == "%>" + StyleTail;
    StartsWithItself("%>", StyleTail);
    assert IsJspMatch(t, 4);
  }

  lemma AbuttingJspTaken()
    ensures Extract(Jsp, Abutting) == (AbuttingPreserved, [ShortScriptlet])
  {
    AbuttingJspText();
    AbuttingJspBlocks();
    SpelledAbutting();
  }

  /** The JSP pass puts the first JSP placeholder where the scriptlet was. */
  lemma AbuttingJspText()
    ensures Extract(Jsp, Abutting).0 == Token(Jsp, 0) + StyleTail
  {
    var fb := Compile(BlockPattern(Jsp));
    BlockNeedsOpener(Jsp);
    CategoryNumbers(Jsp);
    ShortJspAt();
    assert [] + (ShortScriptlet + StyleTail) == Abutting;
    AbuttingAfterJsp();
    var first: nat := 0;
    ExtractOneAt(fb, TokenFor(Jsp), TokenPrefix(Jsp), Opener(Jsp), [], ShortScriptlet, StyleTail, first);
    assert [] + (Token(Jsp, 0) + StyleTail) == Token(Jsp, 0) + StyleTail;
  }

  /** The JSP pass stores the scriptlet alone. */
  lemma AbuttingJspBlocks()
    ensures Extract(Jsp, Abutting).1 == [ShortScriptlet]
  {
    var fb := Compile(BlockPattern(Jsp));
    BlockNeedsOpener(Jsp);
    ShortJspAt();
    assert [] + (ShortScriptlet + StyleTail) == Abutting;
    AbuttingAfterJsp();
    OneBlockAt(fb, Opener(Jsp), [], ShortScriptlet, StyleTail);
  }

  /** No JSP opener after the scriptlet. */
  lemma AbuttingAfterJsp()
    ensures FreeOf(StyleTail, Opener(Jsp))
  {
    assert Opener(Jsp)[0] == '<';
    FreeOfMissing(StyleTail, Opener(Jsp), 0);
  }

  /** The input's one `<` opens `<%`, so no element pass finds anything. */
  lemma AbuttingElementsSkip(c: Category)
    requires c == Pre || c == Script || c == Style
    ensures Extract(c, Abutting) == (Abutting, [])
  {
    var t := Abutting;
    assert Opener(c)[0] == '<' && OtherCase('<') == '<';
    assert '<' !in t[1..];
    assert !StartsWithCI(t[0..], Opener(c)) by {
      assert t[0..][1] == '%';
      LowerOfNonLetter(t[0..][1], '%');
    }
    FreeOfAnchored(t, Opener(c), 0, 0);
    ExtractNothing(c, t);
  }

  /** The input's one `C` is not preceded by `%%%`, so it holds no element placeholder head. */
  lemma AbuttingCleanForElements(c: Category)
    requires c == Pre || c == Script || c == Style
    ensures Clean(c, Abutting)
  {
    var t := Abutting;
    Letters();
    AbuttingOneC();
    assert !StartsWithCI(t[3..], TokenPrefix(c)) by {
      assert t[3..][0] == 'b' && TokenPrefix(c)[0] == '%';
      LowerOfNonLetter('%', '%');
    }
    FreeOfAnchored(t, TokenPrefix(c), 3, 6);
  }

  /** Before each preserve pass the text holds no placeholder head of that pass. */
  lemma AbuttingClean()
    ensures StagesFree(ExtractOrder, Abutting)
  {
    Letters();
    AbuttingElementsSkip(Pre);
    AbuttingElementsSkip(Script);
    AbuttingElementsSkip(Style);
    AbuttingJspTaken();
    AbuttingCleanForElements(Pre);
    AbuttingCleanForElements(Script);
    AbuttingCleanForElements(Style);
    AbuttingLacks();
    CleanWithout(Jsp, Abutting, 12);
    AbuttingTextAreaClean();
    StagesThrough(Clean, Extract, Abutting, Abutting, AbuttingPreserved);
  }

  lemma AbuttingLacks()
    ensures 'J' !in Abutting && 'j' !in Abutting && |Abutting| <= MaxInt
  {
  }

  lemma AbuttingPreservedLacks()
    ensures '<' !in AbuttingPreserved && 'X' !in AbuttingPreserved && 'x' !in AbuttingPreserved
    ensures |AbuttingPreserved| <= MaxInt
  {
  }

  lemma JspOpeningLacks()
    ensures 'Y' !in JspOpening && 'y' !in JspOpening
  {
  }

  lemma ShortScriptletLacks()
    ensures 'C' !in ShortScriptlet && 'c' !in ShortScriptlet
  {
  }

  lemma AbuttingTextAreaSkips()
    ensures Extract(TextArea, AbuttingPreserved) == (AbuttingPreserved, [])
  {
    Letters();
    AbuttingPreservedLacks();
    SkipsWithout(TextArea, AbuttingPreserved, 0);
  }

  lemma AbuttingTextAreaClean()
    ensures Clean(TextArea, AbuttingPreserved)
  {
    Letters();
    AbuttingPreservedLacks();
    CleanWithout(TextArea, AbuttingPreserved, 14);
  }

  /** The five preserve passes store the scriptlet and leave the straddling style placeholder. */
  lemma AbuttingPreservedAll()
    ensures ExtractAll(ExtractOrder, Abutting, NoBlocks) == (AbuttingPreserved, AbuttingStores)
  {
    AbuttingElementsSkip(Pre);
    AbuttingElementsSkip(Script);
    AbuttingElementsSkip(Style);
    AbuttingJspTaken();
    AbuttingTextAreaSkips();
    ChainOfFive(Extract, Abutting);
  }

  /** In the order as written, the style pass meets the straddling placeholder while the style list is empty. */
  lemma AbuttingThrows()
    ensures RestoreAll(SourceRestoreOrder, AbuttingPreserved, AbuttingStores) == Err(MissingError(0, 0))
  {
    Letters();
    AbuttingPreservedLacks();
    KeepsWithout(TextArea, AbuttingPreserved, [], 14);
    JspOpeningLacks();
    FreeOfMissing(JspOpening, TokenPrefix(Style), 14);
    RestoreMissing(Style, JspOpening, 0, [], []);
    SpelledAbutting();
    ReturnChainInOrder(Restore, AbuttingPreserved, AbuttingStores);
  }

  /**
   * A JSP block that holds no style placeholder head is not enough for
   * the order as written: the scriptlet `<%ab%>` followed by
   * `COMPRESS~STYLE~0%%%` makes `compress` throw, whatever the settings,
   * where the return passes in reverse give the input back.
   */
  lemma StraddlingPlaceholderThrows(config: Config, jsMinifier: JsMinifier, cssMinifier: CssMinifier)
    requires config.enabled
    ensures StagesFree(ExtractOrder, Abutting)
    ensures ExtractAll(ExtractOrder, Abutting, NoBlocks).1.jsp == [ShortScriptlet]
    ensures FreeOf(ShortScriptlet, TokenPrefix(Style))
    ensures CompressOf(config, jsMinifier, cssMinifier, Abutting) == Err(MissingError(0, 0))
    ensures CorrectedCompressOf(config, jsMinifier, cssMinifier, Abutting) == Ok(Abutting)
  {
    AbuttingClean();
    AbuttingPreservedAll();
    AbuttingThrows();
    PreserveThenReturn(Abutting);
    Letters();
    ShortScriptletLacks();
    FreeOfMissing(ShortScriptlet, TokenPrefix(Style), 3);
    AbuttingUnprocessed(config);
    assert MinifyStores(config, jsMinifier, cssMinifier, AbuttingStores) == Ok(AbuttingStores);
    CompressThrough(RestoreOrder, config, jsMinifier, cssMinifier, Abutting, AbuttingPreserved, AbuttingStores, Abutting);
    assert Abutting[0] == '<' && Abutting[|Abutting| - 1] == '%';
    TrimOfTrimmed(Abutting);
  }

  /** The markup rewrites find nothing in the preserved text: it is inert all through. */
  lemma AbuttingUnprocessed(config: Config)
    ensures ProcessHtml(config, AbuttingPreserved) == AbuttingPreserved
  {
    SpelledAbutting();
    TokenInert(Jsp, 0);
    assert forall j :: 0 <= j < |StyleTail| ==> Inert(StyleTail[j]);
    InertUnprocessed(config, AbuttingPreserved);
  }
}
