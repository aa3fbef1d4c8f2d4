/**
 * `preserveBlocks` and `returnBlocks` (HtmlCompressor.java lines 122-229).
 *
 * Before the markup is compressed, every `<pre>`, `<script>`, `<style>`,
 * JSP scriptlet and `<textarea>` block is cut out into a list of its own
 * and replaced by a numbered placeholder `%%%COMPRESS~<CAT>~<n>%%%`;
 * afterwards each placeholder is replaced by block `n` of its list again.
 * Each of the ten passes in the source is the same `Matcher` loop with a
 * different pattern and replacement: here one pass of each kind, run for
 * a category given as a parameter.
 */
module Blocks {
  import opened Outcomes
  import opened Chars
  import opened Patterns
  import opened Rewriting

  /** The five lists `compress` collects the protected blocks in. */
  datatype Stores = Stores(pre: seq<string>, script: seq<string>, style: seq<string>,
                           jsp: seq<string>, textArea: seq<string>)
  {
    function Get(c: Category): seq<string> {
      match c
      case Pre => pre
      case Script => script
      case Style => style
      case Jsp => jsp
      case TextArea => textArea
    }

    /** The stores with the list of category `c` replaced and the others kept. */
    function Set(c: Category, blocks: seq<string>): (s: Stores)
      ensures s.Get(c) == blocks
      ensures forall d :: d != c ==> s.Get(d) == Get(d)
    {
      match c
      case Pre => this.(pre := blocks)
      case Script => this.(script := blocks)
      case Style => this.(style := blocks)
      case Jsp => this.(jsp := blocks)
      case TextArea => this.(textArea := blocks)
    }
  }

  /** The five empty lists `compress` starts from. */
  const NoBlocks: Stores := Stores([], [], [], [], [])

  /** The replacement of the `k`-th block of category `c`: its placeholder. */
  function TokenFor(c: Category): (sub: Substitution)
    ensures forall k: nat, g: string :: sub(k, g) == Ok(Token(c, k))
  {
    (k: nat, g: string) => Ok(Token(c, k))
  }

  /**
   * `blocks.get(Integer.parseInt(digits))`: the stored block the digits of
   * a placeholder name, or the exception the lookup throws.
   */
  function Lookup(blocks: seq<string>, digits: string): (r: Result<string>)
    ensures ParseInt(digits).Err? ==> r == Err(NumberFormat(digits))
    ensures ParseInt(digits).Ok? ==>
              var n := ParseInt(digits).value;
              r == if n < |blocks| then Ok(blocks[n]) else Err(IndexOutOfBounds(n, |blocks|))
  {
    var n :- ParseInt(digits);
    if n < |blocks| then Ok(blocks[n]) else Err(IndexOutOfBounds(n, |blocks|))
  }

  /** The replacement of a placeholder whose digits are its group: the block it names. */
  function StoredBlock(blocks: seq<string>): (sub: Substitution)
    ensures forall k: nat, digits: string :: sub(k, digits) == Lookup(blocks, digits)
  {
    (k: nat, digits: string) => Lookup(blocks, digits)
  }

  /**
   * One preserve pass: the text with every block of category `c` replaced
   * by its placeholder, numbered from 0, and the blocks in the order found.
   */
  function Extract(c: Category, html: string): (string, seq<string>) {
    var f := Compile(BlockPattern(c));
    (Rewrite(f, html, TokenFor(c)), MatchedTexts(f, html))
  }

  /** One return pass: every placeholder of category `c` replaced by the block it names. */
  function Restore(c: Category, html: string, blocks: seq<string>): Result<string> {
    ReplaceAll(PlaceholderMatcher(c), html, StoredBlock(blocks), 0)
  }

  /** One of the five loops of `preserveBlocks`. */
  method PreserveCategory(c: Category, html: string) returns (out: string, blocks: seq<string>)
    ensures (out, blocks) == Extract(c, html)
  {
    var res;
    res, blocks := ReplaceEach(Compile(BlockPattern(c)), html, TokenFor(c));
    out := res.value;
  }

  /** One of the five loops of `returnBlocks`. */
  method RestoreCategory(c: Category, html: string, blocks: seq<string>) returns (r: Result<string>)
    ensures r == Restore(c, html, blocks)
  {
    var found;
    r, found := ReplaceEach(PlaceholderMatcher(c), html, StoredBlock(blocks));
  }

  // ---------------------------------------------------------------------
  // A placeholder and the text around it
  //
  // The lemmas below are stated for any head of the shape of
  // `%%%COMPRESS~<CAT>~`, so that their proofs need not look inside the
  // five heads, and the ones about a pass for any matcher that has the two
  // properties of the placeholder scanner they use.

  /** The shape of every placeholder head: three `%`, then no `%` at all. */
  predicate HeadShape(head: string) {
    && |head| >= 4 && head[0] == '%' && head[1] == '%' && head[2] == '%'
    && forall i :: 3 <= i < |head| ==> head[i] != '%'
  }

  /** No category name holds a `%`. */
  lemma NameFreeOfPercent(c: Category)
    ensures forall i :: 0 <= i < |CategoryName(c)| ==> CategoryName(c)[i] != '%'
  {
  }

  lemma HeadOfShape(name: string)
    requires forall i :: 0 <= i < |name| ==> name[i] != '%'
    ensures HeadShape("%%%COMPRESS~" + name + "~")
  {
    var head := "%%%COMPRESS~" + name + "~";
    forall i | 3 <= i < |head| ensures head[i] != '%' {
      if 12 <= i < 12 + |name| {
        assert head[i] == name[i - 12];
      }
    }
  }

  lemma PrefixShape(c: Category)
    ensures HeadShape(TokenPrefix(c))
  {
    NameFreeOfPercent(c);
    HeadOfShape(CategoryName(c));
  }

  /** Where `text` holds no placeholder head, no piece of it does. */
  lemma FreeOfPiece(text: string, lit: string, a: nat, b: nat)
    requires FreeOf(text, lit) && a <= b <= |text|
    ensures FreeOf(text[a..b], lit)
  {
    forall j | 0 <= j <= b - a ensures !StartsWithCI(text[a..b][j..], lit) {
      if |lit| <= |text[a..b][j..]| {
        assert text[a..b][j..][..|lit|] == text[a + j..][..|lit|];
        StartsWithSamePrefix(text[a..b][j..], text[a + j..], lit);
      }
    }
  }

  /**
   * A placeholder head cannot begin in `before` and run on into a
   * placeholder that follows: the head has three `%` only at its start.
   */
  lemma NoHeadAcross(head: string, before: string, k: nat, after: string, j: nat)
    requires HeadShape(head) && FreeOf(before, head) && j < |before|
    ensures !StartsWithCI((before + (NumberedToken(head, k) + after))[j..], head)
  {
    var u := before + (NumberedToken(head, k) + after);
    if j + |head| <= |before| {
      assert u[j..][..|head|] == before[j..][..|head|];
      StartsWithSamePrefix(u[j..], before[j..], head);
    } else {
      var d := |before| - j;
      var i := if d >= 3 then d else 3;
      assert u[j..][i] == head[i - d];
      LowerOfNonLetter(head[i], '%');
    }
  }

  lemma TokenHead(head: string, k: nat, after: string)
    ensures StartsWithCI(NumberedToken(head, k) + after, head)
  {
    assert NumberedToken(head, k) + after == head + (DecimalString(k) + TokenSuffix + after);
    StartsWithItself(head, DecimalString(k) + TokenSuffix + after);
  }

  /** The digits of a placeholder run up to its closing `%%%`. */
  lemma TokenDigits(head: string, k: nat, after: string)
    ensures |head| + |DecimalString(k)| < |NumberedToken(head, k) + after|
    ensures DigitsEnd(head, NumberedToken(head, k) + after) == |head| + |DecimalString(k)|
  {
    var digits := DecimalString(k);
    var u := NumberedToken(head, k) + after;
    assert u == head + (digits + (TokenSuffix + after));
    assert u[|head| + |digits|] == '%';
    RunIsUnique(Digit, u, |head|, |digits|);
  }

  lemma TokenGroup(head: string, k: nat, after: string)
    ensures var u := NumberedToken(head, k) + after;
            |head| + |DecimalString(k)| <= |u| && u[|head|..|head| + |DecimalString(k)|] == DecimalString(k)
  {
    assert NumberedToken(head, k) + after == head + (DecimalString(k) + (TokenSuffix + after));
  }

  lemma TokenTail(head: string, k: nat, after: string)
    ensures var u := NumberedToken(head, k) + after;
            |head| + |DecimalString(k)| <= |u| && StartsWithCI(u[|head| + |DecimalString(k)|..], TokenSuffix)
  {
    var u := NumberedToken(head, k) + after;
    assert u[|head| + |DecimalString(k)|..] == TokenSuffix + after;
    StartsWithItself(TokenSuffix, after);
  }

  /** The placeholder pattern, tried on a placeholder, matches all of it; its group is the number. */
  lemma PlaceholderOpens(head: string, k: nat, after: string)
    ensures PlaceholderAt(head, NumberedToken(head, k) + after)
            == Some(Span(|NumberedToken(head, k)|, |head|, |head| + |DecimalString(k)|))
  {
    TokenHead(head, k, after);
    TokenDigits(head, k, after);
    TokenTail(head, k, after);
  }

  /** `fp` matches only where the placeholder head `head` starts. */
  ghost predicate NeedsHead(fp: Matcher, head: string) {
    forall t :: fp(t).Some? ==> StartsWithCI(t, head)
  }

  /** `fp` matches every placeholder with head `head` whole, with its number as the group. */
  ghost predicate OpensTokens(fp: Matcher, head: string) {
    forall k: nat, after: string :: fp(NumberedToken(head, k) + after)
                                     == Some(Span(|NumberedToken(head, k)|, |head|, |head| + |DecimalString(k)|))
  }

  /** `tokens` replaces the `k`-th match by the placeholder with head `head` and number `k`. */
  ghost predicate NumbersWith(tokens: Substitution, head: string) {
    forall k: nat, g: string :: tokens(k, g) == Ok(NumberedToken(head, k))
  }

  lemma CategoryNeedsHead(c: Category)
    ensures NeedsHead(PlaceholderMatcher(c), TokenPrefix(c))
  {
  }

  /** A matcher that is the placeholder scanner for `head` opens every placeholder with that head. */
  lemma ScannerOpensTokens(fp: Matcher, head: string)
    requires forall t :: fp(t) == PlaceholderAt(head, t)
    ensures OpensTokens(fp, head)
  {
    forall k: nat, after: string
      ensures fp(NumberedToken(head, k) + after)
              == Some(Span(|NumberedToken(head, k)|, |head|, |head| + |DecimalString(k)|))
    {
      PlaceholderOpens(head, k, after);
    }
  }

  lemma CategoryOpensTokens(c: Category)
    ensures OpensTokens(PlaceholderMatcher(c), TokenPrefix(c))
  {
    ScannerOpensTokens(PlaceholderMatcher(c), TokenPrefix(c));
  }

  lemma CategoryNumbers(c: Category)
    ensures NumbersWith(TokenFor(c), TokenPrefix(c))
  {
  }

  /** A text free of a head holds no placeholder with it. */
  lemma NoPlaceholderIn(fp: Matcher, head: string, text: string)
    requires NeedsHead(fp, head) && FreeOf(text, head)
    ensures NoMatchBetween(fp, text, 0, |text| + 1)
  {
    forall j | 0 <= j <= |text| ensures fp(text[j..]).None? {
      assert !StartsWithCI(text[j..], head);
    }
  }

  lemma NoPlaceholderAcross(fp: Matcher, head: string, before: string, k: nat, after: string)
    requires NeedsHead(fp, head) && HeadShape(head) && FreeOf(before, head)
    ensures NoMatchBetween(fp, before + (NumberedToken(head, k) + after), 0, |before|)
  {
    var u := before + (NumberedToken(head, k) + after);
    forall j | 0 <= j < |before| ensures fp(u[j..]).None? {
      NoHeadAcross(head, before, k, after, j);
    }
  }

  lemma Joined(before: string, v: string, e: nat)
    requires e <= |v|
    ensures (before + v)[|before|..] == v && (before + v)[..|before|] == before
    ensures (before + v)[|before| + e..] == v[e..]
  {
  }

  /**
   * The next match of `before + v` starts `v` and is replaced by `block`:
   * the text before it is copied and `block` takes its place.
   */
  lemma RestoreNext(fp: Matcher, before: string, v: string, m: Span, sub: Substitution, j: nat, block: string)
    requires NoMatchBetween(fp, before + v, 0, |before|) && fp(v) == Some(m)
    requires sub(j, v[m.groupStart..m.groupEnd]) == Ok(block)
    ensures m.end <= |v|
    ensures ReplaceAll(fp, before + v, sub, j) == Prepend(before + block, ReplaceAll(fp, v[m.end..], sub, j + 1))
  {
    Joined(before, v, m.end);
    NextMatch(fp, before + v, |before|, m, sub, j);
  }

  /** Digits that read as the index of a stored block are replaced by that block. */
  lemma LookupFound(blocks: seq<string>, j: nat, digits: string, n: nat)
    requires ParseInt(digits) == Ok(n) && n < |blocks|
    ensures StoredBlock(blocks)(j, digits) == Ok(blocks[n])
  {
  }

  /** The number of a placeholder reads back as the number it was written with. */
  lemma TokenNumber(head: string, k: nat, after: string)
    requires k <= MaxInt
    ensures var v := NumberedToken(head, k) + after;
            |head| + |DecimalString(k)| <= |v| && ParseInt(v[|head|..|head| + |DecimalString(k)|]) == Ok(k)
  {
    TokenGroup(head, k, after);
    ParseIntOfDecimalString(k);
  }

  lemma AfterToken(head: string, k: nat, after: string)
    ensures (NumberedToken(head, k) + after)[|NumberedToken(head, k)|..] == after
  {
  }

  /**
   * Restoring a text that holds a placeholder after a stretch free of
   * placeholder heads: the stretch is copied and the placeholder becomes
   * the block it names.
   */
  lemma RestoreStep(fp: Matcher, head: string, before: string, k: nat, after: string, blocks: seq<string>, j: nat)
    requires NeedsHead(fp, head) && OpensTokens(fp, head) && HeadShape(head) && FreeOf(before, head)
    requires k <= MaxInt && k < |blocks|
    ensures ReplaceAll(fp, before + (NumberedToken(head, k) + after), StoredBlock(blocks), j)
            == Prepend(before + blocks[k], ReplaceAll(fp, after, StoredBlock(blocks), j + 1))
  {
    var v := NumberedToken(head, k) + after;
    TokenNumber(head, k, after);
    NoPlaceholderAcross(fp, head, before, k, after);
    AfterToken(head, k, after);
    var m := Span(|NumberedToken(head, k)|, |head|, |head| + |DecimalString(k)|);
    LookupFound(blocks, j, v[m.groupStart..m.groupEnd], k);
    RestoreNext(fp, before, v, m, StoredBlock(blocks), j, blocks[k]);
  }

  /** A text is the piece before `a`, the piece from `a` to `b` and the piece after `b`. */
  lemma ThreePieces(t: string, a: nat, b: nat)
    requires a <= b <= |t|
    ensures t[..a] + t[a..b] + t[b..] == t
  {
  }

  /**
   * Preserving a text whose next block starts at `start`: the text before
   * it is copied and the block becomes placeholder `k`.
   */
  lemma ExtractStep(fb: Matcher, tokens: Substitution, head: string, t: string, start: nat, m: Span, k: nat)
    requires NumbersWith(tokens, head)
    requires start <= |t| && NoMatchBetween(fb, t, 0, start) && fb(t[start..]) == Some(m)
    ensures start + m.end <= |t|
    ensures ReplaceAll(fb, t, tokens, k).value ==
            t[..start] + (NumberedToken(head, k) + ReplaceAll(fb, t[start + m.end..], tokens, k + 1).value)
  {
    NextMatch(fb, t, start, m, tokens, k);
    ConcatAssoc(t[..start], NumberedToken(head, k), ReplaceAll(fb, t[start + m.end..], tokens, k + 1).value);
  }

  /** The property `RoundTripFrom` proves, for the text `t` with the blocks `before` already taken. */
  ghost predicate RestoresFrom(fb: Matcher, fp: Matcher, tokens: Substitution, t: string, before: seq<string>, j: nat)
    requires Total(tokens)
  {
    ReplaceAll(fp, ReplaceAll(fb, t, tokens, |before|).value, StoredBlock(before + MatchedTexts(fb, t)), j) == Ok(t)
  }

  /** The round trip on a text without blocks. */
  lemma RoundTripNone(fb: Matcher, fp: Matcher, tokens: Substitution, head: string, t: string, before: seq<string>, j: nat)
    requires NeedsHead(fp, head) && NumbersWith(tokens, head)
    requires FreeOf(t, head) && Find(fb, t, 0).None?
    ensures RestoresFrom(fb, fp, tokens, t, before, j)
  {
    NoMatchIdentity(fb, t, tokens, |before|);
    NoPlaceholderIn(fp, head, t);
    NoMatchIdentity(fp, t, StoredBlock(before + MatchedTexts(fb, t)), j);
  }

  /** The blocks of `t` are the block at `start` and the blocks after it. */
  lemma BlocksAfter(fb: Matcher, t: string, before: seq<string>, start: nat, m: Span)
    requires Find(fb, t, 0) == Some(start) && fb(t[start..]) == Some(m)
    ensures start + m.end <= |t|
    ensures before + MatchedTexts(fb, t) == (before + [t[start..start + m.end]]) + MatchedTexts(fb, t[start + m.end..])
  {
    NextMatchTexts(fb, t, start, m);
  }

  /**
   * Restoring what the pass wrote for a text whose next block starts at
   * `start`: the text before the block is copied and its placeholder
   * becomes the stored block with its number.
   */
  lemma RestoreExtracted(fb: Matcher, fp: Matcher, tokens: Substitution, head: string, t: string, blocks: seq<string>,
                         k: nat, j: nat, start: nat, m: Span)
    requires NeedsHead(fp, head) && OpensTokens(fp, head) && NumbersWith(tokens, head) && HeadShape(head)
    requires start <= |t| && NoMatchBetween(fb, t, 0, start) && fb(t[start..]) == Some(m)
    requires FreeOf(t[..start], head) && k <= MaxInt && k < |blocks|
    ensures start + m.end <= |t|
    ensures ReplaceAll(fp, ReplaceAll(fb, t, tokens, k).value, StoredBlock(blocks), j)
            == Prepend(t[..start] + blocks[k],
                       ReplaceAll(fp, ReplaceAll(fb, t[start + m.end..], tokens, k + 1).value, StoredBlock(blocks), j + 1))
  {
    ExtractStep(fb, tokens, head, t, start, m, k);
    RestoreStep(fp, head, t[..start], k, ReplaceAll(fb, t[start + m.end..], tokens, k + 1).value, blocks, j);
  }

  /** The round trip on a text whose first block starts at `start`, given the round trip after it. */
  lemma RoundTripStep(fb: Matcher, fp: Matcher, tokens: Substitution, head: string, t: string, before: seq<string>, j: nat,
                      start: nat, m: Span)
    requires NeedsHead(fp, head) && OpensTokens(fp, head) && NumbersWith(tokens, head) && HeadShape(head)
    requires Find(fb, t, 0) == Some(start) && fb(t[start..]) == Some(m) && start + m.end <= |t|
    requires FreeOf(t[..start], head) && |before| + |t| <= MaxInt + 1
    requires RestoresFrom(fb, fp, tokens, t[start + m.end..], before + [t[start..start + m.end]], j + 1)
    ensures RestoresFrom(fb, fp, tokens, t, before, j)
  {
    var blocks := before + MatchedTexts(fb, t);
    BlocksAfter(fb, t, before, start, m);
    RestoreExtracted(fb, fp, tokens, head, t, blocks, |before|, j, start, m);
    ThreePieces(t, start, start + m.end);
  }

  /**
   * The round trip of one category, from the middle of a pass: `before`
   * are the blocks already taken out; restoring what the rest of the pass
   * writes, with all the blocks, gives back the rest of the text.
   */
  lemma {:induction false} RoundTripFrom(fb: Matcher, fp: Matcher, tokens: Substitution, head: string,
                                         t: string, before: seq<string>, j: nat)
    requires NeedsHead(fp, head) && OpensTokens(fp, head) && NumbersWith(tokens, head) && HeadShape(head)
    requires FreeOf(t, head) && |before| + |t| <= MaxInt + 1
    ensures RestoresFrom(fb, fp, tokens, t, before, j)
    decreases |t|
  {
    match Find(fb, t, 0)
    case None =>
      RoundTripNone(fb, fp, tokens, head, t, before, j);
    case Some(start) =>
      var m := fb(t[start..]).value;
      assert start + m.end <= |t|;
      FreeOfPiece(t, head, start + m.end, |t|);
      assert t[start + m.end..|t|] == t[start + m.end..];
      RoundTripFrom(fb, fp, tokens, head, t[start + m.end..], before + [t[start..start + m.end]], j + 1);
      FreeOfPiece(t, head, 0, start);
      assert t[0..start] == t[..start];
      RoundTripStep(fb, fp, tokens, head, t, before, j, start, m);
  }

  /**
   * The return pass undoes the preserve pass of the same category, on any
   * text that holds no placeholder head of that category (ignoring case)
   * and fits a Java string.
   */
  lemma RoundTrip(c: Category, t: string)
    requires FreeOf(t, TokenPrefix(c)) && |t| <= MaxInt
    ensures Restore(c, Extract(c, t).0, Extract(c, t).1) == Ok(t)
  {
    PrefixShape(c);
    CategoryNeedsHead(c);
    CategoryOpensTokens(c);
    CategoryNumbers(c);
    var fb := Compile(BlockPattern(c));
    RoundTripFrom(fb, PlaceholderMatcher(c), TokenFor(c), TokenPrefix(c), t, [], 0);
    assert [] + MatchedTexts(fb, t) == MatchedTexts(fb, t);
  }

  // ---------------------------------------------------------------------
  // Texts a pass leaves alone, and the placeholders a return pass rejects

  /** What every block of category `c` begins with. */
  function Opener(c: Category): string {
    match c
    case Pre => "<pre"
    case Script => "<script"
    case Style => "<style"
    case Jsp => "<%"
    case TextArea => "<textarea"
  }

  lemma ElementNeedsOpener(c: Category, name: string)
    requires BlockPattern(c) == Element(name, false) && Opener(c) == "<" + name
    ensures NeedsHead(Compile(BlockPattern(c)), Opener(c))
  {
    var f := Compile(BlockPattern(c));
    forall t | f(t).Some? ensures StartsWithCI(t, "<" + name) {
      assert f(t) == ElementAt(name, false, t);
    }
  }

  lemma JspNeedsOpener()
    ensures NeedsHead(Compile(BlockPattern(Jsp)), Opener(Jsp))
  {
    var f := Compile(BlockPattern(Jsp));
    forall t | f(t).Some? ensures StartsWithCI(t, "<%") {
      assert f(t) == JspAt(t);
    }
  }

  /** The block pattern of `c` matches only where its opener starts. */
  lemma BlockNeedsOpener(c: Category)
    ensures NeedsHead(Compile(BlockPattern(c)), Opener(c))
  {
    match c
    case Pre => ElementNeedsOpener(c, "pre");
    case Script => ElementNeedsOpener(c, "script");
    case Style => ElementNeedsOpener(c, "style");
    case Jsp => JspNeedsOpener();
    case TextArea => ElementNeedsOpener(c, "textarea");
  }

  /** A preserve pass leaves a text without the opener of its category as it is, and stores nothing. */
  lemma ExtractNothing(c: Category, t: string)
    requires FreeOf(t, Opener(c))
    ensures Extract(c, t) == (t, [])
  {
    var fb := Compile(BlockPattern(c));
    BlockNeedsOpener(c);
    NoPlaceholderIn(fb, Opener(c), t);
    NoMatchIdentity(fb, t, TokenFor(c), 0);
  }

  /** A return pass leaves a text without placeholder heads of its category as it is. */
  lemma RestoreNothing(c: Category, t: string, blocks: seq<string>)
    requires FreeOf(t, TokenPrefix(c))
    ensures Restore(c, t, blocks) == Ok(t)
  {
    CategoryNeedsHead(c);
    NoPlaceholderIn(PlaceholderMatcher(c), TokenPrefix(c), t);
    NoMatchIdentity(PlaceholderMatcher(c), t, StoredBlock(blocks), 0);
  }

  /** A match whose replacement fails makes the whole pass fail with that error. */
  lemma RestoreAborts(fp: Matcher, before: string, v: string, m: Span, sub: Substitution, j: nat, e: Error)
    requires NoMatchBetween(fp, before + v, 0, |before|) && fp(v) == Some(m)
    requires sub(j, v[m.groupStart..m.groupEnd]) == Err(e)
    ensures ReplaceAll(fp, before + v, sub, j) == Err(e)
  {
    Joined(before, v, m.end);
    NextMatch(fp, before + v, |before|, m, sub, j);
  }

  /**
   * What `blocks.get(Integer.parseInt(digits))` throws for the digits of
   * placeholder `k` when there are only `size` blocks and `k >= size`.
   */
  function MissingError(k: nat, size: nat): Error {
    if k <= MaxInt then IndexOutOfBounds(k, size) else NumberFormat(DecimalString(k))
  }

  /** The digits of placeholder `k` name no stored block: the lookup throws. */
  lemma LookupMissing(blocks: seq<string>, j: nat, k: nat)
    requires k >= |blocks|
    ensures StoredBlock(blocks)(j, DecimalString(k))
            == Err(MissingError(k, |blocks|))
  {
    if k <= MaxInt {
      ParseIntOfDecimalString(k);
    }
  }

  /**
   * `RestoreMissing` for any head, any matcher that reads placeholders
   * with it, and any lookup that throws `e` on the digits of `k`.
   */
  lemma RestoreMissingFrom(fp: Matcher, head: string, before: string, k: nat, after: string, sub: Substitution, e: Error)
    requires NeedsHead(fp, head) && OpensTokens(fp, head) && HeadShape(head) && FreeOf(before, head)
    requires sub(0, DecimalString(k)) == Err(e)
    ensures ReplaceAll(fp, before + (NumberedToken(head, k) + after), sub, 0) == Err(e)
  {
    var v := NumberedToken(head, k) + after;
    var m := Span(|NumberedToken(head, k)|, |head|, |head| + |DecimalString(k)|);
    assert fp(v) == Some(m);
    NoPlaceholderAcross(fp, head, before, k, after);
    TokenGroup(head, k, after);
    RestoreAborts(fp, before, v, m, sub, 0, e);
  }

  /**
   * A placeholder whose number is not the index of a stored block makes
   * the return pass throw: `List.get` when the number fits an `int`,
   * `Integer.parseInt` when it does not.
   */
  lemma RestoreMissing(c: Category, before: string, k: nat, after: string, blocks: seq<string>)
    requires FreeOf(before, TokenPrefix(c)) && k >= |blocks|
    ensures Restore(c, before + (Token(c, k) + after), blocks)
            == Err(MissingError(k, |blocks|))
  {
    PrefixShape(c);
    CategoryNeedsHead(c);
    CategoryOpensTokens(c);
    LookupMissing(blocks, 0, k);
    RestoreMissingFrom(PlaceholderMatcher(c), TokenPrefix(c), before, k, after, StoredBlock(blocks), MissingError(k, |blocks|));
  }

  // ---------------------------------------------------------------------
  // A text with a single block, and a single placeholder

  /**
   * A pass over a text holding one match, which starts after `before` and
   * spans `block`: the block becomes placeholder `k` and the rest is kept.
   */
  lemma ExtractOneAt(fb: Matcher, tokens: Substitution, head: string, opener: string,
                     before: string, block: string, after: string, k: nat)
    requires NeedsHead(fb, opener) && NumbersWith(tokens, head)
    requires NoMatchBetween(fb, before + (block + after), 0, |before|)
    requires fb(block + after).Some? && fb(block + after).value.end == |block|
    requires FreeOf(after, opener)
    ensures ReplaceAll(fb, before + (block + after), tokens, k).value == before + (NumberedToken(head, k) + after)
  {
    var t := before + (block + after);
    var m := fb(block + after).value;
    Joined(before, block + after, |block|);
    Joined(block, after, 0);
    NoPlaceholderIn(fb, opener, after);
    NoMatchIdentity(fb, after, tokens, k + 1);
    ExtractStep(fb, tokens, head, t, |before|, m, k);
    calc {
      ReplaceAll(fb, t, tokens, k).value;
      t[..|before|] + (NumberedToken(head, k) + ReplaceAll(fb, t[|before| + m.end..], tokens, k + 1).value);
      { assert t[|before| + m.end..] == after; }
      before + (NumberedToken(head, k) + after);
    }
  }

  /** The one match of such a text is the only text the pass collects. */
  lemma OneBlockAt(fb: Matcher, opener: string, before: string, block: string, after: string)
    requires NeedsHead(fb, opener)
    requires NoMatchBetween(fb, before + (block + after), 0, |before|)
    requires fb(block + after).Some? && fb(block + after).value.end == |block|
    requires FreeOf(after, opener)
    ensures MatchedTexts(fb, before + (block + after)) == [block]
  {
    var t := before + (block + after);
    var m := fb(block + after).value;
    Joined(before, block + after, |block|);
    Joined(block, after, 0);
    NoPlaceholderIn(fb, opener, after);
    NoMatchIdentity(fb, after, TokenFor(Pre), 0);
    NextMatchTexts(fb, t, |before|, m);
    var found, rest := t[|before|..|before| + m.end], t[|before| + m.end..];
    assert found == block && rest == after;
    assert MatchedTexts(fb, t) == [found] + MatchedTexts(fb, rest);
  }

  /** `RestoreOne` from the `j`-th match of the pass on. */
  lemma RestoreOneFrom(c: Category, before: string, k: nat, after: string, blocks: seq<string>, j: nat)
    requires FreeOf(before, TokenPrefix(c)) && k <= MaxInt && k < |blocks|
    ensures ReplaceAll(PlaceholderMatcher(c), before + (Token(c, k) + after), StoredBlock(blocks), j)
            == Prepend(before + blocks[k], ReplaceAll(PlaceholderMatcher(c), after, StoredBlock(blocks), j + 1))
  {
    PrefixShape(c);
    CategoryNeedsHead(c);
    CategoryOpensTokens(c);
    RestoreStep(PlaceholderMatcher(c), TokenPrefix(c), before, k, after, blocks, j);
  }

  /**
   * A return pass over a text whose first placeholder of category `c` is
   * placeholder `k`, after a stretch without placeholder heads: the
   * stretch is copied and the placeholder becomes block `k`, verbatim.
   */
  lemma RestoreOne(c: Category, before: string, k: nat, after: string, blocks: seq<string>)
    requires FreeOf(before, TokenPrefix(c)) && k <= MaxInt && k < |blocks|
    ensures Restore(c, before + (Token(c, k) + after), blocks)
            == Prepend(before + blocks[k], ReplaceAll(PlaceholderMatcher(c), after, StoredBlock(blocks), 1))
  {
    var first: nat := 0;
    RestoreOneFrom(c, before, k, after, blocks, first);
    assert first + 1 == 1;
  }

  /** A pass finds nothing in a text that lacks a letter of its opener (in both cases). */
  lemma SkipsWithout(c: Category, t: string, i: nat)
    requires i < |Opener(c)| && Opener(c)[i] !in t && OtherCase(Opener(c)[i]) !in t
    ensures Extract(c, t) == (t, [])
  {
    FreeOfMissing(t, Opener(c), i);
    ExtractNothing(c, t);
  }

  /** A return pass changes nothing in a text that lacks a letter of its placeholder head. */
  lemma KeepsWithout(c: Category, t: string, blocks: seq<string>, i: nat)
    requires i < |TokenPrefix(c)| && TokenPrefix(c)[i] !in t && OtherCase(TokenPrefix(c)[i]) !in t
    ensures Restore(c, t, blocks) == Ok(t)
  {
    FreeOfMissing(t, TokenPrefix(c), i);
    RestoreNothing(c, t, blocks);
  }
}
