/**
 * What happens to the placeholders between `preserveBlocks` and
 * `returnBlocks` (HtmlCompressor.java lines 122-254).
 *
 * A preserve pass writes the placeholders of its category numbered from
 * 0, in the order of its blocks. The markup rewrites of `processHtml`
 * other than comment removal keep every placeholder whole and in order:
 * each of them rewrites only text that opens with a bracket, an `=` or
 * whitespace and holds no `%`, and writes text of the same kind, while a
 * placeholder is a run of inert characters that opens with `%`. A return
 * pass that meets the placeholders its preserve pass wrote puts back the
 * stored blocks verbatim, the `k`-th placeholder becoming the `k`-th block.
 */
module Placeholders {
  import opened Outcomes
  import opened Chars
  import opened Patterns
  import opened Rewriting
  import opened Blocks
  import opened HtmlPasses
  import opened Settings

  // ---------------------------------------------------------------------
  // The placeholder scanner

  /** Every character of a name of a category is inert. */
  lemma NameInert(c: Category)
    ensures forall j :: 0 <= j < |CategoryName(c)| ==> Inert(CategoryName(c)[j])
  {
  }

  /** Every character of a placeholder head is inert. */
  lemma HeadInert(c: Category)
    ensures forall j :: 0 <= j < |TokenPrefix(c)| ==> Inert(TokenPrefix(c)[j])
  {
    NameInert(c);
    var name := CategoryName(c);
    assert TokenPrefix(c) == "%%%COMPRESS~" + name + "~";
  }

  /** A placeholder holds no bracket, no `=` and no whitespace. */
  lemma TokenInert(c: Category, k: nat)
    ensures forall j :: 0 <= j < |Token(c, k)| ==> Inert(Token(c, k)[j])
  {
    var name, digits := CategoryName(c), DecimalString(k);
    NameInert(c);
    assert Token(c, k) == "%%%COMPRESS~" + name + "~" + digits + "%%%";
    assert forall j :: 0 <= j < |digits| ==> IsDigit(digits[j]);
  }

  /** A character that folds to the same as an inert one is inert. */
  lemma FoldsInert(x: char, y: char)
    requires Lower(x) == Lower(y) && Inert(y)
    ensures Inert(x)
  {
  }

  /** What the placeholder scanner matches is inert all through and opens with `%`. */
  lemma PlaceholderInert(c: Category, t: string)
    requires PlaceholderAt(TokenPrefix(c), t).Some?
    ensures t[0] == '%'
    ensures forall i :: 0 <= i < PlaceholderAt(TokenPrefix(c), t).value.end ==> Inert(t[i])
  {
    var head := TokenPrefix(c);
    var d := DigitsEnd(head, t);
    PrefixShape(c);
    HeadInert(c);
    LowerOfNonLetter(t[0], '%');
    forall i | 0 <= i < d + 3 ensures Inert(t[i]) {
      if i < |head| {
        FoldsInert(t[i], head[i]);
      } else if i >= d {
        assert Lower(t[d..][i - d]) == Lower('%');
        LowerOfNonLetter(t[i], '%');
      }
    }
  }

  /** A placeholder match does not depend on what follows it. */
  lemma PlaceholderExtends(c: Category, t: string, x: string)
    requires PlaceholderAt(TokenPrefix(c), t).Some?
    ensures var m := PlaceholderAt(TokenPrefix(c), t).value;
            PlaceholderAt(TokenPrefix(c), t[..m.end] + x) == Some(m)
  {
    var head := TokenPrefix(c);
    var m := PlaceholderAt(head, t).value;
    var u := t[..m.end] + x;
    var d := m.groupEnd;
    PlaceholderAtMatches(head, t);
    assert u[..d + 3] == t[..d + 3];
    assert StartsWithCI(u, head) by {
      StartsWithSamePrefix(u, t, head);
    }
    assert StartsWithCI(u[d..], TokenSuffix) by {
      assert u[d..][..3] == t[d..][..3];
      StartsWithSamePrefix(u[d..], t[d..], TokenSuffix);
    }
    assert IsPlaceholderMatch(head, u, d);
    PlaceholderAtMatches(head, u);
  }

  // ---------------------------------------------------------------------
  // Placeholders in a text made of pieces

  /** A run of inert characters stops before the first character that is not. */
  lemma InertRunStops(u: string, n: nat, j: nat)
    requires n <= |u| && forall i :: 0 <= i < n ==> Inert(u[i])
    requires j < |u| && !Inert(u[j])
    ensures n <= j
  {
  }

  /** A placeholder of `a + b` that starts in `a` ends in it, when `b` opens with a character that is not inert. */
  lemma MatchInFirst(c: Category, a: string, b: string)
    requires b == [] || !Inert(b[0])
    requires PlaceholderAt(TokenPrefix(c), a + b).Some?
    ensures var m := PlaceholderAt(TokenPrefix(c), a + b).value;
            m.end <= |a| && PlaceholderAt(TokenPrefix(c), a) == Some(m) && (a + b)[m.end..] == a[m.end..] + b
  {
    var u := a + b;
    var m := PlaceholderAt(TokenPrefix(c), u).value;
    PlaceholderInert(c, u);
    if b != [] {
      assert u[|a|] == b[0];
      InertRunStops(u, m.end, |a|);
    }
    assert u[..m.end] == a[..m.end];
    assert a[..m.end] + a[m.end..] == a;
    PlaceholderExtends(c, u, a[m.end..]);
  }

  /** Where no placeholder starts `a + b`, none starts `a`. */
  lemma NoMatchInFirst(c: Category, a: string, b: string)
    requires PlaceholderAt(TokenPrefix(c), a + b).None?
    ensures PlaceholderAt(TokenPrefix(c), a).None?
  {
    if PlaceholderAt(TokenPrefix(c), a).Some? {
      var ma := PlaceholderAt(TokenPrefix(c), a).value;
      assert a[..ma.end] + (a[ma.end..] + b) == a + b;
      PlaceholderExtends(c, a, a[ma.end..] + b);
      assert false;
    }
  }

  /**
   * `fp` finds in `a + b` what it finds in `a`, at every start inside `a`,
   * when `b` opens with a character that is not inert: its matches end
   * before such a character and do not look past their end.
   */
  ghost predicate StopsAtMarkup(fp: Matcher) {
    forall a: string, b: string {:trigger fp(a + b)} :: (b == [] || !Inert(b[0])) ==>
      if fp(a + b).Some? then fp(a + b).value.end <= |a| && fp(a) == fp(a + b) else fp(a).None?
  }

  lemma PlaceholderStops(c: Category)
    ensures StopsAtMarkup(PlaceholderMatcher(c))
  {
    forall a: string, b: string | b == [] || !Inert(b[0])
      ensures var fp := PlaceholderMatcher(c);
              if fp(a + b).Some? then fp(a + b).value.end <= |a| && fp(a) == fp(a + b) else fp(a).None?
    {
      if PlaceholderAt(TokenPrefix(c), a + b).Some? {
        MatchInFirst(c, a, b);
      } else {
        NoMatchInFirst(c, a, b);
      }
    }
  }

  /** The matches of such a matcher in `a + b` are those in `a`, then those in `b`. */
  lemma {:induction false} SplitTextsBy(fp: Matcher, a: string, b: string)
    requires StopsAtMarkup(fp)
    requires b == [] || !Inert(b[0])
    ensures MatchedTexts(fp, a + b) == MatchedTexts(fp, a) + MatchedTexts(fp, b)
    decreases |a|
  {
    if a == [] {
      assert a + b == b;
    } else if fp(a + b).Some? {
      var e := SplitAtMatch(fp, a, b);
      SplitTextsBy(fp, a[e..], b);
      ConcatAssoc([a[..e]], MatchedTexts(fp, a[e..]), MatchedTexts(fp, b));
    } else {
      SplitAtSkip(fp, a, b);
      SplitTextsBy(fp, a[1..], b);
    }
  }

  /** A match in `a + b` is one in `a`, ending inside `a`. */
  lemma SplitAtMatch(fp: Matcher, a: string, b: string) returns (e: nat)
    requires StopsAtMarkup(fp)
    requires b == [] || !Inert(b[0])
    requires a != [] && fp(a + b).Some?
    ensures 0 < e <= |a|
    ensures MatchedTexts(fp, a + b) == [a[..e]] + MatchedTexts(fp, a[e..] + b)
    ensures MatchedTexts(fp, a) == [a[..e]] + MatchedTexts(fp, a[e..])
  {
    var u := a + b;
    var m := fp(u).value;
    assert m.end <= |a| && fp(a) == Some(m);
    assert 0 < m.end by {
      assert IsSpanOf(u, fp(u));
    }
    e := m.end;
    assert u[..e] == a[..e] && u[e..] == a[e..] + b;
  }

  /** No match at the start of `a + b` is none at the start of `a`. */
  lemma SplitAtSkip(fp: Matcher, a: string, b: string)
    requires StopsAtMarkup(fp)
    requires b == [] || !Inert(b[0])
    requires a != [] && fp(a + b).None?
    ensures MatchedTexts(fp, a + b) == MatchedTexts(fp, a[1..] + b)
    ensures MatchedTexts(fp, a) == MatchedTexts(fp, a[1..])
  {
    var u := a + b;
    assert fp(a).None?;
    assert u[1..] == a[1..] + b;
  }

  /** Every match of `fp` opens with `%`. */
  ghost predicate OpensWithPercent(fp: Matcher) {
    forall t :: fp(t).Some? ==> |t| > 0 && t[0] == '%'
  }

  lemma PlaceholderOpensWithPercent(c: Category)
    ensures OpensWithPercent(PlaceholderMatcher(c))
  {
    forall t | PlaceholderMatcher(c)(t).Some? ensures |t| > 0 && t[0] == '%' {
      PlaceholderInert(c, t);
    }
  }

  /** A piece without `%` holds no match of such a matcher, and none starts in it. */
  lemma {:induction false} SkipPercentFree(fp: Matcher, u: string, v: string)
    requires OpensWithPercent(fp)
    requires '%' !in u
    ensures MatchedTexts(fp, u + v) == MatchedTexts(fp, v)
    decreases |u|
  {
    if u == [] {
      assert u + v == v;
    } else {
      assert (u + v)[0] == u[0];
      assert (u + v)[1..] == u[1..] + v;
      SkipPercentFree(fp, u[1..], v);
    }
  }

  // ---------------------------------------------------------------------
  // The markup rewrites

  /** Every match of `f` opens with a character that is not inert and holds no `%`. */
  ghost predicate MarkupSpans(f: Matcher) {
    forall u :: MarkupSpanAt(f, u)
  }

  /** A match of `f` at the start of `u`, if any, is markup. */
  ghost predicate MarkupSpanAt(f: Matcher, u: string) {
    f(u).Some? ==> |u| > 0 && !Inert(u[0]) && '%' !in u[..f(u).value.end]
  }

  /**
   * Given a group without `%`, `sub` succeeds with a text that opens with
   * a character that is not inert and holds no `%`.
   */
  ghost predicate MarkupReplacements(sub: Substitution) {
    forall k: nat, g: string :: MarkupReplacementOf(sub, k, g)
  }

  /** The replacement of match `k` with group `g`, if `g` holds no `%`, is markup. */
  ghost predicate MarkupReplacementOf(sub: Substitution, k: nat, g: string) {
    '%' !in g ==> sub(k, g).Ok? && sub(k, g).value != [] && !Inert(sub(k, g).value[0]) && '%' !in sub(k, g).value
  }

  /** A piece of markup without `%` adds no match and ends none. */
  lemma MarkupPiece(fp: Matcher, before: string, piece: string, after: string)
    requires StopsAtMarkup(fp) && OpensWithPercent(fp)
    requires piece != [] && !Inert(piece[0]) && '%' !in piece
    ensures MatchedTexts(fp, before + (piece + after)) == MatchedTexts(fp, before) + MatchedTexts(fp, after)
  {
    SplitTextsBy(fp, before, piece + after);
    SkipPercentFree(fp, piece, after);
  }

  /** Markup in the middle of a text swapped for other markup, and the rest for text with the same placeholders. */
  lemma SwapMarkup(fp: Matcher, before: string, span: string, rest: string, rep: string, out: string)
    requires StopsAtMarkup(fp) && OpensWithPercent(fp)
    requires span != [] && !Inert(span[0]) && '%' !in span
    requires rep != [] && !Inert(rep[0]) && '%' !in rep
    requires MatchedTexts(fp, out) == MatchedTexts(fp, rest)
    ensures MatchedTexts(fp, before + (rep + out)) == MatchedTexts(fp, before + (span + rest))
  {
    MarkupPiece(fp, before, span, rest);
    MarkupPiece(fp, before, rep, out);
  }

  /**
   * A rewrite that replaces markup by markup keeps the matches of a
   * placeholder scanner: the same texts, in the same order.
   */
  lemma RewriteKeepsPlaceholders(fp: Matcher, f: Matcher, sub: Substitution, t: string, k: nat)
    requires StopsAtMarkup(fp) && OpensWithPercent(fp)
    requires MarkupSpans(f) && MarkupReplacements(sub)
    ensures ReplaceAll(f, t, sub, k).Ok?
    ensures MatchedTexts(fp, ReplaceAll(f, t, sub, k).value) == MatchedTexts(fp, t)
  {
    PrependNothing(ReplaceAll(f, t, sub, k));
    assert [] + t == t;
    KeepFrom(fp, f, sub, t, k, [], t, k);
  }

  /**
   * The rewrite of `t` is the output so far, `acc`, then the rewrite of
   * what is left, `u`, from match `n` on; `acc + u` has the placeholders
   * of `t`.
   */
  lemma {:induction false} KeepFrom(fp: Matcher, f: Matcher, sub: Substitution, t: string, k: nat, acc: string, u: string, n: nat)
    requires StopsAtMarkup(fp) && OpensWithPercent(fp)
    requires MarkupSpans(f) && MarkupReplacements(sub)
    requires Prepend(acc, ReplaceAll(f, u, sub, n)) == ReplaceAll(f, t, sub, k)
    requires MatchedTexts(fp, acc + u) == MatchedTexts(fp, t)
    ensures ReplaceAll(f, t, sub, k).Ok?
    ensures MatchedTexts(fp, ReplaceAll(f, t, sub, k).value) == MatchedTexts(fp, t)
    decreases |u|
  {
    if Find(f, u, 0).None? {
      KeepLast(fp, f, sub, t, k, acc, u, n);
    } else {
      var j, m, rep := NextMarkup(f, sub, u, n);
      RewriteNext(f, sub, acc, u, n, j, m, rep);
      TextsNext(fp, acc, u, j, m.end, rep);
      KeepFrom(fp, f, sub, t, k, acc + (u[..j] + rep), u[j + m.end..], n + 1);
    }
  }

  /** Once no match is left, the output so far followed by what is left is the whole rewrite. */
  lemma KeepLast(fp: Matcher, f: Matcher, sub: Substitution, t: string, k: nat, acc: string, u: string, n: nat)
    requires Find(f, u, 0).None?
    requires Prepend(acc, ReplaceAll(f, u, sub, n)) == ReplaceAll(f, t, sub, k)
    requires MatchedTexts(fp, acc + u) == MatchedTexts(fp, t)
    ensures ReplaceAll(f, t, sub, k).Ok?
    ensures MatchedTexts(fp, ReplaceAll(f, t, sub, k).value) == MatchedTexts(fp, t)
  {
    NoMatchIdentity(f, u, sub, n);
  }

  /** The next match `m` of a markup scanner, at `j`, and its replacement `rep` are both markup. */
  lemma NextMarkup(f: Matcher, sub: Substitution, u: string, n: nat) returns (j: nat, m: Span, rep: string)
    requires MarkupSpans(f) && MarkupReplacements(sub)
    requires Find(f, u, 0).Some?
    ensures j <= |u| && NoMatchBetween(f, u, 0, j) && f(u[j..]) == Some(m)
    ensures sub(n, u[j..][m.groupStart..m.groupEnd]) == Ok(rep)
    ensures 0 < m.end && j + m.end <= |u| && !Inert(u[j..][0]) && '%' !in u[j..][..m.end]
    ensures rep != [] && !Inert(rep[0]) && '%' !in rep
  {
    j := Find(f, u, 0).value;
    m := f(u[j..]).value;
    MarkupMatch(f, sub, u[j..], n);
    rep := sub(n, u[j..][m.groupStart..m.groupEnd]).value;
    assert IsSpanOf(u[j..], f(u[j..]));
  }

  /** The rewrite of `u` whose first match, `m`, is at `j` and replaced by `rep`. */
  lemma RewriteNext(f: Matcher, sub: Substitution, acc: string, u: string, n: nat, j: nat, m: Span, rep: string)
    requires j <= |u| && NoMatchBetween(f, u, 0, j) && f(u[j..]) == Some(m)
    requires sub(n, u[j..][m.groupStart..m.groupEnd]) == Ok(rep)
    ensures 0 < m.end && j + m.end <= |u|
    ensures Prepend(acc, ReplaceAll(f, u, sub, n)) == Prepend(acc + (u[..j] + rep), ReplaceAll(f, u[j + m.end..], sub, n + 1))
  {
    assert IsSpanOf(u[j..], f(u[j..]));
    StepThen(f, u, j, m, sub, n, rep);
    PrependTwice(acc, u[..j] + rep, ReplaceAll(f, u[j + m.end..], sub, n + 1));
  }

  /** The markup `u[j..j + e]` swapped for the markup `rep`, after `acc`. */
  lemma TextsNext(fp: Matcher, acc: string, u: string, j: nat, e: nat, rep: string)
    requires StopsAtMarkup(fp) && OpensWithPercent(fp)
    requires 0 < e && j + e <= |u| && !Inert(u[j..][0]) && '%' !in u[j..][..e]
    requires rep != [] && !Inert(rep[0]) && '%' !in rep
    ensures MatchedTexts(fp, acc + (u[..j] + rep) + u[j + e..]) == MatchedTexts(fp, acc + u)
  {
    var before, span, rest := acc + u[..j], u[j..][..e], u[j + e..];
    assert acc + u == before + (span + rest);
    assert acc + (u[..j] + rep) + rest == before + (rep + rest);
    SwapMarkup(fp, before, span, rest, rep, rest);
  }

  /** A match of a markup scanner and its replacement are both markup. */
  lemma MarkupMatch(f: Matcher, sub: Substitution, u: string, k: nat)
    requires MarkupSpans(f) && MarkupReplacements(sub) && f(u).Some?
    ensures var m := f(u).value; var rep := sub(k, u[m.groupStart..m.groupEnd]);
      |u| > 0 && !Inert(u[0]) && '%' !in u[..m.end] &&
      rep.Ok? && rep.value != [] && !Inert(rep.value[0]) && '%' !in rep.value
  {
    var m := f(u).value;
    var g := u[m.groupStart..m.groupEnd];
    assert MarkupSpanAt(f, u) && MarkupReplacementOf(sub, k, g);
    assert '%' !in g by {
      assert forall i :: 0 <= i < |g| ==> g[i] == u[..m.end][m.groupStart + i];
    }
  }

  lemma IntertagSpansAreMarkup()
    ensures MarkupSpans(Compile(Intertag))
  {
    forall u | Compile(Intertag)(u).Some?
      ensures |u| > 0 && !Inert(u[0]) && '%' !in u[..Compile(Intertag)(u).value.end]
    {
      var lt := IntertagAt(u).value.end - 1;
      assert IsIntertagMatch(u, lt);
      assert forall i :: 0 <= i <= lt ==> u[..lt + 1][i] == u[i];
    }
  }

  lemma MultiSpaceSpansAreMarkup()
    ensures MarkupSpans(Compile(MultiSpace))
  {
    forall u | Compile(MultiSpace)(u).Some?
      ensures |u| > 0 && !Inert(u[0]) && '%' !in u[..Compile(MultiSpace)(u).value.end]
    {
      var n := MultiSpaceAt(u).value.end;
      assert forall i :: 0 <= i < n ==> u[..n][i] == u[i];
    }
  }

  lemma QuoteSpansAreMarkup()
    ensures MarkupSpans(Compile(TagQuote))
  {
    forall u ensures MarkupSpanAt(Compile(TagQuote), u) {
      QuoteSpanAt(u);
    }
  }

  lemma QuoteSpanAt(u: string)
    ensures MarkupSpanAt(Compile(TagQuote), u)
  {
    if Compile(TagQuote)(u).Some? {
      assert Compile(TagQuote)(u) == TagQuoteAt(u);
      QuoteFitsMatches(u);
      QuoteMatchMarkup(u, RunLength(Space, u, 0), OpenQuoteAt(u), CloseQuoteAt(u));
    }
  }

  /** A match of the quote pattern, from its spaces to its closing quote, is markup. */
  lemma QuoteMatchMarkup(u: string, eq: nat, open: nat, close: nat)
    requires IsTagQuoteMatch(u, eq, open, close)
    ensures |u| > 0 && !Inert(u[0]) && '%' !in u[..close + 1]
  {
    assert forall i :: 0 <= i <= close ==> u[..close + 1][i] == u[i];
  }

  lemma ReplacementsAreMarkup()
    ensures MarkupReplacements(Constant("><")) && MarkupReplacements(Constant(" "))
    ensures MarkupReplacements(EqualsValue())
  {
    forall k: nat, g: string | '%' !in g
      ensures var r := EqualsValue()(k, g); r.Ok? && r.value != [] && !Inert(r.value[0]) && '%' !in r.value
    {
      assert EqualsValue()(k, g) == Ok("=" + g);
    }
  }

  /**
   * With comment removal off, `processHtml` keeps the placeholders of
   * every category: the same texts, in the same order, whatever the other
   * settings.
   */
  lemma PlaceholdersKept(config: Config, c: Category, t: string)
    requires !config.removeComments
    ensures MatchedTexts(PlaceholderMatcher(c), ProcessHtml(config, t)) == MatchedTexts(PlaceholderMatcher(c), t)
  {
    var fp := PlaceholderMatcher(c);
    PlaceholderStops(c);
    PlaceholderOpensWithPercent(c);
    IntertagSpansAreMarkup();
    MultiSpaceSpansAreMarkup();
    QuoteSpansAreMarkup();
    ReplacementsAreMarkup();
    RewriteKeepsPlaceholders(fp, Compile(Intertag), Constant("><"), t, 0);
    var noIntertag := if config.removeIntertagSpaces then RemoveIntertagSpaces(t) else t;
    RewriteKeepsPlaceholders(fp, Compile(MultiSpace), Constant(" "), noIntertag, 0);
    var collapsed := if config.removeMultiSpaces then CollapseSpaces(noIntertag) else noIntertag;
    RewriteKeepsPlaceholders(fp, Compile(TagQuote), EqualsValue(), collapsed, 0);
  }

  // ---------------------------------------------------------------------
  // The placeholders a preserve pass writes, and what a return pass does with them

  /** The placeholders with head `head` numbered `k` to `k + n - 1`, in order. */
  function Numbered(head: string, k: nat, n: nat): (r: seq<string>)
    ensures |r| == n
    decreases n
  {
    if n == 0 then [] else [NumberedToken(head, k)] + Numbered(head, k + 1, n - 1)
  }

  /** The replacement that puts the `k`-th stored block in place of the `k`-th match, whatever its text. */
  function InOrder(blocks: seq<string>): (sub: Substitution)
    ensures forall k: nat, g: string :: k < |blocks| ==> sub(k, g) == Ok(blocks[k])
  {
    (k: nat, g: string) => if k < |blocks| then Ok(blocks[k]) else Err(IndexOutOfBounds(k, |blocks|))
  }

  /**
   * A preserve pass, from its `k`-th block on, writes the placeholders
   * numbered from `k`, one per block, in order, and no other.
   */
  lemma {:induction false} TokensFrom(fb: Matcher, fp: Matcher, tokens: Substitution, head: string, t: string, k: nat)
    requires NeedsHead(fp, head) && OpensTokens(fp, head) && NumbersWith(tokens, head) && HeadShape(head)
    requires Total(tokens) && FreeOf(t, head)
    ensures MatchedTexts(fp, ReplaceAll(fb, t, tokens, k).value) == Numbered(head, k, |MatchedTexts(fb, t)|)
    decreases |t|
  {
    match Find(fb, t, 0)
    case None =>
      NoMatchIdentity(fb, t, tokens, k);
      NoPlaceholderIn(fp, head, t);
      NoMatchIdentity(fp, t, tokens, k);
    case Some(j) =>
      var m := fb(t[j..]).value;
      var rest := t[j + m.end..];
      FreeOfPiece(t, head, j + m.end, |t|);
      assert t[j + m.end..|t|] == rest;
      TokensFrom(fb, fp, tokens, head, rest, k + 1);
      FreeOfPiece(t, head, 0, j);
      assert t[0..j] == t[..j];
      NextMatchTexts(fb, t, j, m);
      TokenStep(fb, fp, tokens, head, t, k, j, m, ReplaceAll(fb, rest, tokens, k + 1).value);
  }

  /** The placeholders written for a text whose next block starts at `j`: placeholder `k`, then those after the block. */
  lemma TokenStep(fb: Matcher, fp: Matcher, tokens: Substitution, head: string, t: string, k: nat, j: nat, m: Span,
                  out: string)
    requires NeedsHead(fp, head) && OpensTokens(fp, head) && NumbersWith(tokens, head) && HeadShape(head)
    requires j <= |t| && NoMatchBetween(fb, t, 0, j) && fb(t[j..]) == Some(m) && FreeOf(t[..j], head)
    requires j + m.end <= |t| && ReplaceAll(fb, t[j + m.end..], tokens, k + 1) == Ok(out)
    ensures ReplaceAll(fb, t, tokens, k).Ok?
    ensures MatchedTexts(fp, ReplaceAll(fb, t, tokens, k).value) == [NumberedToken(head, k)] + MatchedTexts(fp, out)
  {
    assert ReplaceAll(fb, t, tokens, k) == Ok(t[..j] + (NumberedToken(head, k) + out)) by {
      ExtractStep(fb, tokens, head, t, j, m, k);
    }
    TokenTexts(fp, head, t[..j], k, out);
  }

  /** Placeholder `k` written after text without a placeholder head: it is the first placeholder found. */
  lemma TokenTexts(fp: Matcher, head: string, before: string, k: nat, out: string)
    requires NeedsHead(fp, head) && OpensTokens(fp, head) && HeadShape(head) && FreeOf(before, head)
    ensures MatchedTexts(fp, before + (NumberedToken(head, k) + out)) == [NumberedToken(head, k)] + MatchedTexts(fp, out)
  {
    var token := NumberedToken(head, k);
    var u := before + (token + out);
    var j := |before|;
    assert u[..j] == before;
    NoPlaceholderAcross(fp, head, before, k, out);
    SkipNoMatchTexts(fp, u, 0, j);
    assert u[0..] == u && u[j..] == token + out;
    assert fp(token + out) == Some(Span(|token|, |head|, |head| + |DecimalString(k)|));
    MatchStepTexts(fp, token + out);
    assert (token + out)[..|token|] == token && (token + out)[|token|..] == out;
  }

  /**
   * A return pass over a text whose placeholders are exactly those numbered
   * `k` onwards, in order, writes the `k`-th stored block in place of the
   * first of them, the next block in place of the next, and so on.
   */
  lemma {:induction false} InOrderFrom(fp: Matcher, head: string, h: string, blocks: seq<string>, k: nat)
    requires OpensTokens(fp, head)
    requires MatchedTexts(fp, h) == Numbered(head, k, |MatchedTexts(fp, h)|)
    requires k + |MatchedTexts(fp, h)| <= |blocks| && k + |MatchedTexts(fp, h)| <= MaxInt + 1
    ensures ReplaceAll(fp, h, InOrder(blocks), k).Ok?
    ensures ReplaceAll(fp, h, StoredBlock(blocks), k) == ReplaceAll(fp, h, InOrder(blocks), k)
    decreases |h|
  {
    if Find(fp, h, 0).None? {
      NoMatchIdentity(fp, h, StoredBlock(blocks), k);
      NoMatchIdentity(fp, h, InOrder(blocks), k);
    } else {
      var j, m := NextToken(fp, head, h, k);
      InOrderFrom(fp, head, h[j + m.end..], blocks, k + 1);
      InOrderStep(fp, head, h, blocks, k, j, m);
    }
  }

  /** The next match of the placeholder scanner in `h`, `m` at `j`, is placeholder number `k`. */
  lemma NextToken(fp: Matcher, head: string, h: string, k: nat) returns (j: nat, m: Span)
    requires MatchedTexts(fp, h) == Numbered(head, k, |MatchedTexts(fp, h)|)
    requires Find(fp, h, 0).Some?
    ensures j <= |h| && NoMatchBetween(fp, h, 0, j) && fp(h[j..]) == Some(m)
    ensures j + m.end <= |h| && h[j..j + m.end] == NumberedToken(head, k)
    ensures var texts := MatchedTexts(fp, h[j + m.end..]);
      texts == Numbered(head, k + 1, |texts|) && k + 1 + |texts| == k + |MatchedTexts(fp, h)|
  {
    j := Find(fp, h, 0).value;
    m := fp(h[j..]).value;
    InOrderNext(fp, head, h, k, j, m);
  }

  /** The next placeholder of `h` is number `k`, and those after it are numbered on from `k + 1`. */
  lemma InOrderNext(fp: Matcher, head: string, h: string, k: nat, j: nat, m: Span)
    requires MatchedTexts(fp, h) == Numbered(head, k, |MatchedTexts(fp, h)|)
    requires j <= |h| && NoMatchBetween(fp, h, 0, j) && fp(h[j..]) == Some(m)
    ensures j + m.end <= |h| && h[j..j + m.end] == NumberedToken(head, k)
    ensures var texts := MatchedTexts(fp, h[j + m.end..]);
      texts == Numbered(head, k + 1, |texts|) && k + 1 + |texts| == k + |MatchedTexts(fp, h)|
  {
    NextMatchTexts(fp, h, j, m);
    var all, texts := MatchedTexts(fp, h), MatchedTexts(fp, h[j + m.end..]);
    assert all == [h[j..j + m.end]] + texts;
    assert all == [NumberedToken(head, k)] + Numbered(head, k + 1, |all| - 1);
    assert all[1..] == texts;
  }

  /** The next placeholder of `h` starts at `j` and is number `k`: both replacements write block `k` there. */
  lemma InOrderStep(fp: Matcher, head: string, h: string, blocks: seq<string>, k: nat, j: nat, m: Span)
    requires OpensTokens(fp, head)
    requires j <= |h| && NoMatchBetween(fp, h, 0, j) && fp(h[j..]) == Some(m) && j + m.end <= |h|
    requires h[j..j + m.end] == NumberedToken(head, k) && k < |blocks| && k <= MaxInt
    requires ReplaceAll(fp, h[j + m.end..], InOrder(blocks), k + 1).Ok?
    requires ReplaceAll(fp, h[j + m.end..], StoredBlock(blocks), k + 1)
             == ReplaceAll(fp, h[j + m.end..], InOrder(blocks), k + 1)
    ensures ReplaceAll(fp, h, InOrder(blocks), k).Ok?
    ensures ReplaceAll(fp, h, StoredBlock(blocks), k) == ReplaceAll(fp, h, InOrder(blocks), k)
  {
    var rest := h[j + m.end..];
    var token := NumberedToken(head, k);
    assert h[j..] == token + rest;
    assert m == Span(|token|, |head|, |head| + |DecimalString(k)|);
    TokenGroup(head, k, rest);
    var digits := h[j..][m.groupStart..m.groupEnd];
    assert digits == DecimalString(k);
    ParseIntOfDecimalString(k);
    assert StoredBlock(blocks)(k, digits) == Ok(blocks[k]);
    NextMatch(fp, h, j, m, StoredBlock(blocks), k);
    NextMatch(fp, h, j, m, InOrder(blocks), k);
  }

  /** A preserve pass writes the placeholders numbered from 0, one per block, in order. */
  lemma ExtractWritesTokens(c: Category, t: string)
    requires FreeOf(t, TokenPrefix(c))
    ensures MatchedTexts(PlaceholderMatcher(c), Extract(c, t).0) == Numbered(TokenPrefix(c), 0, |Extract(c, t).1|)
  {
    PrefixShape(c);
    CategoryNeedsHead(c);
    CategoryOpensTokens(c);
    CategoryNumbers(c);
    TokensFrom(Compile(BlockPattern(c)), PlaceholderMatcher(c), TokenFor(c), TokenPrefix(c), t, 0);
  }

  /**
   * A return pass over a text holding exactly the placeholders its
   * preserve pass wrote, in order, puts the stored blocks back verbatim:
   * the `k`-th placeholder becomes the `k`-th block.
   */
  lemma RestoreInOrder(c: Category, h: string, blocks: seq<string>)
    requires MatchedTexts(PlaceholderMatcher(c), h) == Numbered(TokenPrefix(c), 0, |blocks|)
    requires |blocks| <= MaxInt + 1
    ensures Restore(c, h, blocks).Ok?
    ensures Restore(c, h, blocks) == ReplaceAll(PlaceholderMatcher(c), h, InOrder(blocks), 0)
  {
    CategoryOpensTokens(c);
    InOrderFrom(PlaceholderMatcher(c), TokenPrefix(c), h, blocks, 0);
  }
}
