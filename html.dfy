/**
 * `processHtml` (HtmlCompressor.java lines 231-254): the rewrites of the
 * markup left once the protected blocks are cut out. Each is one
 * `replaceAll` of a pattern, switched on by its own setting, in a fixed
 * order: comments and JSP comments, whitespace between tags, runs of
 * whitespace, quotes around simple attribute values.
 *
 * Every pass only ever shortens the text, and it changes it exactly when
 * its pattern matches somewhere. What a pass keeps is stated with `Strip`:
 * the text without the characters the pass is allowed to remove.
 */
module HtmlPasses {
  import opened Outcomes
  import opened Chars
  import opened Patterns
  import opened Rewriting
  import opened Settings

  // ---------------------------------------------------------------------
  // The replacements

  /** `replaceAll(text)` for a `text` without `$` or `\`: every match becomes `text`. */
  function Constant(text: string): (sub: Substitution)
    ensures Total(sub)
    ensures forall k: nat, g: string :: sub(k, g) == Ok(text)
  {
    (k: nat, g: string) => Ok(text)
  }

  /** `replaceAll("=$2")`: every match becomes `=` followed by the text of the value group. */
  function EqualsValue(): (sub: Substitution)
    ensures Total(sub)
    ensures forall k: nat, g: string :: sub(k, g) == Ok("=" + g)
  {
    (k: nat, g: string) => Ok("=" + g)
  }

  // ---------------------------------------------------------------------
  // The passes

  /** `commentPattern` and then `jspCommentPattern`, each replaced by nothing. */
  function RemoveComments(html: string): string {
    Rewrite(Compile(JspComment), Rewrite(Compile(Comment), html, Constant("")), Constant(""))
  }

  /** `intertagPattern` replaced by `><`. */
  function RemoveIntertagSpaces(html: string): string {
    Rewrite(Compile(Intertag), html, Constant("><"))
  }

  /** `multispacePattern` replaced by one space. */
  function CollapseSpaces(html: string): string {
    Rewrite(Compile(MultiSpace), html, Constant(" "))
  }

  /** `tagquotePattern` replaced by `=` and the unquoted value. */
  function RemoveQuotes(html: string): string {
    Rewrite(Compile(TagQuote), html, EqualsValue())
  }

  /** The passes the settings switch on, in the source's order, each on the output of the one before. */
  function ProcessHtml(config: Config, html: string): string {
    var noComments := if config.removeComments then RemoveComments(html) else html;
    var noIntertag := if config.removeIntertagSpaces then RemoveIntertagSpaces(noComments) else noComments;
    var collapsed := if config.removeMultiSpaces then CollapseSpaces(noIntertag) else noIntertag;
    if config.removeQuotes then RemoveQuotes(collapsed) else collapsed
  }

  // ---------------------------------------------------------------------
  // Passes that shorten

  /** The text of the group of match `m` of `u`. */
  function Group(u: string, m: Span): string
    requires m.groupStart <= m.groupEnd <= |u|
  {
    u[m.groupStart..m.groupEnd]
  }

  /** A replacement that succeeds and is shorter than `n` characters. */
  predicate ShorterThan(r: Result<string>, n: nat) {
    r.Ok? && |r.value| < n
  }

  /** Whatever `sub` makes of a match of `f` is shorter than the match. */
  ghost predicate Shortens(f: Matcher, sub: Substitution) {
    forall u: string, k: nat :: f(u).Some? ==> ShorterThan(sub(k, Group(u, f(u).value)), f(u).value.end)
  }

  /** A pass whose replacements are shorter than their matches never lengthens the text, and shortens it when it matches at all. */
  lemma {:induction false} ShortensText(f: Matcher, t: string, sub: Substitution, k: nat)
    requires Shortens(f, sub)
    ensures ReplaceAll(f, t, sub, k).Ok?
    ensures |ReplaceAll(f, t, sub, k).value| <= |t|
    ensures !NoMatchBetween(f, t, 0, |t| + 1) ==> |ReplaceAll(f, t, sub, k).value| < |t|
    decreases |t|
  {
    if t == [] {
      assert t[0..] == t;
    } else {
      match f(t)
      case Some(m) =>
        assert ShorterThan(sub(k, Group(t, m)), m.end);
        ShortensText(f, t[m.end..], sub, k + 1);
      case None =>
        ShortensText(f, t[1..], sub, k);
        if !NoMatchBetween(f, t, 0, |t| + 1) {
          var j :| 0 <= j < |t| + 1 && j <= |t| && f(t[j..]).Some?;
          assert t[0..] == t;
          assert t[1..][j - 1..] == t[j..];
        }
    }
  }

  /** Such a pass changes the text exactly when its pattern matches somewhere in it. */
  lemma ChangesIffMatches(f: Matcher, t: string, sub: Substitution)
    requires Shortens(f, sub) && Total(sub)
    ensures |Rewrite(f, t, sub)| <= |t|
    ensures Rewrite(f, t, sub) == t <==> NoMatchBetween(f, t, 0, |t| + 1)
    ensures !NoMatchBetween(f, t, 0, |t| + 1) ==> |Rewrite(f, t, sub)| < |t|
  {
    ShortensText(f, t, sub, 0);
    if NoMatchBetween(f, t, 0, |t| + 1) {
      NoMatchIdentity(f, t, sub, 0);
    }
  }

  lemma EraseShortens(f: Matcher)
    ensures Shortens(f, Constant(""))
  {
    forall u: string, k: nat | f(u).Some?
      ensures ShorterThan(Constant("")(k, Group(u, f(u).value)), f(u).value.end)
    {
    }
  }

  lemma IntertagShortens()
    ensures Shortens(Compile(Intertag), Constant("><"))
  {
    var f := Compile(Intertag);
    forall u: string, k: nat | f(u).Some?
      ensures ShorterThan(Constant("><")(k, Group(u, f(u).value)), f(u).value.end)
    {
      assert f(u) == IntertagAt(u);
    }
  }

  lemma MultiSpaceShortens()
    ensures Shortens(Compile(MultiSpace), Constant(" "))
  {
    var f := Compile(MultiSpace);
    forall u: string, k: nat | f(u).Some?
      ensures ShorterThan(Constant(" ")(k, Group(u, f(u).value)), f(u).value.end)
    {
      assert f(u) == MultiSpaceAt(u);
    }
  }

  lemma TagQuoteShortens()
    ensures Shortens(Compile(TagQuote), EqualsValue())
  {
    var f := Compile(TagQuote);
    forall u: string, k: nat | f(u).Some?
      ensures ShorterThan(EqualsValue()(k, Group(u, f(u).value)), f(u).value.end)
    {
      assert f(u) == TagQuoteAt(u);
    }
  }

  // ---------------------------------------------------------------------
  // What a pass keeps

  /** `t` without the characters `drop` selects. */
  function Strip(t: string, drop: char -> bool): (r: string)
    ensures |r| <= |t|
  {
    if t == [] then [] else (if drop(t[0]) then [] else [t[0]]) + Strip(t[1..], drop)
  }

  lemma {:induction false} StripJoin(a: string, b: string, drop: char -> bool)
    ensures Strip(a + b, drop) == Strip(a, drop) + Strip(b, drop)
    decreases |a|
  {
    if a == [] {
      assert a + b == b;
    } else {
      assert (a + b)[1..] == a[1..] + b;
      StripJoin(a[1..], b, drop);
    }
  }

  lemma {:induction false} StripAll(s: string, drop: char -> bool)
    requires forall i :: 0 <= i < |s| ==> drop(s[i])
    ensures Strip(s, drop) == []
    decreases |s|
  {
    if s != [] {
      StripAll(s[1..], drop);
    }
  }

  lemma {:induction false} StripNone(s: string, drop: char -> bool)
    requires forall i :: 0 <= i < |s| ==> !drop(s[i])
    ensures Strip(s, drop) == s
    decreases |s|
  {
    if s != [] {
      StripNone(s[1..], drop);
    }
  }

  /** Characters the quote pass may remove. */
  predicate SpaceOrQuote(c: char) {
    IsSpace(c) || IsQuote(c)
  }

  /** `drop` removes all whitespace but neither `<` nor `>`. */
  ghost predicate DropsSpaceOnly(drop: char -> bool) {
    (forall c :: IsSpace(c) ==> drop(c)) && !drop('<') && !drop('>')
  }

  lemma SpaceDrops()
    ensures DropsSpaceOnly(IsSpace) && DropsSpaceOnly(SpaceOrQuote)
  {
  }

  /** A replacement that succeeds and, stripped, is the stripped match. */
  predicate SameStripped(r: Result<string>, matched: string, drop: char -> bool) {
    r.Ok? && Strip(r.value, drop) == Strip(matched, drop)
  }

  /** Whatever `sub` makes of a match of `f` differs from the match only in characters `drop` selects. */
  ghost predicate KeepsOthers(f: Matcher, sub: Substitution, drop: char -> bool) {
    forall u: string, k: nat :: f(u).Some? ==> SameStripped(sub(k, Group(u, f(u).value)), u[..f(u).value.end], drop)
  }

  /** Then so does the output of the whole pass differ from its input. */
  lemma {:induction false} StripsLikeInput(f: Matcher, t: string, sub: Substitution, k: nat, drop: char -> bool)
    requires KeepsOthers(f, sub, drop)
    ensures ReplaceAll(f, t, sub, k).Ok?
    ensures Strip(ReplaceAll(f, t, sub, k).value, drop) == Strip(t, drop)
    decreases |t|
  {
    if t != [] {
      match f(t)
      case Some(m) =>
        var rep := sub(k, Group(t, m));
        assert SameStripped(rep, t[..m.end], drop);
        StripsLikeInput(f, t[m.end..], sub, k + 1, drop);
        assert t == t[..m.end] + t[m.end..];
        StripJoin(t[..m.end], t[m.end..], drop);
        StripJoin(rep.value, ReplaceAll(f, t[m.end..], sub, k + 1).value, drop);
      case None =>
        StripsLikeInput(f, t[1..], sub, k, drop);
        assert t == [t[0]] + t[1..];
        StripJoin([t[0]], t[1..], drop);
        StripJoin([t[0]], ReplaceAll(f, t[1..], sub, k).value, drop);
    }
  }

  lemma IntertagKeepsOthers(drop: char -> bool)
    requires DropsSpaceOnly(drop)
    ensures KeepsOthers(Compile(Intertag), Constant("><"), drop)
  {
    var f := Compile(Intertag);
    forall u: string, k: nat | f(u).Some?
      ensures SameStripped(Constant("><")(k, Group(u, f(u).value)), u[..f(u).value.end], drop)
    {
      assert f(u) == IntertagAt(u);
      IntertagMatchStripped(u, drop);
    }
  }

  /** A match of the inter-tag pattern, stripped of its whitespace, is `><`. */
  lemma IntertagMatchStripped(u: string, drop: char -> bool)
    requires DropsSpaceOnly(drop) && IntertagAt(u).Some?
    ensures Strip(u[..IntertagAt(u).value.end], drop) == "><" == Strip("><", drop)
  {
    var lt := IntertagAt(u).value.end - 1;
    assert IsIntertagMatch(u, lt);
    assert u[..lt + 1] == [u[0]] + (u[1..lt] + [u[lt]]);
    StripAll(u[1..lt], drop);
    StripNone([u[0]], drop);
    StripNone([u[lt]], drop);
    StripNone("><", drop);
    StripJoin(u[1..lt], [u[lt]], drop);
    StripJoin([u[0]], u[1..lt] + [u[lt]], drop);
  }

  lemma MultiSpaceKeepsOthers(drop: char -> bool)
    requires DropsSpaceOnly(drop)
    ensures KeepsOthers(Compile(MultiSpace), Constant(" "), drop)
  {
    var f := Compile(MultiSpace);
    forall u: string, k: nat | f(u).Some?
      ensures SameStripped(Constant(" ")(k, Group(u, f(u).value)), u[..f(u).value.end], drop)
    {
      assert f(u) == MultiSpaceAt(u);
      StripAll(u[..f(u).value.end], drop);
      StripAll(" ", drop);
    }
  }

  lemma TagQuoteKeepsOthers()
    ensures KeepsOthers(Compile(TagQuote), EqualsValue(), SpaceOrQuote)
  {
    var f := Compile(TagQuote);
    TagQuoteSpans();
    forall u: string, k: nat | f(u).Some?
      ensures SameStripped(EqualsValue()(k, Group(u, f(u).value)), u[..f(u).value.end], SpaceOrQuote)
    {
      QuoteMatchStripped(f, u);
    }
  }

  /** What `f` finds is a quoted attribute value, its group the value, its end just after the closing quote. */
  ghost predicate QuoteSpans(f: Matcher) {
    forall u :: f(u).Some? ==> 1 <= f(u).value.groupStart && f(u).value.end == f(u).value.groupEnd + 1 &&
                               IsTagQuoteMatch(u, RunLength(Space, u, 0), f(u).value.groupStart - 1, f(u).value.groupEnd)
  }

  lemma TagQuoteSpans()
    ensures QuoteSpans(Compile(TagQuote))
  {
    forall u | Compile(TagQuote)(u).Some?
      ensures 1 <= Compile(TagQuote)(u).value.groupStart
      ensures Compile(TagQuote)(u).value.end == Compile(TagQuote)(u).value.groupEnd + 1
      ensures IsTagQuoteMatch(u, RunLength(Space, u, 0), Compile(TagQuote)(u).value.groupStart - 1, Compile(TagQuote)(u).value.groupEnd)
    {
      TagQuoteAtMatches(u);
    }
  }

  lemma QuotedValueStripped(open: char, value: string, close: char)
    requires forall i :: 0 <= i < |value| ==> IsValueChar(value[i])
    requires IsQuote(open) && IsQuote(close)
    ensures Strip([open] + (value + [close]), SpaceOrQuote) == value
  {
    StripAll([open], SpaceOrQuote);
    StripAll([close], SpaceOrQuote);
    StripNone(value, SpaceOrQuote);
    StripBetween([open], value, [close], SpaceOrQuote);
  }

  /** Stripping what `drop` removes entirely on both sides of a kept middle leaves the middle. */
  lemma StripBetween(a: string, v: string, c: string, drop: char -> bool)
    requires Strip(a, drop) == [] && Strip(v, drop) == v && Strip(c, drop) == []
    ensures Strip(a + (v + c), drop) == v
  {
    StripJoin(v, c, drop);
    StripJoin(a, v + c, drop);
    assert [] + (v + []) == v;
  }

  /** Stripping around a kept middle: what `drop` removes entirely disappears, `eq` stays. */
  lemma QuotedPiecesStripped(before: string, eq: string, after: string, quoted: string, value: string, drop: char -> bool)
    requires Strip(before, drop) == [] && Strip(after, drop) == []
    requires Strip(eq, drop) == eq && Strip(quoted, drop) == value
    ensures Strip(before + (eq + (after + quoted)), drop) == eq + value
  {
    StripJoin(after, quoted, drop);
    StripJoin(eq, after + quoted, drop);
    StripJoin(before, eq + (after + quoted), drop);
  }

  /** A match of the quote pattern, stripped of whitespace and quotes, is `=` and its value group. */
  lemma QuoteMatchStripped(f: Matcher, u: string)
    requires QuoteSpans(f) && f(u).Some?
    ensures var m := f(u).value;
            Strip(u[..m.end], SpaceOrQuote) == "=" + Group(u, m) == Strip("=" + Group(u, m), SpaceOrQuote)
  {
    var m := f(u).value;
    StripNone("=" + Group(u, m), SpaceOrQuote);
    QuoteStripped(u, RunLength(Space, u, 0), m.groupStart - 1, m.groupEnd);
  }

  /** A quoted attribute value, stripped of whitespace and quotes, is `=` and the value. */
  lemma QuoteStripped(u: string, eq: nat, open: nat, close: nat)
    requires IsTagQuoteMatch(u, eq, open, close)
    ensures Strip(u[..close + 1], SpaceOrQuote) == "=" + u[open + 1..close]
  {
    var value := u[open + 1..close];
    var quoted := [u[open]] + (value + [u[close]]);
    assert u[..close + 1] == u[..eq] + ("=" + (u[eq + 1..open] + quoted));
    QuotedValueStripped(u[open], value, u[close]);
    StripAll(u[..eq], SpaceOrQuote);
    StripAll(u[eq + 1..open], SpaceOrQuote);
    StripNone("=", SpaceOrQuote);
    QuotedPiecesStripped(u[..eq], "=", u[eq + 1..open], quoted, value, SpaceOrQuote);
  }

  // ---------------------------------------------------------------------
  // What is left after a pass

  /** No two whitespace characters are next to each other in `s`. */
  predicate NoDoubleSpace(s: string) {
    forall i :: 0 < i < |s| ==> !(IsSpace(s[i - 1]) && IsSpace(s[i]))
  }

  /** That is exactly: the whitespace-run pattern matches nowhere in `s`. */
  lemma DoubleSpaceMatches(s: string)
    ensures NoDoubleSpace(s) <==> NoMatchBetween(Compile(MultiSpace), s, 0, |s| + 1)
  {
    var f := Compile(MultiSpace);
    if NoDoubleSpace(s) {
      forall j | 0 <= j < |s| + 1 && j <= |s| ensures f(s[j..]).None? {
        assert f(s[j..]) == MultiSpaceAt(s[j..]);
        if j + 1 < |s| {
          assert s[j..][1] == s[j + 1];
        }
      }
    }
    if NoMatchBetween(f, s, 0, |s| + 1) {
      forall i | 0 < i < |s| ensures !(IsSpace(s[i - 1]) && IsSpace(s[i])) {
        assert f(s[i - 1..]) == MultiSpaceAt(s[i - 1..]);
        assert s[i - 1..][1] == s[i];
      }
    }
  }

  /**
   * After the whitespace-run pass no two whitespace characters are
   * adjacent; its output starts with whitespace only where its input does.
   */
  lemma {:induction false} CollapseResidue(t: string, k: nat)
    ensures var o := ReplaceAll(Compile(MultiSpace), t, Constant(" "), k).value;
            NoDoubleSpace(o) && (|o| > 0 && IsSpace(o[0]) ==> |t| > 0 && IsSpace(t[0]))
    decreases |t|
  {
    var f := Compile(MultiSpace);
    if t != [] {
      assert f(t) == MultiSpaceAt(t);
      match f(t)
      case Some(m) =>
        CollapseResidue(t[m.end..], k + 1);
        var rest := ReplaceAll(f, t[m.end..], Constant(" "), k + 1).value;
        assert m.end < |t| ==> t[m.end..][0] == t[m.end];
        assert ReplaceAll(f, t, Constant(" "), k).value == " " + rest;
      case None =>
        CollapseResidue(t[1..], k);
        var rest := ReplaceAll(f, t[1..], Constant(" "), k).value;
        assert |t| > 1 ==> t[1..][0] == t[1];
        assert ReplaceAll(f, t, Constant(" "), k).value == [t[0]] + rest;
    }
  }

  /** `s` reaches a `<` after whitespace only. */
  predicate LeadsToTag(s: string) {
    var n := RunLength(Space, s, 0);
    n < |s| && s[n] == '<'
  }

  lemma LeadsAfter(c: char, s: string)
    ensures LeadsToTag([c] + s) <==> c == '<' || (IsSpace(c) && LeadsToTag(s))
  {
    var t := [c] + s;
    if IsSpace(c) {
      var n := RunLength(Space, s, 0);
      RunIsUnique(Space, t, 0, n + 1);
      assert t[n + 1..] == s[n..];
    }
  }

  /** The inter-tag pattern matches at a `>` exactly when whitespace and then a `<` follow. */
  lemma AfterGt(s: string)
    ensures IntertagAt(">" + s).Some? <==> |s| > 0 && IsSpace(s[0]) && LeadsToTag(s)
  {
    var t := ">" + s;
    var n := RunLength(Space, s, 0);
    RunIsUnique(Space, t, 1, n);
  }

  /** `f` matches nowhere in `p + o` when it matches at no position of `p` and nowhere in `o`. */
  lemma NoMatchAfter(f: Matcher, p: string, o: string)
    requires NoMatchBetween(f, p + o, 0, |p|)
    requires NoMatchBetween(f, o, 0, |o| + 1)
    ensures NoMatchBetween(f, p + o, 0, |p + o| + 1)
  {
    forall j | |p| <= j <= |p + o| ensures f((p + o)[j..]).None? {
      assert (p + o)[j..] == o[j - |p|..];
    }
  }

  /**
   * `o` has no `>` followed by whitespace and a `<`, and starts with
   * whitespace, or reaches a `<` after whitespace, only where `t` does.
   */
  ghost predicate IntertagFree(o: string, t: string) {
    && NoMatchBetween(Compile(Intertag), o, 0, |o| + 1)
    && (|o| > 0 && IsSpace(o[0]) ==> |t| > 0 && IsSpace(t[0]))
    && (LeadsToTag(o) ==> LeadsToTag(t))
  }

  /** A match replaced by `><` leaves nothing for the pattern at its two characters. */
  lemma IntertagFreeAfterMatch(t: string, rest: string)
    requires NoMatchBetween(Compile(Intertag), rest, 0, |rest| + 1)
    ensures IntertagFree("><" + rest, t)
  {
    var f := Compile(Intertag);
    var o := "><" + rest;
    assert f(o[0..]) == IntertagAt(o) && o[0..] == o;
    assert f(o[1..]) == IntertagAt(o[1..]) && o[1..][0] == '<';
    RunIsUnique(Space, o, 1, 0);
    NoMatchAfter(f, "><", rest);
    LeadsAfter('>', "<" + rest);
  }

  /** A character the pattern does not match at, copied before a clean rest, keeps it clean. */
  lemma IntertagFreeAfterCopy(t: string, rest: string)
    requires t != [] && IntertagAt(t).None?
    requires IntertagFree(rest, t[1..])
    ensures IntertagFree([t[0]] + rest, t)
  {
    var f := Compile(Intertag);
    var o := [t[0]] + rest;
    assert f(o[0..]) == IntertagAt(o) && o[0..] == o;
    if t[0] == '>' {
      AfterGt(rest);
      AfterGt(t[1..]);
      assert t == ">" + t[1..];
    }
    NoMatchAfter(f, [t[0]], rest);
    LeadsAfter(t[0], rest);
    LeadsAfter(t[0], t[1..]);
    assert t == [t[0]] + t[1..];
  }

  /** After the inter-tag pass no `>` is followed by whitespace and a `<`. */
  lemma {:induction false} IntertagResidue(t: string, k: nat)
    ensures IntertagFree(ReplaceAll(Compile(Intertag), t, Constant("><"), k).value, t)
    decreases |t|
  {
    var f := Compile(Intertag);
    if t == [] {
      assert f([][0..]) == IntertagAt([]);
    } else {
      assert f(t) == IntertagAt(t);
      match f(t)
      case Some(m) =>
        IntertagResidue(t[m.end..], k + 1);
        IntertagFreeAfterMatch(t, ReplaceAll(f, t[m.end..], Constant("><"), k + 1).value);
      case None =>
        IntertagResidue(t[1..], k);
        IntertagFreeAfterCopy(t, ReplaceAll(f, t[1..], Constant("><"), k).value);
    }
  }

  // ---------------------------------------------------------------------
  // The passes, one by one

  /** Two shortening passes in a row change the text exactly when one of them matches in it. */
  lemma TwoPassesIffMatches(f: Matcher, g: Matcher, t: string, sub: Substitution)
    requires Shortens(f, sub) && Shortens(g, sub) && Total(sub)
    ensures |Rewrite(g, Rewrite(f, t, sub), sub)| <= |t|
    ensures Rewrite(g, Rewrite(f, t, sub), sub) == t <==>
              NoMatchBetween(f, t, 0, |t| + 1) && NoMatchBetween(g, t, 0, |t| + 1)
  {
    ChangesIffMatches(f, t, sub);
    ChangesIffMatches(g, Rewrite(f, t, sub), sub);
  }

  /**
   * Comment removal never lengthens the markup, and leaves it as it is
   * exactly when neither an HTML comment nor a JSP comment occurs in it.
   */
  lemma CommentsRemoved(t: string)
    ensures |RemoveComments(t)| <= |t|
    ensures RemoveComments(t) == t <==>
              NoMatchBetween(Compile(Comment), t, 0, |t| + 1) && NoMatchBetween(Compile(JspComment), t, 0, |t| + 1)
  {
    EraseShortens(Compile(Comment));
    EraseShortens(Compile(JspComment));
    TwoPassesIffMatches(Compile(Comment), Compile(JspComment), t, Constant(""));
  }

  /**
   * Conditional comments, `<!--[if ...]>`, are not comments to the
   * comment pattern: markup whose every `<!--` opens one keeps them all.
   */
  lemma ConditionalCommentsKept(t: string)
    requires forall j: nat :: j + 4 < |t| && StartsWithCI(t[j..], "<!--") ==> t[j + 4] == '['
    ensures Rewrite(Compile(Comment), t, Constant("")) == t
  {
    var f := Compile(Comment);
    forall j | 0 <= j < |t| + 1 && j <= |t| ensures f(t[j..]).None? {
      assert f(t[j..]) == CommentAt(t[j..]);
      if j + 4 < |t| {
        assert t[j..][4] == t[j + 4];
      }
    }
    NoMatchIdentity(f, t, Constant(""), 0);
  }

  /**
   * Whitespace between tags goes: afterwards no `>` is followed by
   * whitespace and a `<`, nothing but whitespace was removed, and the
   * markup is unchanged exactly when there was no such whitespace.
   */
  lemma IntertagSpacesRemoved(t: string)
    ensures var o := RemoveIntertagSpaces(t);
            && NoMatchBetween(Compile(Intertag), o, 0, |o| + 1)
            && Strip(o, IsSpace) == Strip(t, IsSpace)
            && (o == t <==> NoMatchBetween(Compile(Intertag), t, 0, |t| + 1))
  {
    IntertagResidue(t, 0);
    SpaceDrops();
    IntertagKeepsOthers(IsSpace);
    StripsLikeInput(Compile(Intertag), t, Constant("><"), 0, IsSpace);
    IntertagShortens();
    ChangesIffMatches(Compile(Intertag), t, Constant("><"));
  }

  /**
   * Runs of whitespace become one space: afterwards no two whitespace
   * characters are adjacent, nothing but whitespace was removed, the
   * markup is unchanged exactly when it had no such run, and a second
   * pass changes nothing.
   */
  lemma SpacesCollapsed(t: string)
    ensures var o := CollapseSpaces(t);
            && NoDoubleSpace(o)
            && Strip(o, IsSpace) == Strip(t, IsSpace)
            && (o == t <==> NoDoubleSpace(t))
            && CollapseSpaces(o) == o
  {
    var f := Compile(MultiSpace);
    var o := CollapseSpaces(t);
    CollapseResidue(t, 0);
    SpaceDrops();
    MultiSpaceKeepsOthers(IsSpace);
    StripsLikeInput(f, t, Constant(" "), 0, IsSpace);
    DoubleSpaceMatches(t);
    DoubleSpaceMatches(o);
    if NoDoubleSpace(t) {
      NoMatchIdentity(f, t, Constant(" "), 0);
    }
    NoMatchIdentity(f, o, Constant(" "), 0);
  }

  /**
   * Whitespace squeezed in one left-to-right scan: two whitespace
   * characters in a row merge into one space, which merges in turn with
   * the whitespace after it; a lone whitespace character stays as it is.
   */
  function Squeeze(t: string): (r: string)
    ensures |r| <= |t|
    ensures t != [] ==> r != []
    decreases |t|
  {
    if |t| < 2 then t
    else if IsSpace(t[0]) && IsSpace(t[1]) then Squeeze(" " + t[2..])
    else [t[0]] + Squeeze(t[1..])
  }

  /** A run of `n >= 2` whitespace characters at the start of `t` squeezes to one space. */
  lemma {:induction false} SqueezeRun(t: string, n: nat)
    requires 2 <= n <= |t| && (forall j :: 0 <= j < n ==> IsSpace(t[j])) && (n == |t| || !IsSpace(t[n]))
    ensures Squeeze(t) == " " + Squeeze(t[n..])
    decreases n
  {
    var u := " " + t[2..];
    assert Squeeze(t) == Squeeze(u);
    if n == 2 {
      assert u[1..] == t[2..];
      if |t| > 2 {
        assert u[1] == t[2];
      }
    } else {
      assert forall j :: 0 <= j < n - 1 ==> IsSpace(u[j]) by {
        forall j | 0 < j < n - 1 ensures IsSpace(u[j]) {
          assert u[j] == t[j + 1];
        }
      }
      assert n - 1 < |u| ==> u[n - 1] == t[n];
      SqueezeRun(u, n - 1);
      assert u[n - 1..] == t[n..];
    }
  }

  /** The whitespace-run pass, from its `k`-th match on, squeezes whitespace. */
  lemma {:induction false} CollapseSqueezesFrom(t: string, k: nat)
    ensures ReplaceAll(Compile(MultiSpace), t, Constant(" "), k) == Ok(Squeeze(t))
    decreases |t|
  {
    var f := Compile(MultiSpace);
    if t != [] {
      assert f(t) == MultiSpaceAt(t);
      match f(t)
      case Some(m) =>
        CollapseSqueezesFrom(t[m.end..], k + 1);
        SqueezeRun(t, m.end);
        assert ReplaceAll(f, t, Constant(" "), k) == Prepend(" ", Ok(Squeeze(t[m.end..])));
      case None =>
        CollapseSqueezesFrom(t[1..], k);
        assert ReplaceAll(f, t, Constant(" "), k) == Prepend([t[0]], Ok(Squeeze(t[1..])));
        if |t| == 1 {
          assert t[1..] == [] && t == [t[0]] + [];
        } else {
          assert !(IsSpace(t[0]) && IsSpace(t[1]));
        }
    }
  }

  /** Collapsing whitespace runs is squeezing whitespace in one scan. */
  lemma CollapseSpacesSqueezes(t: string)
    ensures CollapseSpaces(t) == Squeeze(t)
  {
    CollapseSqueezesFrom(t, 0);
  }

  /**
   * Quotes around simple attribute values go: nothing but whitespace and
   * quotes was removed, and the markup is shorter exactly when some value
   * matched the quote pattern.
   */
  lemma QuotesRemoved(t: string)
    ensures var o := RemoveQuotes(t);
            && Strip(o, SpaceOrQuote) == Strip(t, SpaceOrQuote)
            && |o| <= |t|
            && (o == t <==> NoMatchBetween(Compile(TagQuote), t, 0, |t| + 1))
  {
    TagQuoteKeepsOthers();
    StripsLikeInput(Compile(TagQuote), t, EqualsValue(), 0, SpaceOrQuote);
    TagQuoteShortens();
    ChangesIffMatches(Compile(TagQuote), t, EqualsValue());
  }

  /** `f` finds every match of the quote pattern, reporting its value as the group and ending after the closing quote. */
  ghost predicate FindsQuotes(f: Matcher) {
    forall u: string, eq: nat, open: nat, close: nat {:trigger IsTagQuoteMatch(u, eq, open, close)} ::
      IsTagQuoteMatch(u, eq, open, close) ==> f(u) == Some(Span(close + 1, open + 1, close))
  }

  lemma TagQuoteFinds()
    ensures FindsQuotes(Compile(TagQuote))
  {
    forall u: string, eq: nat, open: nat, close: nat | IsTagQuoteMatch(u, eq, open, close)
      ensures Compile(TagQuote)(u) == Some(Span(close + 1, open + 1, close))
    {
      TagQuoteFindsAt(u, eq, open, close);
    }
  }

  lemma TagQuoteFindsAt(u: string, eq: nat, open: nat, close: nat)
    requires IsTagQuoteMatch(u, eq, open, close)
    ensures Compile(TagQuote)(u) == Some(Span(close + 1, open + 1, close))
  {
    TagQuoteAtMatches(u);
    TagQuoteForcedAt(u, eq, open, close);
    assert Compile(TagQuote)(u) == TagQuoteAt(u);
  }

  /** `=$2` does not depend on how many matches came before. */
  lemma EqualsValueUniform()
    ensures Uniform(EqualsValue())
  {
    forall k: nat, j: nat, group: string ensures EqualsValue()(k, group) == EqualsValue()(j, group) {
      assert EqualsValue()(k, group) == Ok("=" + group);
    }
  }

  /** A match at `start` whose group runs from `open + 1` to `close`, replaced by `=` and its group. */
  lemma QuoteStep(f: Matcher, t: string, start: nat, open: nat, close: nat, k: nat)
    requires start <= |t| && NoMatchBetween(f, t, 0, start)
    requires f(t[start..]) == Some(Span(close + 1, open + 1, close)) && open + 1 <= close
    ensures start + close < |t|
    ensures ReplaceAll(f, t, EqualsValue(), k)
            == Ok(t[..start] + "=" + t[start + open + 1..start + close] + ReplaceAll(f, t[start + close + 1..], EqualsValue(), k).value)
  {
    var m := Span(close + 1, open + 1, close);
    var before, value := t[..start], t[start + open + 1..start + close];
    var rest := ReplaceAll(f, t[start + close + 1..], EqualsValue(), k).value;
    assert ReplaceAll(f, t, EqualsValue(), k) == Ok(before + ("=" + value) + rest) by {
      assert EqualsValue()(k, t[start..][m.groupStart..m.groupEnd]) == Ok("=" + value) by {
        assert t[start..][m.groupStart..m.groupEnd] == value;
      }
      EqualsValueUniform();
      UniformStep(f, t, start, m, EqualsValue(), k, "=" + value);
    }
    assert before + ("=" + value) == before + "=" + value;
  }

  /** The first match, at `start`, of a pass whose replacement ignores the count: before it, its replacement, the pass after it. */
  lemma UniformStep(f: Matcher, t: string, start: nat, m: Span, sub: Substitution, k: nat, rep: string)
    requires start <= |t| && NoMatchBetween(f, t, 0, start) && f(t[start..]) == Some(m)
    requires Total(sub) && Uniform(sub) && sub(k, t[start..][m.groupStart..m.groupEnd]) == Ok(rep)
    ensures start + m.end <= |t|
    ensures ReplaceAll(f, t, sub, k) == Ok(t[..start] + rep + ReplaceAll(f, t[start + m.end..], sub, k).value)
  {
    var tail := t[start + m.end..];
    UniformFrom(f, tail, sub, k + 1, k);
    StepThen(f, t, start, m, sub, k, rep);
  }

  /**
   * Where the quote pattern first matches, at `start`, with the `=` at
   * `eq` and the quotes at `open` and `close`: the text before it stays,
   * the whole match (spaces, `=`, spaces, the quoted value) becomes `=`
   * and the value without its quotes, and the pass carries on after the
   * closing quote.
   */
  lemma QuoteUnquoted(t: string, start: nat, eq: nat, open: nat, close: nat)
    requires start <= |t| && NoMatchBetween(Compile(TagQuote), t, 0, start)
    requires IsTagQuoteMatch(t[start..], eq, open, close)
    ensures start + close < |t|
    ensures RemoveQuotes(t)
            == t[..start] + "=" + t[start + open + 1..start + close] + RemoveQuotes(t[start + close + 1..])
  {
    TagQuoteFinds();
    assert Compile(TagQuote)(t[start..]) == Some(Span(close + 1, open + 1, close));
    var first: nat := 0;
    QuoteStep(Compile(TagQuote), t, start, open, close, first);
  }

  // ---------------------------------------------------------------------
  // All of `processHtml`

  /** Whatever the settings, `processHtml` never lengthens the markup. */
  lemma ProcessHtmlShortens(config: Config, t: string)
    ensures |ProcessHtml(config, t)| <= |t|
  {
    var a := if config.removeComments then RemoveComments(t) else t;
    var b := if config.removeIntertagSpaces then RemoveIntertagSpaces(a) else a;
    var c := if config.removeMultiSpaces then CollapseSpaces(b) else b;
    CommentsRemoved(t);
    IntertagShortens();
    ChangesIffMatches(Compile(Intertag), a, Constant("><"));
    MultiSpaceShortens();
    ChangesIffMatches(Compile(MultiSpace), b, Constant(" "));
    TagQuoteShortens();
    ChangesIffMatches(Compile(TagQuote), c, EqualsValue());
  }

  /**
   * With comment removal off, `processHtml` removes whitespace and quotes
   * and nothing else: every other character stays, in order.
   */
  lemma ProcessHtmlKeepsMarkup(config: Config, t: string)
    requires !config.removeComments
    ensures Strip(ProcessHtml(config, t), SpaceOrQuote) == Strip(t, SpaceOrQuote)
  {
    var b := if config.removeIntertagSpaces then RemoveIntertagSpaces(t) else t;
    var c := if config.removeMultiSpaces then CollapseSpaces(b) else b;
    SpaceDrops();
    IntertagKeepsOthers(SpaceOrQuote);
    StripsLikeInput(Compile(Intertag), t, Constant("><"), 0, SpaceOrQuote);
    MultiSpaceKeepsOthers(SpaceOrQuote);
    StripsLikeInput(Compile(MultiSpace), b, Constant(" "), 0, SpaceOrQuote);
    TagQuoteKeepsOthers();
    StripsLikeInput(Compile(TagQuote), c, EqualsValue(), 0, SpaceOrQuote);
  }

  // ---------------------------------------------------------------------
  // Text without markup

  /** A character none of the four patterns can start or need: no bracket, no `=`, no whitespace. */
  predicate Inert(c: char) {
    c != '<' && c != '>' && c != '=' && !IsSpace(c)
  }

  /** A comment, an intertag gap or a whitespace run starts with a character that is not inert. */
  lemma MatchStartsMarkup(u: string)
    ensures CommentAt(u).Some? || JspCommentAt(u).Some? || IntertagAt(u).Some? || MultiSpaceAt(u).Some? ==>
              |u| > 0 && !Inert(u[0])
  {
  }

  /** A quoted attribute value follows an `=`. */
  lemma QuoteNeedsEquals(u: string)
    ensures TagQuoteAt(u).Some? ==> '=' in u
  {
    TagQuoteAtMatches(u);
    if TagQuoteAt(u).Some? {
      var eq := RunLength(Space, u, 0);
      assert u[eq] == '=';
    }
  }

  /** Every match of `f` holds a character that is not inert. */
  ghost predicate NeedsMarkup(f: Matcher) {
    forall u :: f(u).Some? ==> exists i :: 0 <= i < |u| && !Inert(u[i])
  }

  lemma RewritesNeedMarkup()
    ensures NeedsMarkup(Compile(Comment)) && NeedsMarkup(Compile(JspComment))
    ensures NeedsMarkup(Compile(Intertag)) && NeedsMarkup(Compile(MultiSpace)) && NeedsMarkup(Compile(TagQuote))
  {
    forall u | Compile(Comment)(u).Some? || Compile(JspComment)(u).Some? || Compile(Intertag)(u).Some?
               || Compile(MultiSpace)(u).Some? || Compile(TagQuote)(u).Some?
      ensures exists i :: 0 <= i < |u| && !Inert(u[i])
    {
      MatchStartsMarkup(u);
      QuoteNeedsEquals(u);
    }
  }

  /** A pattern whose matches need markup matches nowhere in text of inert characters. */
  lemma NoMatchInInert(f: Matcher, t: string)
    requires NeedsMarkup(f)
    requires forall j :: 0 <= j < |t| ==> Inert(t[j])
    ensures NoMatchBetween(f, t, 0, |t| + 1)
  {
    forall j | 0 <= j < |t| + 1 && j <= |t| ensures f(t[j..]).None? {
      assert forall i :: 0 <= i < |t[j..]| ==> Inert(t[j..][i]);
    }
  }

  /** Text of inert characters only goes through `processHtml` unchanged, whatever the settings. */
  lemma InertUnprocessed(config: Config, t: string)
    requires forall j :: 0 <= j < |t| ==> Inert(t[j])
    ensures ProcessHtml(config, t) == t
  {
    RewritesNeedMarkup();
    NoMatchInInert(Compile(Comment), t);
    NoMatchInInert(Compile(JspComment), t);
    NoMatchInInert(Compile(Intertag), t);
    NoMatchInInert(Compile(MultiSpace), t);
    NoMatchInInert(Compile(TagQuote), t);
    CommentsRemoved(t);
    IntertagShortens();
    ChangesIffMatches(Compile(Intertag), t, Constant("><"));
    MultiSpaceShortens();
    ChangesIffMatches(Compile(MultiSpace), t, Constant(" "));
    TagQuoteShortens();
    ChangesIffMatches(Compile(TagQuote), t, EqualsValue());
  }
}
