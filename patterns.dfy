/**
 * The compiled patterns of `HtmlCompressor` (its lines 66-83), each as a
 * dedicated scanner.
 *
 * `MatchAt(p, t)` is what the regex engine does when it tries `p` at the
 * first character of `t`. None of the patterns looks behind or anchors, so
 * the outcome of a try at position `i` of a text `s` depends only on
 * `s[i..]`, and `MatchAt(p, s[i..])` is that try. Each scanner is
 * specified against a predicate that says, without reference to the way
 * it is computed, which texts the regular expression accepts, and states
 * that the scanner returns the match the backtracking engine picks (the
 * shortest for a lazy quantifier, the longest for a greedy one).
 */
module Patterns {
  import opened Outcomes
  import opened Chars

  /** The five kinds of protected block, in the words of the placeholders. */
  datatype Category = Pre | Script | Style | Jsp | TextArea

  function CategoryName(c: Category): string {
    match c
    case Pre => "PRE"
    case Script => "SCRIPT"
    case Style => "STYLE"
    case Jsp => "JSP"
    case TextArea => "TEXTAREA"
  }

  /** The fixed head `%%%COMPRESS~<CAT>~` of every placeholder of category `c`. */
  function TokenPrefix(c: Category): string {
    "%%%COMPRESS~" + CategoryName(c) + "~"
  }

  const TokenSuffix: string := "%%%"

  /** A placeholder with head `head` and number `k`. */
  function NumberedToken(head: string, k: nat): string {
    head + DecimalString(k) + TokenSuffix
  }

  /** `tempXBlock.replaceFirst("#", Integer.toString(k))`: the placeholder for block `k`. */
  function Token(c: Category, k: nat): string {
    NumberedToken(TokenPrefix(c), k)
  }

  /**
   * A match at the start of a text: it covers `t[..end]`, and its capturing
   * group (the whole match for a pattern without one) is
   * `t[groupStart..groupEnd]`.
   */
  datatype Span = Span(end: nat, groupStart: nat, groupEnd: nat)

  datatype Pattern =
    /** `<name[^>]*?>.*?</name>`, or `<name[^>]*?>(.+?)</name>` when `nonEmptyBody`. */
    | Element(name: string, nonEmptyBody: bool)
    /** `<%[^-=@](.+?)%>`: a JSP scriptlet or declaration. */
    | JspBlock
    /** `<!--[^\[].*?-->`: an HTML comment that is not a conditional comment. */
    | Comment
    /** `<%--.+?--%>`: a JSP comment. */
    | JspComment
    /** `>\s+?<`: whitespace between two tags. */
    | Intertag
    /** `\s{2,}`: two or more whitespace characters. */
    | MultiSpace
    /** `\s*=\s*(["'])([a-z0-9-_]+?)\1(?=[^<]*?>)`: a quoted attribute value. */
    | TagQuote

  /** The pattern `preserveBlocks` extracts category `c` with. */
  function BlockPattern(c: Category): Pattern {
    match c
    case Pre => Element("pre", false)
    case Script => Element("script", false)
    case Style => Element("style", false)
    case Jsp => JspBlock
    case TextArea => Element("textarea", false)
  }

  /** `scriptPatternNonEmpty` and `stylePatternNonEmpty`. */
  const ScriptNonEmpty: Pattern := Element("script", true)
  const StyleNonEmpty: Pattern := Element("style", true)

  // ---------------------------------------------------------------------
  // Element: <name[^>]*?>.*?</name>

  /** Where the one-character literal `[c]` is not found, `c` does not occur. */
  lemma NoSymbolUntil(t: string, c: char, from: nat, until: nat)
    requires !('a' <= c <= 'z') && !('A' <= c <= 'Z')
    requires until <= |t|
    requires forall j :: from <= j < until ==> !StartsWithCI(t[j..], [c])
    ensures forall j :: from <= j < until ==> t[j] != c
  {
    forall j | from <= j < until ensures t[j] != c {
      StartsWithSymbol(t[j..], c);
    }
  }

  /**
   * `t` is accepted by the element pattern with the opening tag closed by
   * the `>` at `gt` and the closing tag starting at `close`.
   */
  ghost predicate IsElementMatch(name: string, nonEmpty: bool, t: string, gt: nat, close: nat) {
    && StartsWithCI(t, "<" + name)
    && |name| + 1 <= gt < |t| && t[gt] == '>'
    && (forall j :: |name| + 1 <= j < gt ==> t[j] != '>')
    && gt + 1 + (if nonEmpty then 1 else 0) <= close <= |t|
    && StartsWithCI(t[close..], "</" + name + ">")
  }

  /**
   * The element pattern tried at the start of `t`: the opening tag ends at
   * the first `>`, the body at the first closing tag after it.
   */
  function ElementAt(name: string, nonEmpty: bool, t: string): (r: Option<Span>)
    ensures r.Some? ==> 1 <= r.value.groupStart <= r.value.groupEnd
                        && r.value.end == r.value.groupEnd + |name| + 3
                        && IsElementMatch(name, nonEmpty, t, r.value.groupStart - 1, r.value.groupEnd)
    ensures r.Some? ==> forall gt, close :: IsElementMatch(name, nonEmpty, t, gt, close) ==>
                          gt == r.value.groupStart - 1 && r.value.groupEnd <= close
    ensures r.None? ==> forall gt, close :: !IsElementMatch(name, nonEmpty, t, gt, close)
  {
    var open := "<" + name;
    var closeTag := "</" + name + ">";
    var minBody := if nonEmpty then 1 else 0;
    if !StartsWithCI(t, open) then None
    else
      match IndexOfCI(t, ">", |open|)
      case None =>
        NoSymbolUntil(t, '>', |open|, |t|);
        None
      case Some(gt) =>
        NoSymbolUntil(t, '>', |open|, gt);
        StartsWithSymbol(t[gt..], '>');
        match IndexOfCI(t, closeTag, gt + 1 + minBody)
        case None => None
        case Some(close) => Some(Span(close + |closeTag|, gt + 1, close))
  }

  // ---------------------------------------------------------------------
  // JSP scriptlet: <%[^-=@](.+?)%>

  ghost predicate IsJspMatch(t: string, close: nat) {
    && StartsWithCI(t, "<%") && |t| > 2 && t[2] != '-' && t[2] != '=' && t[2] != '@'
    && 4 <= close <= |t| && StartsWithCI(t[close..], "%>")
  }

  /** A JSP block runs from `<%` to the first `%>` that leaves at least two characters between. */
  function JspAt(t: string): (r: Option<Span>)
    ensures r.Some? ==> r.value.groupStart == 3 && r.value.end == r.value.groupEnd + 2
                        && IsJspMatch(t, r.value.groupEnd)
                        && forall close :: IsJspMatch(t, close) ==> r.value.groupEnd <= close
    ensures r.None? ==> forall close :: !IsJspMatch(t, close)
  {
    if StartsWithCI(t, "<%") && |t| > 2 && t[2] != '-' && t[2] != '=' && t[2] != '@' then
      match IndexOfCI(t, "%>", 4)
      case None => None
      case Some(close) => Some(Span(close + 2, 3, close))
    else None
  }

  // ---------------------------------------------------------------------
  // HTML comment: <!--[^\[].*?-->

  ghost predicate IsCommentMatch(t: string, close: nat) {
    && StartsWithCI(t, "<!--") && |t| > 4 && t[4] != '['
    && 5 <= close <= |t| && StartsWithCI(t[close..], "-->")
  }

  /** A comment runs from `<!--` (not followed by `[`) to the first `-->` after that character. */
  function CommentAt(t: string): (r: Option<Span>)
    ensures r.Some? ==> r.value.end >= 8 && IsCommentMatch(t, r.value.end - 3)
                        && forall close :: IsCommentMatch(t, close) ==> r.value.end - 3 <= close
    ensures r.None? ==> forall close :: !IsCommentMatch(t, close)
  {
    if StartsWithCI(t, "<!--") && |t| > 4 && t[4] != '[' then
      match IndexOfCI(t, "-->", 5)
      case None => None
      case Some(close) => Some(Span(close + 3, 0, close + 3))
    else None
  }

  // ---------------------------------------------------------------------
  // JSP comment: <%--.+?--%>

  ghost predicate IsJspCommentMatch(t: string, close: nat) {
    StartsWithCI(t, "<%--") && 5 <= close <= |t| && StartsWithCI(t[close..], "--%>")
  }

  /** A JSP comment runs from `<%--` to the first `--%>` that leaves at least one character between. */
  function JspCommentAt(t: string): (r: Option<Span>)
    ensures r.Some? ==> r.value.end >= 9 && IsJspCommentMatch(t, r.value.end - 4)
                        && forall close :: IsJspCommentMatch(t, close) ==> r.value.end - 4 <= close
    ensures r.None? ==> forall close :: !IsJspCommentMatch(t, close)
  {
    if StartsWithCI(t, "<%--") then
      match IndexOfCI(t, "--%>", 5)
      case None => None
      case Some(close) => Some(Span(close + 4, 0, close + 4))
    else None
  }

  // ---------------------------------------------------------------------
  // Inter-tag whitespace: >\s+?<

  ghost predicate IsIntertagMatch(t: string, lt: nat) {
    2 <= lt < |t| && t[0] == '>' && (forall j :: 1 <= j < lt ==> IsSpace(t[j])) && t[lt] == '<'
  }

  /** `>`, one or more whitespace characters, then `<`; the match is unique. */
  function IntertagAt(t: string): (r: Option<Span>)
    ensures r.Some? ==> r.value.end >= 3 && IsIntertagMatch(t, r.value.end - 1)
    ensures r.Some? ==> forall lt :: IsIntertagMatch(t, lt) ==> lt == r.value.end - 1
    ensures r.None? ==> forall lt :: !IsIntertagMatch(t, lt)
  {
    if |t| > 0 && t[0] == '>' then
      var n := RunLength(Space, t, 1);
      if n >= 1 && 1 + n < |t| && t[1 + n] == '<' then Some(Span(n + 2, 0, n + 2)) else None
    else None
  }

  // ---------------------------------------------------------------------
  // Whitespace run: \s{2,}

  /** The greedy run: all the whitespace at the start of `t`, when there are two or more. */
  function MultiSpaceAt(t: string): (r: Option<Span>)
    ensures r.Some? <==> |t| >= 2 && IsSpace(t[0]) && IsSpace(t[1])
    ensures r.Some? ==> 2 <= r.value.end <= |t|
                        && (forall j :: 0 <= j < r.value.end ==> IsSpace(t[j]))
                        && (r.value.end == |t| || !IsSpace(t[r.value.end]))
  {
    var n := RunLength(Space, t, 0);
    if n >= 2 then Some(Span(n, 0, n)) else None
  }

  // ---------------------------------------------------------------------
  // Quoted attribute value: \s*=\s*(["'])([a-z0-9-_]+?)\1(?=[^<]*?>)

  predicate IsQuote(c: char) {
    c == '"' || c == '\''
  }

  /** The lookahead `(?=[^<]*?>)` holds at `from`: a `>` comes before any `<`. */
  ghost predicate ClosesBeforeOpens(t: string, from: nat) {
    exists g :: from <= g < |t| && t[g] == '>' && '<' !in t[from..g]
  }

  /** The lookahead, scanned forward from `from`. */
  function LookaheadCloses(t: string, from: nat): (b: bool)
    requires from <= |t|
    ensures b <==> ClosesBeforeOpens(t, from)
    decreases |t| - from
  {
    if from == |t| then false
    else if t[from] == '>' then
      assert '<' !in t[from..from];
      true
    else if t[from] == '<' then false
    else
      var b := LookaheadCloses(t, from + 1);
      assert b ==> ClosesBeforeOpens(t, from) by {
        if b {
          var g :| from + 1 <= g < |t| && t[g] == '>' && '<' !in t[from + 1..g];
          assert t[from..g] == [t[from]] + t[from + 1..g];
        }
      }
      b
  }

  /**
   * `t` is accepted by the quote pattern with the `=` at `eq` and the
   * value quoted between `open` and `close`.
   */
  ghost predicate IsTagQuoteMatch(t: string, eq: nat, open: nat, close: nat) {
    && eq < open && open + 1 < close < |t|
    && (forall j :: 0 <= j < eq ==> IsSpace(t[j]))
    && t[eq] == '='
    && (forall j :: eq < j < open ==> IsSpace(t[j]))
    && IsQuote(t[open])
    && (forall j :: open < j < close ==> IsValueChar(t[j]))
    && t[close] == t[open]
    && ClosesBeforeOpens(t, close + 1)
  }

  /** Where the greedy `\s*` puts the opening quote: after the `=` and the second run of spaces. */
  function OpenQuoteAt(t: string): nat {
    var eq := RunLength(Space, t, 0);
    if eq < |t| then eq + 1 + RunLength(Space, t, eq + 1) else eq + 1
  }

  /** Where the lazy value run puts the closing quote: at the first character outside the class. */
  function CloseQuoteAt(t: string): nat {
    var open := OpenQuoteAt(t);
    if open < |t| then open + 1 + RunLength(ValueChar, t, open + 1) else open + 1
  }

  lemma SpaceRunForced(t: string, from: nat, n: nat)
    requires from + n < |t| && !IsSpace(t[from + n])
    requires forall j :: from <= j < from + n ==> IsSpace(t[j])
    ensures RunLength(Space, t, from) == n
  {
    RunIsUnique(Space, t, from, n);
  }

  lemma ValueRunForced(t: string, from: nat, n: nat)
    requires from + n < |t| && !IsValueChar(t[from + n])
    requires forall j :: from <= j < from + n ==> IsValueChar(t[j])
    ensures RunLength(ValueChar, t, from) == n
  {
    RunIsUnique(ValueChar, t, from, n);
  }

  /** The greedy and lazy runs leave the quote pattern no choice: the positions are forced. */
  lemma TagQuoteForcedAt(t: string, eq: nat, open: nat, close: nat)
    requires IsTagQuoteMatch(t, eq, open, close)
    ensures eq == RunLength(Space, t, 0) && open == OpenQuoteAt(t) && close == CloseQuoteAt(t)
  {
    SpaceRunForced(t, 0, eq);
    SpaceRunForced(t, eq + 1, open - eq - 1);
    assert open == OpenQuoteAt(t);
    ValueRunForced(t, open + 1, close - open - 1);
  }

  lemma TagQuoteForced(t: string)
    ensures forall eq: nat, open: nat, close: nat :: IsTagQuoteMatch(t, eq, open, close) ==>
              eq == RunLength(Space, t, 0) && open == OpenQuoteAt(t) && close == CloseQuoteAt(t)
  {
    forall eq: nat, open: nat, close: nat | IsTagQuoteMatch(t, eq, open, close)
      ensures eq == RunLength(Space, t, 0) && open == OpenQuoteAt(t) && close == CloseQuoteAt(t)
    {
      TagQuoteForcedAt(t, eq, open, close);
    }
  }

  /** The characters at the forced positions are the ones the pattern asks for. */
  predicate QuoteFits(t: string) {
    var eq := RunLength(Space, t, 0);
    var open := OpenQuoteAt(t);
    var close := CloseQuoteAt(t);
    && eq < |t| && t[eq] == '=' && open < |t| && IsQuote(t[open])
    && open + 1 < close < |t| && t[close] == t[open] && LookaheadCloses(t, close + 1)
  }

  lemma QuoteFitsMatches(t: string)
    requires QuoteFits(t)
    ensures IsTagQuoteMatch(t, RunLength(Space, t, 0), OpenQuoteAt(t), CloseQuoteAt(t))
  {
  }

  lemma QuoteMisfitFails(t: string)
    requires !QuoteFits(t)
    ensures forall eq, open, close :: !IsTagQuoteMatch(t, eq, open, close)
  {
    TagQuoteForced(t);
  }

  /**
   * Whitespace, `=`, whitespace, a quote, one or more value characters and
   * the same quote, followed somewhere by `>` before any `<`. The group is
   * the value.
   */
  function TagQuoteAt(t: string): (r: Option<Span>)
    ensures r.Some? ==> 1 <= r.value.groupStart < r.value.groupEnd < r.value.end <= |t|
  {
    if QuoteFits(t) then Some(Span(CloseQuoteAt(t) + 1, OpenQuoteAt(t) + 1, CloseQuoteAt(t))) else None
  }

  /**
   * The scanner finds exactly the matches of the quote pattern: what it
   * reports is a match, the match is the only one, and when it reports
   * nothing there is none.
   */
  lemma TagQuoteAtMatches(t: string)
    ensures var r := TagQuoteAt(t);
            r.Some? ==> IsTagQuoteMatch(t, RunLength(Space, t, 0), r.value.groupStart - 1, r.value.groupEnd)
    ensures var r := TagQuoteAt(t);
            r.Some? ==> forall eq, open, close :: IsTagQuoteMatch(t, eq, open, close) ==>
                          open == r.value.groupStart - 1 && close == r.value.groupEnd
    ensures TagQuoteAt(t).None? ==> forall eq, open, close :: !IsTagQuoteMatch(t, eq, open, close)
  {
    if QuoteFits(t) {
      QuoteFitsMatches(t);
      TagQuoteForced(t);
    } else {
      QuoteMisfitFails(t);
    }
  }

  // ---------------------------------------------------------------------
  // Placeholder: %%%COMPRESS~<CAT>~(\d+?)%%%

  /** `t` is accepted by the placeholder pattern with head `head`, its digits ending at `digitsEnd`. */
  ghost predicate IsPlaceholderMatch(head: string, t: string, digitsEnd: nat) {
    && StartsWithCI(t, head)
    && |head| < digitsEnd <= |t|
    && (forall j :: |head| <= j < digitsEnd ==> IsDigit(t[j]))
    && StartsWithCI(t[digitsEnd..], TokenSuffix)
  }

  /** The digits run as far as they go: the lazy `\d+?` can only stop where `%` follows. */
  function DigitsEnd(head: string, t: string): nat
    requires |head| <= |t|
  {
    |head| + RunLength(Digit, t, |head|)
  }

  /** The placeholder head, one or more digits, then `%%%`; the group is the digits. */
  function PlaceholderAt(head: string, t: string): (r: Option<Span>)
    ensures r.Some? ==> |head| == r.value.groupStart < r.value.groupEnd && r.value.end == r.value.groupEnd + 3 <= |t|
  {
    if StartsWithCI(t, head) && DigitsEnd(head, t) > |head| && StartsWithCI(t[DigitsEnd(head, t)..], TokenSuffix)
    then Some(Span(DigitsEnd(head, t) + 3, |head|, DigitsEnd(head, t)))
    else None
  }

  /** Where a placeholder's digits are followed by `%`, they end: no other split is accepted. */
  lemma PlaceholderForced(head: string, t: string, d: nat)
    requires IsPlaceholderMatch(head, t, d)
    ensures d == DigitsEnd(head, t)
  {
    assert Lower(t[d]) == Lower('%');
    LowerOfNonLetter(t[d], '%');
    RunIsUnique(Digit, t, |head|, d - |head|);
  }

  /**
   * The scanner finds exactly the placeholders: what it reports is a match
   * and the only one, and when it reports nothing there is none.
   */
  lemma PlaceholderAtMatches(head: string, t: string)
    ensures var r := PlaceholderAt(head, t);
            r.Some? ==> IsPlaceholderMatch(head, t, r.value.groupEnd)
    ensures var r := PlaceholderAt(head, t);
            r.Some? ==> forall d :: IsPlaceholderMatch(head, t, d) ==> d == r.value.groupEnd
    ensures PlaceholderAt(head, t).None? ==> forall d :: !IsPlaceholderMatch(head, t, d)
  {
    forall d | IsPlaceholderMatch(head, t, d) ensures d == DigitsEnd(head, t) {
      PlaceholderForced(head, t, d);
    }
  }

  // ---------------------------------------------------------------------

  /** `p` tried at the start of `t`. No pattern matches the empty text. */
  function MatchAt(p: Pattern, t: string): (r: Option<Span>)
    ensures IsSpanOf(t, r)
  {
    match p
    case Element(name, nonEmpty) => ElementAt(name, nonEmpty, t)
    case JspBlock => JspAt(t)
    case Comment => CommentAt(t)
    case JspComment => JspCommentAt(t)
    case Intertag => IntertagAt(t)
    case MultiSpace => MultiSpaceAt(t)
    case TagQuote => TagQuoteAt(t)
  }

  /** `r` is a possible outcome of a try at the start of `t`: a non-empty prefix with its group inside it, or nothing. */
  predicate IsSpanOf(t: string, r: Option<Span>) {
    r.Some? ==> 0 < r.value.end <= |t| && r.value.groupStart <= r.value.groupEnd <= r.value.end
  }

  /** A compiled pattern, as the rewriting loop sees it: a try at the start of a text. */
  type Matcher = f: string -> Option<Span> | forall t :: IsSpanOf(t, f(t)) witness t => None

  /** `Pattern.compile`. */
  function Compile(p: Pattern): (f: Matcher)
    ensures forall t :: f(t) == MatchAt(p, t)
  {
    t => MatchAt(p, t)
  }

  /** `tempXPattern`, `%%%COMPRESS~<CAT>~(\d+?)%%%`: the placeholders of category `c`, compiled. */
  function PlaceholderMatcher(c: Category): (f: Matcher)
    ensures forall t :: f(t) == PlaceholderAt(TokenPrefix(c), t)
  {
    t => PlaceholderAt(TokenPrefix(c), t)
  }
}
