/**
 * Character classes, ASCII case-insensitive search and the few
 * `java.lang` string routines the compressor relies on.
 *
 * Java compiles every pattern of the compressor with `CASE_INSENSITIVE`
 * but without `UNICODE_CASE`, so only the ASCII letters fold; `\s` and
 * `\d` are the ASCII classes.
 */
module Chars {
  import opened Outcomes

  /** Java's `\s`: space, tab, line feed, vertical tab, form feed, carriage return. */
  predicate IsSpace(c: char) {
    c == ' ' || c == '\t' || c == '\n' || c == '\U{000B}' || c == '\U{000C}' || c == '\r'
  }

  /** Java's `\d`. */
  predicate IsDigit(c: char) {
    '0' <= c <= '9'
  }

  /** The class `[a-z0-9-_]` under `CASE_INSENSITIVE`. */
  predicate IsValueChar(c: char) {
    'a' <= c <= 'z' || 'A' <= c <= 'Z' || IsDigit(c) || c == '-' || c == '_'
  }

  /** ASCII lower-casing: the only folding `CASE_INSENSITIVE` applies. */
  function Lower(c: char): char {
    if 'A' <= c <= 'Z' then (c as int + 32) as char else c
  }

  /** A character that no letter folds to stands only for itself. */
  lemma LowerOfNonLetter(c: char, d: char)
    requires !('a' <= d <= 'z') && !('A' <= d <= 'Z')
    ensures Lower(c) == Lower(d) <==> c == d
  {
  }

  /** `t` begins with `lit`, ignoring ASCII case. */
  predicate StartsWithCI(t: string, lit: string) {
    |lit| <= |t| && forall i :: 0 <= i < |lit| ==> Lower(t[i]) == Lower(lit[i])
  }

  /** `t` holds `lit` (ignoring ASCII case) nowhere. */
  predicate FreeOf(t: string, lit: string) {
    forall j :: 0 <= j <= |t| ==> !StartsWithCI(t[j..], lit)
  }

  /**
   * The first position at or after `from` where `lit` occurs in `t`,
   * ignoring ASCII case, as `Matcher.find` locates a literal.
   */
  function IndexOfCI(t: string, lit: string, from: nat): (r: Option<nat>)
    ensures r.Some? ==> from <= r.value <= |t| && StartsWithCI(t[r.value..], lit)
    ensures r.Some? ==> forall j :: from <= j < r.value ==> !StartsWithCI(t[j..], lit)
    ensures r.None? ==> forall j :: from <= j <= |t| ==> !StartsWithCI(t[j..], lit)
    decreases |t| - from
  {
    if from > |t| then None
    else if StartsWithCI(t[from..], lit) then Some(from)
    else IndexOfCI(t, lit, from + 1)
  }

  /** Whether `s` begins with `lit` depends only on its first `|lit|` characters. */
  lemma StartsWithSamePrefix(s: string, t: string, lit: string)
    requires |lit| <= |s| && |lit| <= |t| && s[..|lit|] == t[..|lit|]
    ensures StartsWithCI(s, lit) <==> StartsWithCI(t, lit)
  {
    assert forall i :: 0 <= i < |lit| ==> s[i] == s[..|lit|][i] && t[i] == t[..|lit|][i];
  }

  /** A text that begins with `lit` itself begins with `lit`. */
  lemma StartsWithItself(lit: string, more: string)
    ensures StartsWithCI(lit + more, lit)
  {
    assert forall i :: 0 <= i < |lit| ==> (lit + more)[i] == lit[i];
  }

  /** The single-character literal `[c]` occurs exactly where `c` stands, when `c` is no letter. */
  lemma StartsWithSymbol(t: string, c: char)
    requires !('a' <= c <= 'z') && !('A' <= c <= 'Z')
    ensures StartsWithCI(t, [c]) <==> |t| > 0 && t[0] == c
  {
    if |t| > 0 {
      LowerOfNonLetter(t[0], c);
    }
  }

  /** The other ASCII case of a letter; any other character itself. */
  function OtherCase(c: char): (d: char)
    ensures Lower(d) == Lower(c)
  {
    if 'a' <= c <= 'z' then (c as int - 32) as char
    else if 'A' <= c <= 'Z' then (c as int + 32) as char
    else c
  }

  /** Only `c` and its other case fold to what `c` folds to. */
  lemma FoldsApart(x: char, c: char)
    requires x != c && x != OtherCase(c)
    ensures Lower(x) != Lower(c)
  {
  }

  /** A text holding one character of `lit` in neither case holds no occurrence of `lit`. */
  lemma FreeOfMissing(t: string, lit: string, i: nat)
    requires i < |lit| && lit[i] !in t && OtherCase(lit[i]) !in t
    ensures FreeOf(t, lit)
  {
    forall j | 0 <= j <= |t| ensures !StartsWithCI(t[j..], lit) {
      if j + i < |t| {
        assert t[j + i] in t;
        FoldsApart(t[j + i], lit[i]);
        assert t[j..][i] == t[j + i];
      }
    }
  }

  /**
   * A text holding one character of `lit` (in either case) at `p` only
   * holds `lit` at most where that character falls into place, at `p - i`.
   */
  lemma FreeOfAnchored(t: string, lit: string, i: nat, p: nat)
    requires i < |lit| && p < |t|
    requires lit[i] !in t[..p] && OtherCase(lit[i]) !in t[..p]
    requires lit[i] !in t[p + 1..] && OtherCase(lit[i]) !in t[p + 1..]
    requires p < i || !StartsWithCI(t[p - i..], lit)
    ensures FreeOf(t, lit)
  {
    forall j | 0 <= j <= |t| && j + i != p ensures !StartsWithCI(t[j..], lit) {
      if j + i < p {
        assert t[..p][j + i] in t[..p];
        FoldsApart(t[j + i], lit[i]);
        assert t[j..][i] == t[j + i];
      } else if j + i < |t| {
        assert t[p + 1..][j + i - p - 1] in t[p + 1..];
        FoldsApart(t[j + i], lit[i]);
        assert t[j..][i] == t[j + i];
      }
    }
  }

  /** The character classes a greedy or lazy run of the patterns ranges over. */
  datatype CharClass = Space | Digit | ValueChar

  predicate InClass(k: CharClass, c: char) {
    match k
    case Space => IsSpace(c)
    case Digit => IsDigit(c)
    case ValueChar => IsValueChar(c)
  }

  /** The length of the longest run of class `k` that starts at `from`. */
  function RunLength(k: CharClass, t: string, from: nat): (n: nat)
    requires from <= |t|
    ensures from + n <= |t|
    ensures forall j :: from <= j < from + n ==> InClass(k, t[j])
    ensures from + n == |t| || !InClass(k, t[from + n])
    decreases |t| - from
  {
    if from < |t| && InClass(k, t[from]) then 1 + RunLength(k, t, from + 1) else 0
  }

  /** Two runs of one class that both stop at a character outside it have the same length. */
  lemma RunIsUnique(k: CharClass, t: string, from: nat, n: nat)
    requires from + n <= |t|
    requires forall j :: from <= j < from + n ==> InClass(k, t[j])
    requires from + n == |t| || !InClass(k, t[from + n])
    ensures RunLength(k, t, from) == n
  {
  }

  /** `Integer.MAX_VALUE`. */
  const MaxInt: nat := 0x7FFF_FFFF

  function DigitChar(d: nat): (c: char)
    requires d < 10
  {
    ('0' as int + d) as char
  }

  function DigitValue(c: char): nat
    requires IsDigit(c)
  {
    c as int - '0' as int
  }

  predicate AllDigits(s: string) {
    forall i :: 0 <= i < |s| ==> IsDigit(s[i])
  }

  /** The value of a string of decimal digits. */
  function DecimalValue(s: string): nat
    requires AllDigits(s)
    decreases |s|
  {
    if s == [] then 0 else 10 * DecimalValue(s[..|s| - 1]) + DigitValue(s[|s| - 1])
  }

  /** `Integer.toString(n)` for a non-negative `n`: its decimal digits. */
  function DecimalString(n: nat): (s: string)
    ensures |s| > 0 && AllDigits(s)
    ensures DecimalValue(s) == n
    decreases n
  {
    var last := [DigitChar(n % 10)];
    if n < 10 then last
    else
      var init := DecimalString(n / 10);
      assert (init + last)[..|init + last| - 1] == init;
      init + last
  }

  /**
   * `Integer.parseInt(s)` on text the patterns have already restricted to
   * ASCII digits: it fails on empty text, on anything but digits and on a
   * value above `Integer.MAX_VALUE`.
   */
  function ParseInt(s: string): (r: Result<nat>)
    ensures r.Ok? <==> |s| > 0 && AllDigits(s) && DecimalValue(s) <= MaxInt
    ensures r.Ok? ==> r.value == DecimalValue(s)
    ensures r.Err? ==> r.error == NumberFormat(s)
  {
    if |s| > 0 && AllDigits(s) && DecimalValue(s) <= MaxInt then Ok(DecimalValue(s))
    else Err(NumberFormat(s))
  }

  /** `Integer.parseInt(Integer.toString(n)) == n` for every non-negative `int`. */
  lemma ParseIntOfDecimalString(n: nat)
    requires n <= MaxInt
    ensures ParseInt(DecimalString(n)) == Ok(n)
  {
  }

  /** Whitespace as `String.trim` sees it: every character up to U+0020. */
  predicate IsTrimmable(c: char) {
    c <= ' '
  }

  /** `s` with its leading trimmable characters removed. */
  function TrimStart(s: string): (r: string)
    ensures |r| <= |s| && r == s[|s| - |r|..]
    ensures r == [] || !IsTrimmable(r[0])
    ensures forall j :: 0 <= j < |s| - |r| ==> IsTrimmable(s[j])
    decreases |s|
  {
    if s != [] && IsTrimmable(s[0]) then TrimStart(s[1..]) else s
  }

  /** `s` with its trailing trimmable characters removed. */
  function TrimEnd(s: string): (r: string)
    ensures |r| <= |s| && r == s[..|r|]
    ensures r == [] || !IsTrimmable(r[|r| - 1])
    ensures forall j :: |r| <= j < |s| ==> IsTrimmable(s[j])
    decreases |s|
  {
    if s != [] && IsTrimmable(s[|s| - 1]) then TrimEnd(s[..|s| - 1]) else s
  }

  /** `String.trim`. */
  function Trim(s: string): (r: string)
  {
    TrimEnd(TrimStart(s))
  }

  /** Neither end of `s` is a trimmable character. */
  predicate IsTrimmed(s: string) {
    s == [] || (!IsTrimmable(s[0]) && !IsTrimmable(s[|s| - 1]))
  }

  lemma SliceOfSuffix(s: string, i: nat, n: nat)
    requires i + n <= |s|
    ensures s[i..][..n] == s[i..i + n]
  {
  }

  /** `trim` leaves no trimmable character at either end. */
  lemma TrimIsTrimmed(s: string)
    ensures IsTrimmed(Trim(s))
  {
    var a := TrimStart(s);
    var r := TrimEnd(a);
    if r != [] {
      assert r[0] == a[0];
    }
  }

  /** What `trim` keeps is the piece of `s` after the leading cut. */
  lemma TrimPiece(s: string)
    ensures var i := |s| - |TrimStart(s)|;
            i + |Trim(s)| <= |s| && Trim(s) == s[i..i + |Trim(s)|]
  {
    var a := TrimStart(s);
    var r := TrimEnd(a);
    var i := |s| - |a|;
    calc {
      r;
      a[..|r|];
      s[i..][..|r|];
      { SliceOfSuffix(s, i, |r|); }
      s[i..i + |r|];
    }
  }

  /** Only trimmable characters follow what `trim` keeps. */
  lemma TrimTail(s: string)
    ensures var i := |s| - |TrimStart(s)|;
            forall j :: i + |Trim(s)| <= j < |s| ==> IsTrimmable(s[j])
  {
    var a := TrimStart(s);
    var i := |s| - |a|;
    forall j | i + |TrimEnd(a)| <= j < |s| ensures IsTrimmable(s[j]) {
      assert s[j] == a[j - i];
    }
  }

  /**
   * `trim` removes exactly the trimmable characters at both ends: what is
   * left is the piece of `s` that starts at the first visible character,
   * and only trimmable characters were cut on either side.
   */
  lemma TrimCuts(s: string)
    ensures var i := |s| - |TrimStart(s)|;
            && i + |Trim(s)| <= |s|
            && Trim(s) == s[i..i + |Trim(s)|]
            && (forall j :: 0 <= j < i ==> IsTrimmable(s[j]))
            && (forall j :: i + |Trim(s)| <= j < |s| ==> IsTrimmable(s[j]))
  {
    TrimPiece(s);
    TrimTail(s);
  }

  /** A trimmed text is its own trim. */
  lemma {:induction false} TrimOfTrimmed(s: string)
    requires IsTrimmed(s)
    ensures Trim(s) == s
  {
  }
}
