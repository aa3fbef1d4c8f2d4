/**
 * The `Matcher` loop every pass of the compressor is built from:
 *
 *     while (matcher.find()) { ...; matcher.appendReplacement(sb, replacement); }
 *     matcher.appendTail(sb);
 *
 * and `Matcher.replaceAll`, which runs the same loop. Its meaning is
 * "replace every match, taken left to right without overlap, by its
 * replacement", stated once by `ReplaceAll`; `ReplaceEach` is the loop
 * itself, proved to compute it.
 */
module Rewriting {
  import opened Outcomes
  import opened Chars
  import opened Patterns

  /** `f` matches at no position `j` with `lo <= j < hi` of `s`. */
  predicate NoMatchBetween(f: Matcher, s: string, lo: nat, hi: nat) {
    forall j {:trigger f(s[j..])} :: lo <= j < hi && j <= |s| ==> f(s[j..]).None?
  }

  /** `Matcher.find()` from `from`: the leftmost position where `f` matches. */
  function Find(f: Matcher, s: string, from: nat): (r: Option<nat>)
    requires from <= |s|
    ensures r.Some? ==> from <= r.value < |s| && f(s[r.value..]).Some?
    ensures r.Some? ==> NoMatchBetween(f, s, from, r.value)
    ensures r.None? ==> NoMatchBetween(f, s, from, |s| + 1)
    decreases |s| - from
  {
    if f(s[from..]).Some? then Some(from)
    else if from == |s| then None
    else
      var r := Find(f, s, from + 1);
      assert r.None? ==> NoMatchBetween(f, s, from, |s| + 1) by {
        if r.None? {
          forall j | from <= j < |s| + 1 && j <= |s| ensures f(s[j..]).None? {
            if j > from {
              assert from + 1 <= j < |s| + 1;
            }
          }
        }
      }
      assert r.Some? ==> NoMatchBetween(f, s, from, r.value) by {
        if r.Some? {
          forall j | from <= j < r.value && j <= |s| ensures f(s[j..]).None? {
            if j > from {
              assert from + 1 <= j < r.value;
            }
          }
        }
      }
      r
  }

  /**
   * What `appendReplacement` writes for the `k`-th match of a pass, given
   * the text of the match's group; it may fail.
   */
  type Substitution = (nat, string) -> Result<string>

  /** A substitution that never fails. */
  ghost predicate Total(sub: Substitution) {
    forall k: nat, group: string :: sub(k, group).Ok?
  }

  /**
   * `t` with every match of `p`, taken left to right without overlap,
   * replaced as `r` says, `k` matches having come before; the first
   * failing replacement aborts.
   */
  function ReplaceAll(f: Matcher, t: string, sub: Substitution, k: nat): (res: Result<string>)
    ensures Total(sub) ==> res.Ok?
    decreases |t|
  {
    if t == [] then Ok([])
    else
      match f(t)
      case Some(m) =>
        var rep := sub(k, t[m.groupStart..m.groupEnd]);
        if rep.Err? then Err(rep.error) else Prepend(rep.value, ReplaceAll(f, t[m.end..], sub, k + 1))
      case None =>
        Prepend([t[0]], ReplaceAll(f, t[1..], sub, k))
  }

  /** `Matcher.replaceAll` with a replacement that cannot fail. */
  function Rewrite(f: Matcher, t: string, sub: Substitution): string
    requires Total(sub)
  {
    ReplaceAll(f, t, sub, 0).value
  }

  /** The texts of the matches `ReplaceAll` replaces, in order (`matcher.group(0)`). */
  function MatchedTexts(f: Matcher, t: string): (found: seq<string>)
    ensures |found| <= |t|
    decreases |t|
  {
    if t == [] then []
    else
      match f(t)
      case Some(m) => [t[..m.end]] + MatchedTexts(f, t[m.end..])
      case None => MatchedTexts(f, t[1..])
  }

  lemma PrependTwice(a: string, b: string, x: Result<string>)
    ensures Prepend(a, Prepend(b, x)) == Prepend(a + b, x)
  {
    match x
    case Ok(v) => assert a + (b + v) == (a + b) + v;
    case Err(_) =>
  }

  lemma PrependNothing(x: Result<string>)
    ensures Prepend([], x) == x
  {
    match x
    case Ok(v) => assert [] + v == v;
    case Err(_) =>
  }

  lemma ConcatAssoc<T>(a: seq<T>, b: seq<T>, c: seq<T>)
    ensures (a + b) + c == a + (b + c)
  {
  }

  lemma Slices(s: string, a: nat, b: nat)
    requires a + b <= |s|
    ensures s[a..][..b] == s[a..a + b] && s[a..][b..] == s[a + b..]
    ensures s[0..] == s && s[0..a] == s[..a]
  {
  }

  /** Positions where nothing matches are copied through unchanged. */
  lemma {:induction false} SkipNoMatch(f: Matcher, s: string, pos: nat, start: nat, sub: Substitution, k: nat)
    requires pos <= start <= |s|
    requires NoMatchBetween(f, s, pos, start)
    ensures ReplaceAll(f, s[pos..], sub, k) == Prepend(s[pos..start], ReplaceAll(f, s[start..], sub, k))
    decreases start - pos
  {
    if pos == start {
      assert s[pos..start] == [];
      PrependNothing(ReplaceAll(f, s[start..], sub, k));
    } else {
      assert f(s[pos..]).None?;
      assert s[pos..][1..] == s[pos + 1..];
      SkipNoMatch(f, s, pos + 1, start, sub, k);
      assert s[pos..start] == [s[pos]] + s[pos + 1..start];
      PrependTwice([s[pos]], s[pos + 1..start], ReplaceAll(f, s[start..], sub, k));
    }
  }

  /** Positions where nothing matches contribute no match. */
  lemma {:induction false} SkipNoMatchTexts(f: Matcher, s: string, pos: nat, start: nat)
    requires pos <= start <= |s|
    requires NoMatchBetween(f, s, pos, start)
    ensures MatchedTexts(f, s[pos..]) == MatchedTexts(f, s[start..])
    decreases start - pos
  {
    if pos < start {
      assert f(s[pos..]).None?;
      assert s[pos..][1..] == s[pos + 1..];
      SkipNoMatchTexts(f, s, pos + 1, start);
    }
  }

  /** `before`, then the replacement `rep`, then `rest`; a failure of `rep` aborts. */
  function Then(before: string, rep: Result<string>, rest: Result<string>): Result<string> {
    if rep.Err? then Err(rep.error) else Prepend(before + rep.value, rest)
  }

  lemma ThenAfter(before: string, rep: Result<string>, rest: Result<string>)
    ensures Prepend(before, Then([], rep, rest)) == Then(before, rep, rest)
  {
    if rep.Ok? {
      PrependTwice(before, rep.value, rest);
      assert [] + rep.value == rep.value;
    }
  }

  /** A match at the start of `t`: its replacement, then the rest of the pass. */
  lemma MatchStep(f: Matcher, t: string, sub: Substitution, k: nat)
    requires f(t).Some?
    ensures var m := f(t).value;
            ReplaceAll(f, t, sub, k) == Then([], sub(k, t[m.groupStart..m.groupEnd]), ReplaceAll(f, t[m.end..], sub, k + 1))
  {
    var m := f(t).value;
    assert t != [];
    var rep := sub(k, t[m.groupStart..m.groupEnd]);
    if rep.Ok? {
      assert [] + rep.value == rep.value;
    }
  }

  /** A match at the start of `t` is the first text collected. */
  lemma MatchStepTexts(f: Matcher, t: string)
    requires f(t).Some?
    ensures MatchedTexts(f, t) == [t[..f(t).value.end]] + MatchedTexts(f, t[f(t).value.end..])
  {
    assert t != [];
  }

  /**
   * The next match of `t` is at `start`: the pass copies the text before
   * it, writes its replacement and carries on after it.
   */
  lemma NextMatch(f: Matcher, t: string, start: nat, m: Span, sub: Substitution, k: nat)
    requires start <= |t| && NoMatchBetween(f, t, 0, start) && f(t[start..]) == Some(m)
    ensures start + m.end <= |t|
    ensures ReplaceAll(f, t, sub, k) ==
            Then(t[..start], sub(k, t[start..][m.groupStart..m.groupEnd]), ReplaceAll(f, t[start + m.end..], sub, k + 1))
  {
    Slices(t, start, m.end);
    var rep := sub(k, t[start..][m.groupStart..m.groupEnd]);
    calc {
      ReplaceAll(f, t, sub, k);
      { SkipNoMatch(f, t, 0, start, sub, k); }
      Prepend(t[..start], ReplaceAll(f, t[start..], sub, k));
      { MatchStep(f, t[start..], sub, k); }
      Prepend(t[..start], Then([], rep, ReplaceAll(f, t[start..][m.end..], sub, k + 1)));
      { ThenAfter(t[..start], rep, ReplaceAll(f, t[start + m.end..], sub, k + 1)); }
      Then(t[..start], rep, ReplaceAll(f, t[start + m.end..], sub, k + 1));
    }
  }

  /** The next match of `t` is at `start`: it is the first text collected. */
  lemma NextMatchTexts(f: Matcher, t: string, start: nat, m: Span)
    requires start <= |t| && NoMatchBetween(f, t, 0, start) && f(t[start..]) == Some(m)
    ensures start + m.end <= |t|
    ensures MatchedTexts(f, t) == [t[start..start + m.end]] + MatchedTexts(f, t[start + m.end..])
  {
    Slices(t, start, m.end);
    calc {
      MatchedTexts(f, t);
      { SkipNoMatchTexts(f, t, 0, start); }
      MatchedTexts(f, t[start..]);
      { MatchStepTexts(f, t[start..]); }
      [t[start..][..m.end]] + MatchedTexts(f, t[start..][m.end..]);
    }
  }

  /** A text in which `f` matches nowhere is left as it is, and nothing is collected. */
  lemma NoMatchIdentity(f: Matcher, t: string, sub: Substitution, k: nat)
    requires NoMatchBetween(f, t, 0, |t| + 1)
    ensures ReplaceAll(f, t, sub, k) == Ok(t)
    ensures MatchedTexts(f, t) == []
  {
    SkipNoMatch(f, t, 0, |t|, sub, k);
    SkipNoMatchTexts(f, t, 0, |t|);
    assert t[0..] == t && t[0..|t|] == t;
    assert t[|t|..] == [];
    assert t + [] == t;
  }

  /** The first match is at `start` and its replacement is `rep`. */
  lemma StepThen(f: Matcher, t: string, start: nat, m: Span, sub: Substitution, k: nat, rep: string)
    requires start <= |t| && NoMatchBetween(f, t, 0, start) && f(t[start..]) == Some(m)
    requires sub(k, t[start..][m.groupStart..m.groupEnd]) == Ok(rep)
    ensures start + m.end <= |t|
    ensures ReplaceAll(f, t, sub, k) == Then(t[..start], Ok(rep), ReplaceAll(f, t[start + m.end..], sub, k + 1))
  {
    NextMatch(f, t, start, m, sub, k);
  }

  /** A replacement that does not depend on how many matches came before it. */
  ghost predicate Uniform(sub: Substitution) {
    forall k: nat, j: nat, group: string :: sub(k, group) == sub(j, group)
  }

  /** With such a replacement, where the count starts makes no difference. */
  lemma {:induction false} UniformFrom(f: Matcher, t: string, sub: Substitution, k: nat, j: nat)
    requires Uniform(sub)
    ensures ReplaceAll(f, t, sub, k) == ReplaceAll(f, t, sub, j)
    decreases |t|
  {
    if t != [] {
      match f(t)
      case Some(m) =>
        UniformFrom(f, t[m.end..], sub, k + 1, j + 1);
        assert sub(k, t[m.groupStart..m.groupEnd]) == sub(j, t[m.groupStart..m.groupEnd]);
      case None =>
        UniformFrom(f, t[1..], sub, k, j);
    }
  }

  /**
   * What the loop of `ReplaceEach` keeps: `rest` is the input not yet
   * consumed, `sb` the output for what was, `found` the matches in it and
   * `index` their number.
   */
  ghost predicate Rewritten(f: Matcher, s: string, sub: Substitution, rest: string, index: nat, sb: string, found: seq<string>) {
    && ReplaceAll(f, s, sub, 0) == Prepend(sb, ReplaceAll(f, rest, sub, index))
    && MatchedTexts(f, s) == found + MatchedTexts(f, rest)
  }

  /** Before the first `find`, nothing is written and the whole of `s` is ahead. */
  lemma Begin(f: Matcher, s: string, sub: Substitution)
    ensures Rewritten(f, s, sub, s, 0, "", [])
  {
    PrependNothing(ReplaceAll(f, s, sub, 0));
  }

  /** A failing replacement of the next match makes the whole pass fail with its error. */
  lemma Abort(f: Matcher, s: string, sub: Substitution, rest: string, start: nat, m: Span, index: nat,
              sb: string, found: seq<string>)
    requires Rewritten(f, s, sub, rest, index, sb, found)
    requires Find(f, rest, 0) == Some(start) && f(rest[start..]) == Some(m)
    requires sub(index, rest[start..][m.groupStart..m.groupEnd]).Err?
    ensures ReplaceAll(f, s, sub, 0) == Err(sub(index, rest[start..][m.groupStart..m.groupEnd]).error)
  {
    NextMatch(f, rest, start, m, sub, index);
  }

  /** One `appendReplacement`: the invariant moves past the next match. */
  lemma Advance(f: Matcher, s: string, sub: Substitution, rest: string, start: nat, m: Span, index: nat, rep: string,
                sb: string, found: seq<string>)
    requires Rewritten(f, s, sub, rest, index, sb, found)
    requires Find(f, rest, 0) == Some(start) && f(rest[start..]) == Some(m)
    requires sub(index, rest[start..][m.groupStart..m.groupEnd]) == Ok(rep)
    ensures start + m.end <= |rest|
    ensures Rewritten(f, s, sub, rest[start + m.end..], index + 1, sb + (rest[..start] + rep),
                      found + [rest[start..start + m.end]])
  {
    NextMatch(f, rest, start, m, sub, index);
    NextMatchTexts(f, rest, start, m);
    PrependTwice(sb, rest[..start] + rep, ReplaceAll(f, rest[start + m.end..], sub, index + 1));
    ConcatAssoc(found, [rest[start..start + m.end]], MatchedTexts(f, rest[start + m.end..]));
  }

  /** `appendTail`: with no match left, the rest is copied and the pass is complete. */
  lemma Finish(f: Matcher, s: string, sub: Substitution, rest: string, index: nat, sb: string, found: seq<string>)
    requires Rewritten(f, s, sub, rest, index, sb, found)
    requires Find(f, rest, 0).None?
    ensures ReplaceAll(f, s, sub, 0) == Ok(sb + rest)
    ensures MatchedTexts(f, s) == found
  {
    NoMatchIdentity(f, rest, sub, index);
    assert found + [] == found;
  }

  /**
   * The `find`/`appendReplacement`/`appendTail` loop: it collects every
   * match in `found`, builds the output in `sb`, and computes
   * `ReplaceAll`; the first failing replacement ends it. `rest` stands for
   * the matcher's append position: the part of `s` after it.
   */
  method ReplaceEach(f: Matcher, s: string, sub: Substitution) returns (res: Result<string>, found: seq<string>)
    ensures res == ReplaceAll(f, s, sub, 0)
    ensures res.Ok? ==> found == MatchedTexts(f, s)
  {
    var sb: string := "";
    var rest := s;
    var index: nat := 0;
    found := [];
    var next := Find(f, rest, 0);
    Begin(f, s, sub);
    while next.Some?
      invariant Rewritten(f, s, sub, rest, index, sb, found)
      invariant next == Find(f, rest, 0)
      decreases |rest|
    {
      var start := next.value;
      var m := f(rest[start..]).value;
      var rep := sub(index, rest[start..][m.groupStart..m.groupEnd]);
      if rep.Err? {
        Abort(f, s, sub, rest, start, m, index, sb, found);
        return Err(rep.error), found;
      }
      Advance(f, s, sub, rest, start, m, index, rep.value, sb, found);
      sb := sb + (rest[..start] + rep.value);
      found := found + [rest[start..start + m.end]];
      rest := rest[start + m.end..];
      index := index + 1;
      next := Find(f, rest, 0);
    }
    Finish(f, s, sub, rest, index, sb, found);
    res := Ok(sb + rest);
  }
}
