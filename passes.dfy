/**
 * `preserveBlocks` and `returnBlocks` as a whole (HtmlCompressor.java
 * lines 122-229): five passes each, in a fixed order, every pass over the
 * text the one before it left.
 *
 * The chains of passes are defined over any per-category pass, so that
 * what is proved about chaining does not depend on what one pass does;
 * `ExtractAll` and `RestoreAll` are those chains over `Extract` and
 * `Restore`.
 */
module BlockPasses {
  import opened Outcomes
  import opened Chars
  import opened Patterns
  import opened Rewriting
  import opened Blocks

  /** The order `preserveBlocks` takes the categories out in. */
  const ExtractOrder: seq<Category> := [Pre, Script, Style, Jsp, TextArea]

  /** The order `returnBlocks` puts them back in, as written: style before JSP. */
  const SourceRestoreOrder: seq<Category> := [TextArea, Style, Jsp, Script, Pre]

  /**
   * The reverse of the extraction order: the order in which the return
   * passes undo the preserve passes on every clean text (see Findings).
   */
  const RestoreOrder: seq<Category> := [TextArea, Jsp, Style, Script, Pre]

  /** The extraction order with the style and JSP passes swapped: `SourceRestoreOrder` reversed. */
  const SwappedExtractOrder: seq<Category> := [Pre, Script, Jsp, Style, TextArea]

  function Reversed(order: seq<Category>): (r: seq<Category>)
    ensures |r| == |order|
    ensures forall i :: 0 <= i < |order| ==> r[i] == order[|order| - 1 - i]
  {
    if order == [] then [] else Reversed(order[1..]) + [order[0]]
  }

  predicate Distinct(order: seq<Category>) {
    forall i, j :: 0 <= i < j < |order| ==> order[i] != order[j]
  }

  /** A preserve pass: the text with its blocks replaced, and the blocks. */
  type Extractor = (Category, string) -> (string, seq<string>)

  /** A return pass: the text with the placeholders replaced by the blocks they number. */
  type Restorer = (Category, string, seq<string>) -> Result<string>

  /**
   * The preserve passes of `order`, each over the text the previous one
   * left and each storing its blocks under its own category; the lists
   * of the categories not in `order` are kept.
   */
  function ExtractChain(extract: Extractor, order: seq<Category>, html: string, stores: Stores): (r: (string, Stores))
    ensures forall c :: c !in order ==> r.1.Get(c) == stores.Get(c)
    decreases |order|
  {
    if order == [] then (html, stores)
    else
      var (out, blocks) := extract(order[0], html);
      ExtractChain(extract, order[1..], out, stores.Set(order[0], blocks))
  }

  /** The return passes of `order`, each over the text the previous one gave; the first failure stops them. */
  function RestoreChain(restore: Restorer, order: seq<Category>, html: string, stores: Stores): Result<string>
    decreases |order|
  {
    if order == [] then Ok(html)
    else
      var out :- restore(order[0], html, stores.Get(order[0]));
      RestoreChain(restore, order[1..], out, stores)
  }

  /** Before each pass of `order`, `fits` holds of its category and of the text. */
  predicate Stages(fits: (Category, string) -> bool, extract: Extractor, order: seq<Category>, t: string)
    decreases |order|
  {
    || order == []
    || (fits(order[0], t) && Stages(fits, extract, order[1..], extract(order[0], t).0))
  }

  /** Each return pass undoes its preserve pass on every text that `fits`. */
  ghost predicate Undoes(extract: Extractor, restore: Restorer, fits: (Category, string) -> bool) {
    forall c, u :: fits(c, u) ==> restore(c, extract(c, u).0, extract(c, u).1) == Ok(u)
  }

  /** Running the return passes of `a` and then those of `b` is running those of `a + b`. */
  lemma {:induction false} ChainAppend(restore: Restorer, a: seq<Category>, b: seq<Category>, html: string,
                                       stores: Stores, mid: string)
    requires RestoreChain(restore, a, html, stores) == Ok(mid)
    ensures RestoreChain(restore, a + b, html, stores) == RestoreChain(restore, b, mid, stores)
    decreases |a|
  {
    if a != [] {
      var first := restore(a[0], html, stores.Get(a[0]));
      calc {
        RestoreChain(restore, a + b, html, stores);
        { assert (a + b)[0] == a[0]; }
        RestoreChain(restore, (a + b)[1..], first.value, stores);
        { assert (a + b)[1..] == a[1..] + b; }
        RestoreChain(restore, a[1..] + b, first.value, stores);
        { ChainAppend(restore, a[1..], b, first.value, stores, mid); }
        RestoreChain(restore, b, mid, stores);
      }
    } else {
      assert a + b == b;
    }
  }

  /**
   * When each return pass undoes its preserve pass on every text that
   * `fits`, the return passes in reverse undo the preserve passes of
   * `order`, provided the categories are distinct and the text fits
   * before each preserve pass.
   */
  lemma {:induction false} ChainRoundTrip(extract: Extractor, restore: Restorer, fits: (Category, string) -> bool,
                                          order: seq<Category>, t: string, stores: Stores)
    requires Undoes(extract, restore, fits)
    requires Distinct(order) && Stages(fits, extract, order, t)
    ensures RestoreChain(restore, Reversed(order), ExtractChain(extract, order, t, stores).0,
                         ExtractChain(extract, order, t, stores).1) == Ok(t)
    decreases |order|
  {
    if order != [] {
      var c := order[0];
      var (h, b) := extract(c, t);
      var s1 := stores.Set(c, b);
      var (hh, ss) := ExtractChain(extract, order[1..], h, s1);
      assert c !in order[1..];
      assert ss.Get(c) == b;
      ChainRoundTrip(extract, restore, fits, order[1..], h, s1);
      ChainAppend(restore, Reversed(order[1..]), [c], hh, ss, h);
    }
  }

  /** A chain of return passes stops at a first pass that fails, with its error. */
  lemma ChainFailsFirst(restore: Restorer, order: seq<Category>, html: string, stores: Stores, e: Error)
    requires order != [] && restore(order[0], html, stores.Get(order[0])) == Err(e)
    ensures RestoreChain(restore, order, html, stores) == Err(e)
  {
  }

  /** Both return orders start with the `<textarea>` pass, so its failure is theirs. */
  lemma TextAreaFailsFirst(restore: Restorer, html: string, stores: Stores, e: Error)
    requires restore(TextArea, html, stores.textArea) == Err(e)
    ensures RestoreChain(restore, RestoreOrder, html, stores) == Err(e)
    ensures RestoreChain(restore, SourceRestoreOrder, html, stores) == Err(e)
  {
    ChainFailsFirst(restore, RestoreOrder, html, stores, e);
    ChainFailsFirst(restore, SourceRestoreOrder, html, stores, e);
  }

  function ExtractAll(order: seq<Category>, html: string, stores: Stores): (string, Stores) {
    ExtractChain(Extract, order, html, stores)
  }

  function RestoreAll(order: seq<Category>, html: string, stores: Stores): Result<string> {
    RestoreChain(Restore, order, html, stores)
  }

  /** A text a pass of category `c` can take apart and put back. */
  predicate Clean(c: Category, t: string) {
    FreeOf(t, TokenPrefix(c)) && |t| <= MaxInt
  }

  /** A text that lacks a letter of a placeholder head is clean for that category. */
  lemma CleanWithout(c: Category, t: string, i: nat)
    requires i < |TokenPrefix(c)| && TokenPrefix(c)[i] !in t && OtherCase(TokenPrefix(c)[i]) !in t
    requires |t| <= MaxInt
    ensures Clean(c, t)
  {
    FreeOfMissing(t, TokenPrefix(c), i);
  }

  /**
   * Before each pass of `order`, the text holds no placeholder head of
   * that pass's category (ignoring case) and fits a Java string.
   */
  predicate StagesFree(order: seq<Category>, t: string) {
    Stages(Clean, Extract, order, t)
  }

  /** `preserveBlocks`: the five passes in the order of the source, into five new lists. */
  method PreserveBlocks(html: string) returns (out: string, stores: Stores)
    ensures (out, stores) == ExtractAll(ExtractOrder, html, NoBlocks)
  {
    var pre, script, style, jsp, textArea;
    out, pre := PreserveCategory(Pre, html);
    out, script := PreserveCategory(Script, out);
    out, style := PreserveCategory(Style, out);
    out, jsp := PreserveCategory(Jsp, out);
    out, textArea := PreserveCategory(TextArea, out);
    stores := Stores(pre, script, style, jsp, textArea);
    ChainOfFive(Extract, html);
  }

  /** The preserve chain of the five passes, spelled out one pass after another from empty lists. */
  lemma ChainOfFive(extract: Extractor, html: string)
    ensures var (h1, b1) := extract(Pre, html);
            var (h2, b2) := extract(Script, h1);
            var (h3, b3) := extract(Style, h2);
            var (h4, b4) := extract(Jsp, h3);
            var (h5, b5) := extract(TextArea, h4);
            ExtractChain(extract, ExtractOrder, html, NoBlocks) == (h5, Stores(b1, b2, b3, b4, b5))
  {
    var (h1, b1) := extract(Pre, html);
    var (h2, b2) := extract(Script, h1);
    var (h3, b3) := extract(Style, h2);
    var (h4, b4) := extract(Jsp, h3);
    var (h5, b5) := extract(TextArea, h4);
    calc {
      ExtractChain(extract, ExtractOrder, html, NoBlocks);
      ExtractChain(extract, ExtractOrder[1..], h1, NoBlocks.Set(Pre, b1));
      ExtractChain(extract, ExtractOrder[2..], h2, NoBlocks.Set(Pre, b1).Set(Script, b2));
      ExtractChain(extract, ExtractOrder[3..], h3, NoBlocks.Set(Pre, b1).Set(Script, b2).Set(Style, b3));
      ExtractChain(extract, ExtractOrder[4..], h4, NoBlocks.Set(Pre, b1).Set(Script, b2).Set(Style, b3).Set(Jsp, b4));
      ExtractChain(extract, [], h5, Stores(b1, b2, b3, b4, b5));
    }
  }

  /**
   * `returnBlocks`: the `<textarea>`, style, JSP, script and `<pre>`
   * passes, in that order, the first failure ending the chain.
   */
  method ReturnBlocks(html: string, stores: Stores) returns (r: Result<string>)
    ensures r == RestoreAll(SourceRestoreOrder, html, stores)
  {
    r := RestoreCategory(TextArea, html, stores.textArea);
    if r.Ok? {
      r := RestoreCategory(Style, r.value, stores.style);
      if r.Ok? {
        r := RestoreCategory(Jsp, r.value, stores.jsp);
        if r.Ok? {
          r := RestoreCategory(Script, r.value, stores.script);
          if r.Ok? {
            r := RestoreCategory(Pre, r.value, stores.pre);
          }
        }
      }
    }
    ReturnChainInOrder(Restore, html, stores);
  }

  /** A return chain of five passes, spelled out one pass after another, stopping at the first failure. */
  lemma ReturnChainOfFive(restore: Restorer, order: seq<Category>, html: string, stores: Stores)
    requires |order| == 5
    ensures RestoreChain(restore, order, html, stores)
            == var r1 := restore(order[0], html, stores.Get(order[0]));
               if r1.Err? then r1 else
               var r2 := restore(order[1], r1.value, stores.Get(order[1]));
               if r2.Err? then r2 else
               var r3 := restore(order[2], r2.value, stores.Get(order[2]));
               if r3.Err? then r3 else
               var r4 := restore(order[3], r3.value, stores.Get(order[3]));
               if r4.Err? then r4 else
               restore(order[4], r4.value, stores.Get(order[4]))
  {
    ChainStep(restore, order, html, stores);
    var r1 := restore(order[0], html, stores.Get(order[0]));
    if r1.Ok? {
      ChainStep(restore, order[1..], r1.value, stores);
      assert order[1..][0] == order[1] && order[1..][1..] == order[2..];
      var r2 := restore(order[1], r1.value, stores.Get(order[1]));
      if r2.Ok? {
        ChainStep(restore, order[2..], r2.value, stores);
        assert order[2..][0] == order[2] && order[2..][1..] == order[3..];
        var r3 := restore(order[2], r2.value, stores.Get(order[2]));
        if r3.Ok? {
          ChainStep(restore, order[3..], r3.value, stores);
          assert order[3..][0] == order[3] && order[3..][1..] == order[4..];
          var r4 := restore(order[3], r3.value, stores.Get(order[3]));
          if r4.Ok? {
            ChainStep(restore, order[4..], r4.value, stores);
            assert order[4..][0] == order[4] && order[4..][1..] == [];
          }
        }
      }
    }
  }

  /** `ReturnChainOfFive` in the order `ReturnBlocks` runs the passes. */
  lemma ReturnChainInOrder(restore: Restorer, html: string, stores: Stores)
    ensures RestoreChain(restore, SourceRestoreOrder, html, stores)
            == var r1 := restore(TextArea, html, stores.textArea);
               if r1.Err? then r1 else
               var r2 := restore(Style, r1.value, stores.style);
               if r2.Err? then r2 else
               var r3 := restore(Jsp, r2.value, stores.jsp);
               if r3.Err? then r3 else
               var r4 := restore(Script, r3.value, stores.script);
               if r4.Err? then r4 else
               restore(Pre, r4.value, stores.pre)
  {
    ReturnChainOfFive(restore, SourceRestoreOrder, html, stores);
  }

  /** One pass of a return chain: its first pass, then the rest unless the first failed. */
  lemma ChainStep(restore: Restorer, order: seq<Category>, html: string, stores: Stores)
    requires order != []
    ensures RestoreChain(restore, order, html, stores)
            == var r := restore(order[0], html, stores.Get(order[0]));
               if r.Err? then r else RestoreChain(restore, order[1..], r.value, stores)
  {
  }

  /** Five stages, spelled out one preserve pass after another. */
  lemma StagesOfFive(fits: (Category, string) -> bool, extract: Extractor, order: seq<Category>, t: string)
    requires |order| == 5
    requires fits(order[0], t)
    requires fits(order[1], extract(order[0], t).0)
    requires fits(order[2], extract(order[1], extract(order[0], t).0).0)
    requires fits(order[3], extract(order[2], extract(order[1], extract(order[0], t).0).0).0)
    requires fits(order[4], extract(order[3], extract(order[2], extract(order[1], extract(order[0], t).0).0).0).0)
    ensures Stages(fits, extract, order, t)
  {
    var t1 := extract(order[0], t).0;
    var t2 := extract(order[1], t1).0;
    var t3 := extract(order[2], t2).0;
    var t4 := extract(order[3], t3).0;
    assert order[1..][0] == order[1] && order[1..][1..] == order[2..];
    assert order[2..][0] == order[2] && order[2..][1..] == order[3..];
    assert order[3..][0] == order[3] && order[3..][1..] == order[4..];
    assert order[4..][0] == order[4] && order[4..][1..] == [];
    assert Stages(fits, extract, order[4..], t4);
    assert Stages(fits, extract, order[3..], t3);
    assert Stages(fits, extract, order[2..], t2);
    assert Stages(fits, extract, order[1..], t1);
  }

  /**
   * Return passes in the reverse of the extraction order undo
   * `preserveBlocks` on every text that, before each pass, holds no
   * placeholder head of that pass.
   */
  lemma PreserveThenReturn(t: string)
    requires StagesFree(ExtractOrder, t)
    ensures RestoreAll(RestoreOrder, ExtractAll(ExtractOrder, t, NoBlocks).0, ExtractAll(ExtractOrder, t, NoBlocks).1)
            == Ok(t)
  {
    RestoreUndoesExtract();
    ChainReturnsBlocks(Extract, Restore, Clean, t, NoBlocks);
  }

  /** `RestoreOrder` runs the passes of `PreserveBlocks` backwards. */
  lemma ReversedExtractOrder()
    ensures Reversed(ExtractOrder) == RestoreOrder
  {
    var r := Reversed(ExtractOrder);
    assert r[0] == TextArea && r[1] == Jsp && r[2] == Style && r[3] == Script && r[4] == Pre;
  }

  /** `ChainRoundTrip` for the five passes, in the order `PreserveBlocks` runs them and its reverse. */
  lemma ChainReturnsBlocks(extract: Extractor, restore: Restorer, fits: (Category, string) -> bool,
                           t: string, stores: Stores)
    requires Undoes(extract, restore, fits) && Stages(fits, extract, ExtractOrder, t)
    ensures RestoreChain(restore, RestoreOrder, ExtractChain(extract, ExtractOrder, t, stores).0,
                         ExtractChain(extract, ExtractOrder, t, stores).1) == Ok(t)
  {
    ReversedExtractOrder();
    ChainRoundTrip(extract, restore, fits, ExtractOrder, t, stores);
  }

  /** `returnBlocks` as written runs the passes of `SwappedExtractOrder` backwards. */
  lemma ReversedSwappedOrder()
    ensures Reversed(SwappedExtractOrder) == SourceRestoreOrder
    ensures Distinct(SwappedExtractOrder)
  {
    var r := Reversed(SwappedExtractOrder);
    assert r[0] == TextArea && r[1] == Style && r[2] == Jsp && r[3] == Script && r[4] == Pre;
  }

  /**
   * `returnBlocks` as written undoes `preserveBlocks` on every text on
   * which taking the JSP blocks out before the style blocks gives the same
   * text and lists as the order `preserveBlocks` uses, and which is clean
   * before each pass of that swapped order.
   */
  lemma SourceOrderRoundTrip(t: string)
    requires StagesFree(SwappedExtractOrder, t)
    requires ExtractAll(ExtractOrder, t, NoBlocks) == ExtractAll(SwappedExtractOrder, t, NoBlocks)
    ensures RestoreAll(SourceRestoreOrder, ExtractAll(ExtractOrder, t, NoBlocks).0,
                       ExtractAll(ExtractOrder, t, NoBlocks).1) == Ok(t)
  {
    RestoreUndoesExtract();
    ReversedSwappedOrder();
    ChainRoundTrip(Extract, Restore, Clean, SwappedExtractOrder, t, NoBlocks);
  }

  /** Every return pass undoes its preserve pass on a clean text. */
  lemma RestoreUndoesExtract()
    ensures Undoes(Extract, Restore, Clean)
  {
    forall c, u | Clean(c, u) ensures Restore(c, Extract(c, u).0, Extract(c, u).1) == Ok(u) {
      RoundTrip(c, u);
    }
  }

  /**
   * A `<textarea>` placeholder whose number names no stored `<textarea>`
   * block makes `returnBlocks` throw before any other pass runs, in the
   * order as written as well as in the reverse order.
   */
  lemma ReturnMissing(before: string, k: nat, after: string, stores: Stores)
    requires FreeOf(before, TokenPrefix(TextArea)) && k >= |stores.textArea|
    ensures RestoreAll(RestoreOrder, before + (Token(TextArea, k) + after), stores)
            == Err(MissingError(k, |stores.textArea|))
    ensures RestoreAll(SourceRestoreOrder, before + (Token(TextArea, k) + after), stores)
            == Err(MissingError(k, |stores.textArea|))
  {
    RestoreMissing(TextArea, before, k, after, stores.textArea);
    TextAreaFailsFirst(Restore, before + (Token(TextArea, k) + after), stores, MissingError(k, |stores.textArea|));
  }

  /** The preserve passes leave a text with no `<` as it is, with every list empty. */
  lemma UntouchedWithoutTags(t: string)
    requires '<' !in t
    ensures ExtractAll(ExtractOrder, t, NoBlocks) == (t, NoBlocks)
  {
    forall c ensures Extract(c, t) == (t, []) {
      assert Opener(c)[0] == '<';
      SkipsWithout(c, t, 0);
    }
    ChainOfFive(Extract, t);
  }

  lemma NoTagInToken(c: Category, k: nat)
    ensures '<' !in Token(c, k)
  {
    var digits := DecimalString(k);
    assert Token(c, k) == TokenPrefix(c) + digits + TokenSuffix;
    assert '<' !in TokenPrefix(c) && '<' !in TokenSuffix;
    assert '<' !in digits by {
      forall i | 0 <= i < |digits| ensures digits[i] != '<' {
        assert IsDigit(digits[i]);
      }
    }
  }

  /**
   * A placeholder written in the input itself passes through
   * `preserveBlocks` untouched, and `returnBlocks` then throws on it, in
   * either order, since no `<textarea>` block was stored.
   */
  lemma PlaceholderInInput(k: nat)
    ensures ExtractAll(ExtractOrder, Token(TextArea, k), NoBlocks) == (Token(TextArea, k), NoBlocks)
    ensures RestoreAll(RestoreOrder, Token(TextArea, k), NoBlocks) == Err(MissingError(k, 0))
    ensures RestoreAll(SourceRestoreOrder, Token(TextArea, k), NoBlocks) == Err(MissingError(k, 0))
  {
    NoTagInToken(TextArea, k);
    UntouchedWithoutTags(Token(TextArea, k));
    PlaceholderThrows(Token(TextArea, k), k);
  }

  lemma PlaceholderThrows(t: string, k: nat)
    requires t == Token(TextArea, k)
    ensures RestoreAll(RestoreOrder, t, NoBlocks) == Err(MissingError(k, 0))
    ensures RestoreAll(SourceRestoreOrder, t, NoBlocks) == Err(MissingError(k, 0))
  {
    assert [] + (Token(TextArea, k) + []) == t;
    ReturnMissing([], k, [], NoBlocks);
  }
}
