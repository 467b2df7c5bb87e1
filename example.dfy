/**
 * A worked document: two elements whose class lists share the utility
 * `flex`, the second region lying after the first, so that rewriting the
 * first would displace the second if the text were edited in place.
 */
module Example {
  import opened Wrappers
  import opened JsString
  import opened ClassLocator
  import opened TokenTransformer
  import opened Rewriter
  import opened DocumentProcessor
  import opened AsWritten

  /** An oracle that recognises `flex` only. */
  const IsFlex: string -> bool := t => t == "flex"

  /** `<a class="flex foo"><b class="flex"></b></a>`. */
  const Page: string := "<a " + Opener + "flex foo" + "\"><b " + Opener + "flex" + "\"></b></a>"

  /** `<a class="tw-flex foo"><b class="tw-flex"></b></a>`. */
  const Rewritten: string := "<a " + Opener + "tw-flex foo" + "\"><b " + Opener + "tw-flex" + "\"></b></a>"

  /** The characters of `Page` that decide where the pattern matches. */
  lemma PageChars()
    ensures |Page| == 44
    ensures Page[3..10] == Opener && Page[10] != '"' && Page[23..30] == Opener && Page[30] != '"'
    ensures Page[18] == '"' && Page[34] == '"' && Page[12..19][0] != Opener[0] && Page[28..35][0] != Opener[0]
  {
  }

  /** The stretches of `Page` holding no `"`. */
  lemma PageQuoteFree()
    ensures forall q :: 0 <= q < 9 ==> Page[q] != '"'
    ensures forall q :: 19 <= q < 29 ==> Page[q] != '"'
    ensures forall q :: 35 <= q < 44 ==> Page[q] != '"'
  {
  }

  /** Where the pattern can match in `Page`: at offsets 10 and 30 only. */
  lemma PageStarts()
    ensures MatchStart(Page, 10) && MatchStart(Page, 30)
    ensures NoMatchIn(Page, 0, 10) && NoMatchIn(Page, 18, 30) && NoMatchIn(Page, 34, |Page|)
  {
    PageChars();
    PageQuoteFree();
    NothingInsideRun(Page, 0, 9);
    NothingInsideRun(Page, 19, 29);
    NothingInsideRun(Page, 35, 43);
  }

  /** The runs in `Page` end at the closing quotes, 18 and 34. */
  lemma PageRunEnds()
    ensures RunEnd(Page, 10) == 18 && RunEnd(Page, 30) == 34
  {
    assert RunEnd(Page, 18) == 18;
    assert RunEnd(Page, 17) == 18;
    assert RunEnd(Page, 16) == 18;
    assert RunEnd(Page, 15) == 18;
    assert RunEnd(Page, 14) == 18;
    assert RunEnd(Page, 13) == 18;
    assert RunEnd(Page, 12) == 18;
    assert RunEnd(Page, 11) == 18;
    assert RunEnd(Page, 34) == 34;
    assert RunEnd(Page, 33) == 34;
    assert RunEnd(Page, 32) == 34;
    assert RunEnd(Page, 31) == 34;
  }

  lemma PageTexts()
    ensures Page[10..18] == "flex foo" && Page[30..34] == "flex"
  {
  }

  /** The matches in `Page`: `flex foo` at offset 10 and `flex` at offset 30. */
  lemma PageRegions()
    ensures Regions(Page) == [Region(10, "flex foo"), Region(30, "flex")]
  {
    PageScan();
    RegionsAreScan(Page);
  }

  lemma PageScan()
    ensures ScanFrom(Page, 0) == [Region(10, "flex foo"), Region(30, "flex")]
  {
    PageStarts();
    PageRunEnds();
    PageTexts();
    TwoRegions(Page, 10, 18, 30, 34, "flex foo", "flex");
  }

  /** `flex` is prefixed wherever it stands; `foo` is left alone. */
  lemma PageTransforms()
    ensures TransformRegion(IsFlex, "tw-", "flex foo") == "tw-flex foo"
    ensures TransformRegion(IsFlex, "tw-", "flex") == "tw-flex"
  {
    FlexAlone();
    FlexFoo();
  }

  lemma FlexAlone()
    ensures TransformRegion(IsFlex, "tw-", "flex") == "tw-flex"
  {
    PrefixOne(IsFlex, "tw-", "flex");
  }

  lemma FlexFoo()
    ensures TransformRegion(IsFlex, "tw-", "flex foo") == "tw-flex foo"
  {
    FlexTokens();
    SpaceFree();
    TransformTwo(IsFlex, "tw-", "flex", "foo");
  }

  lemma FlexTokens()
    ensures TransformToken(IsFlex, "tw-", "flex") == "tw-flex" && TransformToken(IsFlex, "tw-", "foo") == "foo"
  {
  }

  lemma SpaceFree()
    ensures ' ' !in "flex" && ' ' !in "foo" && "flex" + " " + "foo" == "flex foo" && "tw-flex" + " " + "foo" == "tw-flex foo"
  {
  }

  /** Both regions of `Page` change. */
  lemma PageChanges()
    ensures DocumentChanges(IsFlex, "tw-", Page) == [Change(10, "flex foo", "tw-flex foo"), Change(30, "flex", "tw-flex")]
  {
    PageRegions();
    PageTransforms();
    ChangesOfTwo(IsFlex, "tw-", Region(10, "flex foo"), Region(30, "flex"), "tw-flex foo", "tw-flex");
  }

  /** Both regions have room for their keys, `$______1` and `$__2`. */
  lemma PageKeys()
    ensures Placeholder(1, 8) == Some("$______1") && Placeholder(2, 4) == Some("$__2")
  {
    assert Decimal(1) == [Digit(1)] && Digit(1) == '1';
    assert Decimal(2) == [Digit(2)] && Digit(2) == '2';
    assert Repeat('_', 6) == "______" && Repeat('_', 2) == "__";
    assert "$" + "______" + "1" == "$______1" && "$" + "__" + "2" == "$__2";
  }

  lemma PageKeysFit()
    ensures KeysAllFit(DocumentChanges(IsFlex, "tw-", Page))
  {
    PageChanges();
    PageKeys();
    var cs := [Change(10, "flex foo", "tw-flex foo"), Change(30, "flex", "tw-flex")];
    forall a | 0 <= a < 2 ensures Placeholder(a + 1, |cs[a].original|).Some? {
      if a == 0 {
        assert |cs[0].original| == 8;
      } else {
        assert |cs[1].original| == 4;
      }
    }
  }

  /** The direct rewrite of `Page` with both regions replaced by their new text. */
  lemma PageDirect()
    ensures Direct(Page, [Change(10, "flex foo", "tw-flex foo"), Change(30, "flex", "tw-flex")]) == Rewritten
    ensures Rewritten != Page
  {
    var cs := [Change(10, "flex foo", "tw-flex foo"), Change(30, "flex", "tw-flex")];
    var e1, e2 := Edit(10, 8, "tw-flex foo"), Edit(30, 4, "tw-flex");
    assert Replacements(cs) == [e1, e2];
    PageSplice();
    assert |Rewritten| != |Page|;
  }

  lemma PageSplice()
    ensures Laid(Page, 0, [Edit(10, 8, "tw-flex foo"), Edit(30, 4, "tw-flex")])
    ensures SpliceFrom(Page, 0, [Edit(10, 8, "tw-flex foo"), Edit(30, 4, "tw-flex")]) == Rewritten
  {
    var e1, e2 := Edit(10, 8, "tw-flex foo"), Edit(30, 4, "tw-flex");
    assert [e1, e2][1..] == [e2] && [e2][1..] == [];
    PagePieces();
    assert SpliceFrom(Page, 34, []) == Page[34..];
    assert SpliceFrom(Page, 18, [e2]) == Page[18..30] + "tw-flex" + Page[34..];
  }

  /** The pieces of `Page` around its two class lists. */
  lemma PagePieces()
    ensures |Page| == 44
    ensures Page[0..10] == "<a " + Opener && Page[18..30] == "\"><b " + Opener && Page[34..] == "\"></b></a>"
  {
  }

  /**
   * `<a class="flex foo"><b class="flex"></b></a>` with `flex` recognised and
   * prefix `tw-` becomes `<a class="tw-flex foo"><b class="tw-flex"></b></a>`:
   * both regions are rewritten at their own offsets, the document is
   * written, nothing is reported, and the code as written gives the same text.
   */
  lemma PageRewritten()
    ensures Rewrite(IsFlex, "tw-", Page) == Outcome(Rewritten, true, [])
    ensures RewriteAsWritten(IsFlex, "tw-", Page) == Rewritten
  {
    PagePlan();
    PageNoDollar();
    RewriteIsDirect(IsFlex, "tw-", Page);
    PageDirect();
    PageKeysFit();
    AsWrittenAgrees(IsFlex, "tw-", Page);
  }

  /** Every change of `Page` is kept and nothing is reported. */
  lemma PagePlan()
    ensures DocumentPlan(IsFlex, "tw-", Page).kept == [Change(10, "flex foo", "tw-flex foo"), Change(30, "flex", "tw-flex")]
    ensures Rewrite(IsFlex, "tw-", Page).tooShort == []
  {
    PageKeysFit();
    NoneTooShort(IsFlex, "tw-", Page);
    PageChanges();
  }

  /** Neither `Page` nor the prefix holds a `$`. */
  lemma PageNoDollar()
    ensures NoDollar(Page) && NoDollar("tw-")
  {
    assert '$' !in Page && '$' !in "tw-";
  }

  /** An oracle that recognises `!hidden` and `flex`, each asked about as written. */
  const HiddenOrFlex: string -> bool := t => t == "!hidden" || t == "flex"

  /**
   * `!hidden flex` with both tokens recognised becomes `!tw-hidden tw-flex`:
   * the `!` stays in front of the prefix.
   */
  lemma NegationKept()
    ensures TransformRegion(HiddenOrFlex, "tw-", "!hidden flex") == "!tw-hidden tw-flex"
  {
    HiddenFlexTokens();
    HiddenFlexPieces();
    TransformTwo(HiddenOrFlex, "tw-", "!hidden", "flex");
  }

  lemma HiddenFlexTokens()
    ensures TransformToken(HiddenOrFlex, "tw-", "!hidden") == "!tw-hidden"
    ensures TransformToken(HiddenOrFlex, "tw-", "flex") == "tw-flex"
  {
    assert Negated("!hidden") && "!hidden"[1..] == "hidden";
  }

  lemma HiddenFlexPieces()
    ensures ' ' !in "!hidden" && ' ' !in "flex"
    ensures "!hidden" + " " + "flex" == "!hidden flex" && "!tw-hidden" + " " + "tw-flex" == "!tw-hidden tw-flex"
  {
  }
}
