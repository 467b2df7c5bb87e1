/**
 * The per-document rewrite of `setup` in src/index.ts: find the class regions
 * of the untouched text, transform each, splice a key of the same length over
 * every changed region, resolve the keys in insertion order, and write the
 * document only when the result differs from what was read.
 *
 * A changed region too short to hold its key is abandoned: it keeps its
 * original text and its offset is reported, while the other regions are
 * rewritten as usual. The code as written does something else at that point
 * (see the module `AsWritten`).
 */
module DocumentProcessor {
  import opened Wrappers
  import opened JsString
  import opened ClassLocator
  import opened TokenTransformer
  import opened Rewriter

  // ---------------------------------------------------------------------
  // Which regions change, and which of them get a key
  // ---------------------------------------------------------------------

  /**
   * The regions whose text the transform changes, in discovery order: the
   * ones that get past line 36 and bump the counter at line 39.
   */
  function Changes(isUtility: string -> bool, prefix: string, rs: seq<Region>): (cs: seq<Change>)
    ensures |cs| <= |rs|
    ensures forall k :: 0 <= k < |cs| ==>
      cs[k].replacement == TransformRegion(isUtility, prefix, cs[k].original) != cs[k].original
    decreases |rs|
  {
    if rs == [] then []
    else
      var init := Changes(isUtility, prefix, rs[..|rs| - 1]);
      var r := rs[|rs| - 1];
      var t := TransformRegion(isUtility, prefix, r.text);
      if t == r.text then init else init + [Change(r.offset, r.text, t)]
  }

  /** Each change is one of the regions, with that region's offset and text. */
  lemma {:induction false} ChangesFromRegions(isUtility: string -> bool, prefix: string, rs: seq<Region>)
    ensures forall k :: 0 <= k < |Changes(isUtility, prefix, rs)| ==>
      exists a :: 0 <= a < |rs| && rs[a].offset == Changes(isUtility, prefix, rs)[k].offset
        && rs[a].text == Changes(isUtility, prefix, rs)[k].original
    decreases |rs|
  {
    if rs == [] {
      assert |Changes(isUtility, prefix, rs)| == 0;
    } else {
      var init := rs[..|rs| - 1];
      var cs := Changes(isUtility, prefix, rs);
      var ci := Changes(isUtility, prefix, init);
      ChangesFromRegions(isUtility, prefix, init);
      forall k | 0 <= k < |cs| ensures exists a :: 0 <= a < |rs| && rs[a].offset == cs[k].offset && rs[a].text == cs[k].original {
        var t := TransformRegion(isUtility, prefix, rs[|rs| - 1].text);
        assert cs == if t == rs[|rs| - 1].text then ci else ci + [Change(rs[|rs| - 1].offset, rs[|rs| - 1].text, t)];
        if k < |ci| {
          assert cs[k] == ci[k];
          var a :| 0 <= a < |init| && init[a].offset == ci[k].offset && init[a].text == ci[k].original;
          assert init[a] == rs[a];
          assert rs[a].offset == cs[k].offset && rs[a].text == cs[k].original;
        } else {
          var a := |rs| - 1;
          assert rs[a].offset == cs[k].offset && rs[a].text == cs[k].original;
        }
      }
    }
  }

  /** Every region whose text the transform changes is among the changes. */
  lemma {:induction false} ChangesComplete(isUtility: string -> bool, prefix: string, rs: seq<Region>, a: nat)
    requires a < |rs| && TransformRegion(isUtility, prefix, rs[a].text) != rs[a].text
    ensures exists k ::
              && 0 <= k < |Changes(isUtility, prefix, rs)|
              && Changes(isUtility, prefix, rs)[k] == Change(rs[a].offset, rs[a].text, TransformRegion(isUtility, prefix, rs[a].text))
    decreases |rs|
  {
    var init := rs[..|rs| - 1];
    var cs := Changes(isUtility, prefix, rs);
    if a < |rs| - 1 {
      assert init[a] == rs[a];
      ChangesComplete(isUtility, prefix, init, a);
      var k :| 0 <= k < |Changes(isUtility, prefix, init)| &&
        Changes(isUtility, prefix, init)[k] == Change(rs[a].offset, rs[a].text, TransformRegion(isUtility, prefix, rs[a].text));
      assert cs[k] == Changes(isUtility, prefix, init)[k];
    } else {
      assert cs[|cs| - 1] == Change(rs[a].offset, rs[a].text, TransformRegion(isUtility, prefix, rs[a].text));
    }
  }

  /** A change to the right of all the ordered others keeps them ordered. */
  lemma OrderedSnoc(c: string, cs: seq<Change>, ch: Change)
    requires Ordered(c, cs) && ch.offset + |ch.original| <= |c|
    requires forall k :: 0 <= k < |cs| ==> cs[k].offset + |cs[k].original| <= ch.offset
    ensures Ordered(c, cs + [ch])
  {
    var cs' := cs + [ch];
    assert forall k :: 0 <= k < |cs| ==> cs'[k] == cs[k];
  }

  /** The first changes of ordered ones are ordered. */
  lemma OrderedInit(c: string, cs: seq<Change>)
    requires Ordered(c, cs) && cs != []
    ensures Ordered(c, cs[..|cs| - 1])
    ensures forall k :: 0 <= k < |cs| - 1 ==> cs[k].offset + |cs[k].original| <= cs[|cs| - 1].offset
  {
    var init := cs[..|cs| - 1];
    assert forall k :: 0 <= k < |init| ==> init[k] == cs[k];
  }

  /** Changes taken from regions of `c`, found left to right, are ordered in `c`. */
  lemma {:induction false} ChangesOrdered(isUtility: string -> bool, prefix: string, c: string, rs: seq<Region>)
    requires forall k :: 0 <= k < |rs| ==> IsRegion(c, rs[k])
    requires forall j, k :: 0 <= j < k < |rs| ==> rs[j].End() < rs[k].offset
    ensures Ordered(c, Changes(isUtility, prefix, rs))
    decreases |rs|
  {
    if rs != [] {
      var init := rs[..|rs| - 1];
      var r := rs[|rs| - 1];
      assert forall a :: 0 <= a < |init| ==> init[a] == rs[a];
      ChangesOrdered(isUtility, prefix, c, init);
      var ci := Changes(isUtility, prefix, init);
      var t := TransformRegion(isUtility, prefix, r.text);
      if t != r.text {
        ChangesFromRegions(isUtility, prefix, init);
        forall k | 0 <= k < |ci| ensures ci[k].offset + |ci[k].original| <= r.offset {
          var a :| 0 <= a < |init| && init[a].offset == ci[k].offset && init[a].text == ci[k].original;
          assert init[a].End() < r.offset;
        }
        OrderedSnoc(c, ci, Change(r.offset, r.text, t));
      }
    }
  }

  /**
   * What the loop makes of the changes: the ones whose key fits, with their
   * keys in insertion order, and the offsets of the ones too short for a key.
   */
  datatype Plan = Plan(kept: seq<Change>, keys: seq<string>, tooShort: seq<nat>)

  /**
   * The `a`-th change (counted from 0) gets counter value `a + 1`; it keeps
   * its key when `rest > 1` (line 41) and is abandoned otherwise.
   */
  function PlanFor(cs: seq<Change>): (p: Plan)
    ensures KeysFit(p.kept, p.keys)
    ensures |p.kept| + |p.tooShort| == |cs|
    ensures p.tooShort == [] ==> p.kept == cs
    decreases |cs|
  {
    if cs == [] then Plan([], [], [])
    else
      var init := cs[..|cs| - 1];
      var ch := cs[|cs| - 1];
      var p := PlanFor(init);
      assert p.tooShort == [] ==> p.kept + [ch] == cs;
      match Placeholder(|cs|, |ch.original|)
      case None => Plan(p.kept, p.keys, p.tooShort + [ch.offset])
      case Some(key) => Plan(p.kept + [ch], p.keys + [key], p.tooShort)
  }

  /** Each kept change is the `a`-th change, with the key for counter `a + 1`. */
  lemma {:induction false} PlanOrigins(cs: seq<Change>)
    ensures forall k :: 0 <= k < |PlanFor(cs).kept| ==>
      exists a :: 0 <= a < |cs| && cs[a] == PlanFor(cs).kept[k] && Placeholder(a + 1, |cs[a].original|) == Some(PlanFor(cs).keys[k])
    decreases |cs|
  {
    if cs == [] {
      assert PlanFor(cs) == Plan([], [], []);
    } else {
      var init := cs[..|cs| - 1];
      var ch := cs[|cs| - 1];
      var p := PlanFor(init);
      PlanOrigins(init);
      assert forall a :: 0 <= a < |init| ==> init[a] == cs[a];
      match Placeholder(|cs|, |ch.original|)
      case None =>
        assert PlanFor(cs).kept == p.kept && PlanFor(cs).keys == p.keys;
      case Some(key) =>
        var kept, keys := p.kept + [ch], p.keys + [key];
        assert PlanFor(cs).kept == kept && PlanFor(cs).keys == keys;
        forall k | 0 <= k < |kept|
          ensures exists a :: 0 <= a < |cs| && cs[a] == kept[k] && Placeholder(a + 1, |cs[a].original|) == Some(keys[k])
        {
          if k < |p.kept| {
            var a :| 0 <= a < |init| && init[a] == p.kept[k] && Placeholder(a + 1, |init[a].original|) == Some(p.keys[k]);
            assert cs[a] == kept[k] && Placeholder(a + 1, |cs[a].original|) == Some(keys[k]);
          } else {
            var a := |cs| - 1;
            assert cs[a] == kept[k] && Placeholder(a + 1, |cs[a].original|) == Some(keys[k]);
          }
        }
    }
  }

  /** Each reported offset is that of a change whose key does not fit. */
  lemma {:induction false} TooShortOrigins(cs: seq<Change>)
    ensures forall k :: 0 <= k < |PlanFor(cs).tooShort| ==>
      exists a :: 0 <= a < |cs| && cs[a].offset == PlanFor(cs).tooShort[k] && !Placeholder(a + 1, |cs[a].original|).Some?
    decreases |cs|
  {
    if cs == [] {
      assert PlanFor(cs) == Plan([], [], []);
    } else {
      var init := cs[..|cs| - 1];
      var ch := cs[|cs| - 1];
      var p := PlanFor(init);
      TooShortOrigins(init);
      forall k | 0 <= k < |p.tooShort|
        ensures exists a :: 0 <= a < |cs| && cs[a].offset == p.tooShort[k] && !Placeholder(a + 1, |cs[a].original|).Some?
      {
        var a :| 0 <= a < |init| && init[a].offset == p.tooShort[k] && !Placeholder(a + 1, |init[a].original|).Some?;
        assert init[a] == cs[a];
      }
      if Placeholder(|cs|, |ch.original|).None? {
        var ts := p.tooShort + [ch.offset];
        assert PlanFor(cs).tooShort == ts;
        var a := |cs| - 1;
        assert cs[a].offset == ts[|ts| - 1] && !Placeholder(a + 1, |cs[a].original|).Some?;
        assert forall k :: 0 <= k < |p.tooShort| ==> ts[k] == p.tooShort[k];
      } else {
        assert PlanFor(cs).tooShort == p.tooShort;
      }
    }
  }

  /**
   * Conversely, the `a`-th change is kept, with the key for counter `a + 1`,
   * when that key fits, and its offset is reported when it does not.
   */
  lemma {:induction false} PlanCovers(cs: seq<Change>, a: nat)
    requires a < |cs|
    ensures Placeholder(a + 1, |cs[a].original|).Some? ==>
      exists k :: 0 <= k < |PlanFor(cs).kept| && PlanFor(cs).kept[k] == cs[a]
        && PlanFor(cs).keys[k] == Placeholder(a + 1, |cs[a].original|).value
    ensures Placeholder(a + 1, |cs[a].original|).None? ==> cs[a].offset in PlanFor(cs).tooShort
    decreases |cs|
  {
    var init := cs[..|cs| - 1];
    var ch := cs[|cs| - 1];
    var p := PlanFor(init);
    PlanSnoc(init, ch);
    assert init + [ch] == cs;
    if a < |cs| - 1 {
      PlanCovers(init, a);
      assert init[a] == cs[a];
      if Placeholder(a + 1, |cs[a].original|).Some? {
        var k :| 0 <= k < |p.kept| && p.kept[k] == init[a] && p.keys[k] == Placeholder(a + 1, |init[a].original|).value;
        assert PlanFor(cs).kept[k] == p.kept[k] && PlanFor(cs).keys[k] == p.keys[k];
      } else {
        assert p.tooShort <= PlanFor(cs).tooShort;
      }
    } else if Placeholder(|cs|, |ch.original|).Some? {
      var k := |p.kept|;
      assert PlanFor(cs).kept[k] == ch;
    } else {
      assert PlanFor(cs).tooShort == p.tooShort + [ch.offset];
    }
  }

  /** The keys are distinct, so the insertion-ordered list models the `Map` of line 17. */
  lemma {:induction false} PlanKeysDistinct(cs: seq<Change>)
    ensures forall j, k :: 0 <= j < k < |PlanFor(cs).keys| ==> PlanFor(cs).keys[j] != PlanFor(cs).keys[k]
    decreases |cs|
  {
    if cs != [] {
      var init := cs[..|cs| - 1];
      var ch := cs[|cs| - 1];
      var p := PlanFor(init);
      PlanKeysDistinct(init);
      var m := Placeholder(|cs|, |ch.original|);
      if m.Some? {
        PlanOrigins(init);
        forall j | 0 <= j < |p.keys| ensures p.keys[j] != m.value {
          var a :| 0 <= a < |init| && init[a] == p.kept[j] && Placeholder(a + 1, |init[a].original|) == Some(p.keys[j]);
          PlaceholdersDistinct(a + 1, |cs|, |init[a].original|, |ch.original|);
        }
        var keys := p.keys + [m.value];
        assert PlanFor(cs).keys == keys;
        forall j, k | 0 <= j < k < |keys| ensures keys[j] != keys[k] {
          if k < |p.keys| {
            assert keys[j] == p.keys[j] && keys[k] == p.keys[k];
          } else {
            assert keys[j] == p.keys[j];
          }
        }
      }
    }
  }

  /** Dropping some changes keeps the rest ordered. */
  lemma {:induction false} KeptOrdered(c: string, cs: seq<Change>)
    requires Ordered(c, cs)
    ensures Ordered(c, PlanFor(cs).kept)
    decreases |cs|
  {
    if cs != [] {
      var init := cs[..|cs| - 1];
      var ch := cs[|cs| - 1];
      OrderedInit(c, cs);
      KeptOrdered(c, init);
      var p := PlanFor(init);
      if Placeholder(|cs|, |ch.original|).Some? {
        PlanOrigins(init);
        forall k | 0 <= k < |p.kept| ensures p.kept[k].offset + |p.kept[k].original| <= ch.offset {
          var a :| 0 <= a < |init| && init[a] == p.kept[k] && Placeholder(a + 1, |init[a].original|) == Some(p.keys[k]);
          assert init[a] == cs[a];
        }
        OrderedSnoc(c, p.kept, ch);
      }
    }
  }

  /** The changes of a document, taken from the regions of its original text. */
  function DocumentChanges(isUtility: string -> bool, prefix: string, content: string): (cs: seq<Change>)
    ensures Ordered(content, cs)
  {
    var rs := Regions(content);
    ChangesOrdered(isUtility, prefix, content, rs);
    Changes(isUtility, prefix, rs)
  }

  /** The plan for a document: the rewritten changes stay ordered and their keys fit. */
  function DocumentPlan(isUtility: string -> bool, prefix: string, content: string): (p: Plan)
    ensures Ordered(content, p.kept) && KeysFit(p.kept, p.keys)
  {
    var cs := DocumentChanges(isUtility, prefix, content);
    KeptOrdered(content, cs);
    PlanFor(cs)
  }

  /** Two regions that the transform both changes give two changes, in order. */
  lemma ChangesOfTwo(isUtility: string -> bool, prefix: string, r1: Region, r2: Region, t1: string, t2: string)
    requires TransformRegion(isUtility, prefix, r1.text) == t1 != r1.text
    requires TransformRegion(isUtility, prefix, r2.text) == t2 != r2.text
    ensures Changes(isUtility, prefix, [r1, r2]) == [Change(r1.offset, r1.text, t1), Change(r2.offset, r2.text, t2)]
  {
    assert [r1, r2][..1] == [r1];
    assert [r1][..0] == [];
  }

  // ---------------------------------------------------------------------
  // The whole document
  // ---------------------------------------------------------------------

  /**
   * The result for one document: the new text, whether it is written back
   * (line 47), and the offsets of the regions too short for a key.
   */
  datatype Outcome = Outcome(text: string, write: bool, tooShort: seq<nat>)

  /** The rewrite of one document, as a function of its text. */
  function Rewrite(isUtility: string -> bool, prefix: string, content: string): (o: Outcome)
    ensures o.write <==> o.text != content
    ensures DocumentChanges(isUtility, prefix, content) == [] ==> o == Outcome(content, false, [])
  {
    var p := DocumentPlan(isUtility, prefix, content);
    var text := TwoPhase(content, p.kept, p.keys);
    Outcome(text, text != content, p.tooShort)
  }

  /** A change's new text has no `$` when the document and the prefix have none. */
  lemma ReplacementsNoDollar(isUtility: string -> bool, prefix: string, content: string)
    requires NoDollar(content) && NoDollar(prefix)
    ensures forall k :: 0 <= k < |DocumentChanges(isUtility, prefix, content)| ==>
      NoDollar(DocumentChanges(isUtility, prefix, content)[k].replacement)
  {
    var rs := Regions(content);
    var cs := DocumentChanges(isUtility, prefix, content);
    ChangesFromRegions(isUtility, prefix, rs);
    forall k | 0 <= k < |cs| ensures NoDollar(cs[k].replacement) {
      var a :| 0 <= a < |rs| && rs[a].offset == cs[k].offset && rs[a].text == cs[k].original;
      RegionNoDollar(content, rs[a]);
      assert '$' !in prefix;
      Avoids(isUtility, prefix, rs[a].text, '$');
    }
  }

  /** A region of a dollar-free text is dollar-free. */
  lemma RegionNoDollar(content: string, r: Region)
    requires IsRegion(content, r) && NoDollar(content)
    ensures '$' !in r.text
  {
    forall q | 0 <= q < |r.text| ensures r.text[q] != '$' {
      assert r.text[q] == content[r.offset + q];
    }
  }

  /**
   * The end-to-end theorem for a document: with no `$` in the text or the
   * prefix, the result is the original text with every rewritten region
   * replaced by its transform at its own offset.
   */
  lemma RewriteIsDirect(isUtility: string -> bool, prefix: string, content: string)
    requires NoDollar(content) && NoDollar(prefix)
    ensures Rewrite(isUtility, prefix, content).text == Direct(content, DocumentPlan(isUtility, prefix, content).kept)
  {
    var cs := DocumentChanges(isUtility, prefix, content);
    var p := DocumentPlan(isUtility, prefix, content);
    ReplacementsNoDollar(isUtility, prefix, content);
    PlanOrigins(cs);
    forall k | 0 <= k < |p.kept| ensures NoDollar(p.kept[k].replacement) {
      var a :| 0 <= a < |cs| && cs[a] == p.kept[k] && Placeholder(a + 1, |cs[a].original|) == Some(p.keys[k]);
    }
    TwoPhaseIsDirect(content, p.kept, p.keys);
  }

  /**
   * With no `$` in the text or the prefix, the document is written back
   * exactly when at least one region is rewritten.
   */
  lemma WrittenIffRewritten(isUtility: string -> bool, prefix: string, content: string)
    requires NoDollar(content) && NoDollar(prefix)
    ensures Rewrite(isUtility, prefix, content).write <==> DocumentPlan(isUtility, prefix, content).kept != []
  {
    var p := DocumentPlan(isUtility, prefix, content);
    var cs := DocumentChanges(isUtility, prefix, content);
    RewriteIsDirect(isUtility, prefix, content);
    PlanOrigins(cs);
    forall k | 0 <= k < |p.kept| ensures |p.kept[k].replacement| > |p.kept[k].original| {
      var a :| 0 <= a < |cs| && cs[a] == p.kept[k] && Placeholder(a + 1, |cs[a].original|) == Some(p.keys[k]);
      ChangedIsLonger(isUtility, prefix, cs[a].original);
    }
    DirectLonger(content, p.kept);
    if p.kept == [] {
      assert Replacements(p.kept) == [];
    }
  }

  /** Every change has a key that fits: the `a`-th one (from 0) has room for the key of counter `a + 1`. */
  predicate KeysAllFit(cs: seq<Change>) {
    forall a :: 0 <= a < |cs| ==> Placeholder(a + 1, |cs[a].original|).Some?
  }

  /** The plan reports nothing exactly when every change has a key that fits. */
  lemma {:induction false} PlanFitsIff(cs: seq<Change>)
    ensures PlanFor(cs).tooShort == [] <==> KeysAllFit(cs)
    decreases |cs|
  {
    if cs != [] {
      var init := cs[..|cs| - 1];
      var ch := cs[|cs| - 1];
      PlanFitsIff(init);
      assert forall a :: 0 <= a < |init| ==> init[a] == cs[a];
      if Placeholder(|cs|, |ch.original|).Some? {
        assert PlanFor(cs).tooShort == PlanFor(init).tooShort;
        assert KeysAllFit(cs) <==> KeysAllFit(init);
      } else {
        assert |PlanFor(cs).tooShort| > 0;
        assert !Placeholder((|cs| - 1) + 1, |cs[|cs| - 1].original|).Some?;
      }
    }
  }

  /**
   * A document reports no region exactly when every changed region has room
   * for its key, and then every changed region is rewritten.
   */
  lemma NoneTooShort(isUtility: string -> bool, prefix: string, content: string)
    ensures Rewrite(isUtility, prefix, content).tooShort == [] <==> KeysAllFit(DocumentChanges(isUtility, prefix, content))
    ensures KeysAllFit(DocumentChanges(isUtility, prefix, content)) ==>
      DocumentPlan(isUtility, prefix, content).kept == DocumentChanges(isUtility, prefix, content)
  {
    PlanFitsIff(DocumentChanges(isUtility, prefix, content));
  }

  // ---------------------------------------------------------------------
  // The loop of lines 14-48
  // ---------------------------------------------------------------------

  /** The plan after one more region: the change, if any, is kept with its key or reported too short. */
  lemma ChangesStep(isUtility: string -> bool, prefix: string, rs: seq<Region>, n: nat)
    requires n < |rs|
    ensures Changes(isUtility, prefix, rs[..n + 1])
      == (if TransformRegion(isUtility, prefix, rs[n].text) == rs[n].text then Changes(isUtility, prefix, rs[..n])
          else Changes(isUtility, prefix, rs[..n]) + [Change(rs[n].offset, rs[n].text, TransformRegion(isUtility, prefix, rs[n].text))])
  {
    assert rs[..n + 1][..n] == rs[..n];
  }

  /** Every change met before the `n`-th region ends left of that region. */
  lemma KeptBefore(isUtility: string -> bool, prefix: string, rs: seq<Region>, n: nat)
    requires n < |rs|
    requires forall j, k :: 0 <= j < k < |rs| ==> rs[j].End() < rs[k].offset
    ensures forall k :: 0 <= k < |PlanFor(Changes(isUtility, prefix, rs[..n])).kept| ==>
      PlanFor(Changes(isUtility, prefix, rs[..n])).kept[k].offset
        + |PlanFor(Changes(isUtility, prefix, rs[..n])).kept[k].original| < rs[n].offset
  {
    var cs := Changes(isUtility, prefix, rs[..n]);
    var p := PlanFor(cs);
    PlanOrigins(cs);
    ChangesBefore(isUtility, prefix, rs, n);
    forall k | 0 <= k < |p.kept| ensures p.kept[k].offset + |p.kept[k].original| < rs[n].offset {
      var a :| 0 <= a < |cs| && cs[a] == p.kept[k] && Placeholder(a + 1, |cs[a].original|) == Some(p.keys[k]);
    }
  }

  /** Every change met before the `n`-th region ends left of that region. */
  lemma ChangesBefore(isUtility: string -> bool, prefix: string, rs: seq<Region>, n: nat)
    requires n < |rs|
    requires forall j, k :: 0 <= j < k < |rs| ==> rs[j].End() < rs[k].offset
    ensures forall a :: 0 <= a < |Changes(isUtility, prefix, rs[..n])| ==>
      Changes(isUtility, prefix, rs[..n])[a].offset + |Changes(isUtility, prefix, rs[..n])[a].original| < rs[n].offset
  {
    var cs := Changes(isUtility, prefix, rs[..n]);
    ChangesFromRegions(isUtility, prefix, rs[..n]);
    forall a | 0 <= a < |cs| ensures cs[a].offset + |cs[a].original| < rs[n].offset {
      var b :| 0 <= b < n && rs[..n][b].offset == cs[a].offset && rs[..n][b].text == cs[a].original;
      assert rs[..n][b] == rs[b];
    }
  }

  /**
   * The loop's state is exactly what the plan for the changes `cs` makes of
   * the text: the kept changes, their keys, the reported offsets, the map
   * entries, and the buffer of the placeholder phase.
   */
  ghost predicate Placed(content: string, cs: seq<Change>, kept: seq<Change>, keys: seq<string>,
                         tooShort: seq<nat>, entries: seq<Entry>, buffer: string)
  {
    && Plan(kept, keys, tooShort) == PlanFor(cs)
    && Ordered(content, kept) && KeysFit(kept, keys)
    && entries == Entries(kept, keys)
    && buffer == PlaceholderPhase(content, kept, keys)
  }

  /**
   * The state of the first loop after the first `n` regions: the counter,
   * the kept changes with their keys, the reported offsets, the map and the
   * buffer are those of the plan for the changes met so far.
   */
  ghost predicate PlacedAfter(isUtility: string -> bool, prefix: string, content: string, n: nat,
                              i: nat, kept: seq<Change>, keys: seq<string>, tooShort: seq<nat>,
                              entries: seq<Entry>, buffer: string)
    requires n <= |Regions(content)|
  {
    && i == |Changes(isUtility, prefix, Regions(content)[..n])|
    && Placed(content, Changes(isUtility, prefix, Regions(content)[..n]), kept, keys, tooShort, entries, buffer)
  }

  /** A change whose key fits, placed to the right of the earlier ones, extends the state by that key. */
  lemma PlaceChange(content: string, cs: seq<Change>, kept: seq<Change>, keys: seq<string>,
                    tooShort: seq<nat>, entries: seq<Entry>, buffer: string, ch: Change, key: string,
                    kept': seq<Change>, keys': seq<string>, entries': seq<Entry>, buffer': string)
    requires Placed(content, cs, kept, keys, tooShort, entries, buffer)
    requires Placeholder(|cs| + 1, |ch.original|) == Some(key)
    requires ch.offset + |ch.original| <= |content|
    requires forall k :: 0 <= k < |kept| ==> kept[k].offset + |kept[k].original| <= ch.offset
    requires kept' == kept + [ch] && keys' == keys + [key] && entries' == entries + [Entry(key, ch.replacement)]
    requires buffer' == buffer[..ch.offset] + key + buffer[ch.offset + |ch.original|..]
    ensures Placed(content, cs + [ch], kept', keys', tooShort, entries', buffer')
  {
    PlanSnoc(cs, ch);
    PlaceholderPhaseAppend(content, kept, keys, ch, key);
  }

  /** A region the transform leaves alone changes nothing (line 36). */
  lemma SkipUnchanged(isUtility: string -> bool, prefix: string, content: string, n: nat,
                      i: nat, kept: seq<Change>, keys: seq<string>, tooShort: seq<nat>,
                      entries: seq<Entry>, buffer: string)
    requires n < |Regions(content)|
    requires PlacedAfter(isUtility, prefix, content, n, i, kept, keys, tooShort, entries, buffer)
    requires TransformRegion(isUtility, prefix, Regions(content)[n].text) == Regions(content)[n].text
    ensures PlacedAfter(isUtility, prefix, content, n + 1, i, kept, keys, tooShort, entries, buffer)
  {
    ChangesStep(isUtility, prefix, Regions(content), n);
  }

  /** Planning one more change: it keeps its key when one fits and is reported otherwise. */
  lemma PlanSnoc(cs: seq<Change>, ch: Change)
    ensures var p, key := PlanFor(cs), Placeholder(|cs| + 1, |ch.original|);
      PlanFor(cs + [ch])
        == if key.Some? then Plan(p.kept + [ch], p.keys + [key.value], p.tooShort)
           else Plan(p.kept, p.keys, p.tooShort + [ch.offset])
  {
    assert (cs + [ch])[..|cs|] == cs;
  }

  /**
   * A changed region whose key fits: the key is spliced in at the region's
   * offset and recorded with the new text (lines 39-43).
   */
  lemma PlaceOne(isUtility: string -> bool, prefix: string, content: string, n: nat,
                 i: nat, kept: seq<Change>, keys: seq<string>, tooShort: seq<nat>,
                 entries: seq<Entry>, buffer: string, key: string,
                 kept': seq<Change>, keys': seq<string>, entries': seq<Entry>, buffer': string)
    requires n < |Regions(content)|
    requires PlacedAfter(isUtility, prefix, content, n, i, kept, keys, tooShort, entries, buffer)
    requires TransformRegion(isUtility, prefix, Regions(content)[n].text) != Regions(content)[n].text
    requires Placeholder(i + 1, |Regions(content)[n].text|) == Some(key)
    requires var r := Regions(content)[n];
      && kept' == kept + [Change(r.offset, r.text, TransformRegion(isUtility, prefix, r.text))]
      && keys' == keys + [key]
      && entries' == entries + [Entry(key, TransformRegion(isUtility, prefix, r.text))]
      && r.End() <= |buffer|
      && buffer' == buffer[..r.offset] + key + buffer[r.End()..]
    ensures PlacedAfter(isUtility, prefix, content, n + 1, i + 1, kept', keys', tooShort, entries', buffer')
  {
    var rs := Regions(content);
    var r := rs[n];
    var ch := Change(r.offset, r.text, TransformRegion(isUtility, prefix, r.text));
    var cs := Changes(isUtility, prefix, rs[..n]);
    ChangesStep(isUtility, prefix, rs, n);
    KeptBefore(isUtility, prefix, rs, n);
    PlaceChange(content, cs, kept, keys, tooShort, entries, buffer, ch, key, kept', keys', entries', buffer');
  }

  /** A changed region too short for its key: the counter moves on, the region is reported and left alone. */
  lemma SkipTooShort(isUtility: string -> bool, prefix: string, content: string, n: nat,
                     i: nat, kept: seq<Change>, keys: seq<string>, tooShort: seq<nat>,
                     entries: seq<Entry>, buffer: string, tooShort': seq<nat>)
    requires n < |Regions(content)|
    requires PlacedAfter(isUtility, prefix, content, n, i, kept, keys, tooShort, entries, buffer)
    requires TransformRegion(isUtility, prefix, Regions(content)[n].text) != Regions(content)[n].text
    requires !Placeholder(i + 1, |Regions(content)[n].text|).Some?
    requires tooShort' == tooShort + [Regions(content)[n].offset]
    ensures PlacedAfter(isUtility, prefix, content, n + 1, i + 1, kept, keys, tooShort', entries, buffer)
  {
    var rs := Regions(content);
    var r := rs[n];
    var ch := Change(r.offset, r.text, TransformRegion(isUtility, prefix, r.text));
    var cs := Changes(isUtility, prefix, rs[..n]);
    ChangesStep(isUtility, prefix, rs, n);
    PlanSnoc(cs, ch);
  }

  /** The buffer is as long as the text, so every region fits in it. */
  lemma BufferFits(isUtility: string -> bool, prefix: string, content: string, n: nat,
                   i: nat, kept: seq<Change>, keys: seq<string>, tooShort: seq<nat>,
                   entries: seq<Entry>, buffer: string)
    requires n < |Regions(content)|
    requires PlacedAfter(isUtility, prefix, content, n, i, kept, keys, tooShort, entries, buffer)
    ensures Regions(content)[n].End() <= |buffer|
  {
  }

  /**
   * The body of the first loop (lines 20-43) for the `n`-th region: a changed
   * region bumps the counter; its key then goes into the map and over the
   * region in the buffer, or, when it does not fit, the region is reported.
   */
  method PlaceRegion(isUtility: string -> bool, prefix: string, content: string, matches: seq<Region>, n: nat,
                     i: nat, ghost kept: seq<Change>, ghost keys: seq<string>, tooShort: seq<nat>,
                     entries: seq<Entry>, newContent: string)
    returns (i': nat, ghost kept': seq<Change>, ghost keys': seq<string>, tooShort': seq<nat>,
             entries': seq<Entry>, newContent': string)
    requires matches == Regions(content) && n < |matches|
    requires PlacedAfter(isUtility, prefix, content, n, i, kept, keys, tooShort, entries, newContent)
    ensures PlacedAfter(isUtility, prefix, content, n + 1, i', kept', keys', tooShort', entries', newContent')
  {
    i', kept', keys', tooShort', entries', newContent' := i, kept, keys, tooShort, entries, newContent;
    var extracted := matches[n].text;
    var newExtracted := TransformRegion(isUtility, prefix, extracted);
    if newExtracted == extracted {
      SkipUnchanged(isUtility, prefix, content, n, i, kept, keys, tooShort, entries, newContent);
      return;
    }
    var originLength := |extracted|;
    i' := i + 1;
    var key := Placeholder(i', originLength);
    if key.Some? {
      BufferFits(isUtility, prefix, content, n, i, kept, keys, tooShort, entries, newContent);
      entries' := entries + [Entry(key.value, newExtracted)];
      newContent' := newContent[..matches[n].offset] + key.value + newContent[matches[n].offset + originLength..];
      kept' := kept + [Change(matches[n].offset, extracted, newExtracted)];
      keys' := keys + [key.value];
      PlaceOne(isUtility, prefix, content, n, i, kept, keys, tooShort, entries, newContent, key.value,
        kept', keys', entries', newContent');
    } else {
      tooShort' := tooShort + [matches[n].offset];
      SkipTooShort(isUtility, prefix, content, n, i, kept, keys, tooShort, entries, newContent, tooShort');
    }
  }

  /**
   * The first loop (lines 16-44): over the regions of the original text, bump
   * the counter for each changed region, splice its key into `newContent` at
   * the region's original offset and record the key with the new text. A
   * region too short for its key is left alone and its offset reported.
   */
  method PlaceKeys(isUtility: string -> bool, prefix: string, content: string)
    returns (newContent: string, entries: seq<Entry>, tooShort: seq<nat>)
    ensures var p := DocumentPlan(isUtility, prefix, content);
      && newContent == PlaceholderPhase(content, p.kept, p.keys)
      && entries == Entries(p.kept, p.keys)
      && tooShort == p.tooShort
  {
    var matches := Regions(content);
    newContent := content;
    entries := [];
    var i: nat := 0;
    tooShort := [];
    ghost var kept: seq<Change> := [];
    ghost var keys: seq<string> := [];
    for n := 0 to |matches|
      invariant PlacedAfter(isUtility, prefix, content, n, i, kept, keys, tooShort, entries, newContent)
    {
      i, kept, keys, tooShort, entries, newContent :=
        PlaceRegion(isUtility, prefix, content, matches, n, i, kept, keys, tooShort, entries, newContent);
    }
    assert matches[..|matches|] == matches;
  }

  /** The second loop (lines 45-46): each key, in insertion order, gives way to its text. */
  method ResolveKeys(text: string, entries: seq<Entry>) returns (newContent: string)
    ensures newContent == ResolveAll(text, entries)
  {
    newContent := text;
    for n := 0 to |entries|
      invariant ResolveAll(newContent, entries[n..]) == ResolveAll(text, entries)
    {
      assert entries[n..][1..] == entries[n + 1..];
      newContent := Replace(newContent, entries[n].key, entries[n].value);
    }
    assert entries[|entries|..] == [];
  }

  /**
   * One document, processed as lines 15-48 do: keys are placed, then
   * resolved, and `write` is the test of line 47.
   */
  method ProcessDocument(isUtility: string -> bool, prefix: string, content: string)
    returns (newContent: string, write: bool, tooShort: seq<nat>)
    ensures Outcome(newContent, write, tooShort) == Rewrite(isUtility, prefix, content)
    ensures NoDollar(content) && NoDollar(prefix) ==>
      newContent == Direct(content, DocumentPlan(isUtility, prefix, content).kept)
  {
    var staged, entries;
    staged, entries, tooShort := PlaceKeys(isUtility, prefix, content);
    newContent := ResolveKeys(staged, entries);
    write := newContent != content;
    if NoDollar(content) && NoDollar(prefix) {
      RewriteIsDirect(isUtility, prefix, content);
    }
  }
}
