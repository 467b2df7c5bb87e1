/**
 * The first loop of src/index.ts as written at line 41: when a changed
 * region is too short for its key, the key is `new Error('不支持')`. Lengths
 * are counted in characters, which are JavaScript's UTF-16 code units for
 * text in the Basic Multilingual Plane.
 * Nothing is thrown; the error object is spliced into the buffer as its
 * string form (which is longer than such a region), stored in the map, and
 * later used as a `replace` pattern, which again means its string form.
 * Once the buffer has changed length, the offsets of later regions, taken
 * from the original text, no longer point at those regions.
 *
 * This module shows that the as-written loop agrees with `Rewrite` whenever
 * every key fits, and gives a document on which the two part ways.
 */
module AsWritten {
  import opened Wrappers
  import opened JsString
  import opened ClassLocator
  import opened TokenTransformer
  import opened Rewriter
  import opened DocumentProcessor

  /** `String(new Error('不支持'))`. */
  const Unsupported: string := "Error: \U{4E0D}\U{652F}\U{6301}"

  /** The key of line 41 as written: the placeholder when it fits, the error's text otherwise. */
  function KeyAsWritten(i: nat, length: nat): (key: string)
    ensures Placeholder(i, length).None? ==> key == Unsupported && |key| == 10
    ensures Placeholder(i, length).Some? ==> |key| == length && key[0] == '$'
  {
    match Placeholder(i, length)
    case Some(k) => k
    case None => Unsupported
  }

  /** The map and the buffer of the first loop. */
  datatype Staging = Staging(entries: seq<Entry>, buffer: string)

  /**
   * Lines 20-43 as written, for one match `r` with counter `i`: a changed
   * region bumps the counter and has its key, fitting or not, sliced into the
   * buffer at the region's original offset.
   */
  function PlaceAsWritten(isUtility: string -> bool, prefix: string, r: Region, i: nat, st: Staging): (nat, Staging) {
    var newExtracted := TransformRegion(isUtility, prefix, r.text);
    if newExtracted == r.text then (i, st)
    else
      var key := KeyAsWritten(i + 1, |r.text|);
      var b := st.buffer;
      (i + 1, Staging(st.entries + [Entry(key, newExtracted)], Slice(b, 0, r.offset) + key + Slice(b, r.offset + |r.text|, |b|)))
  }

  /** Lines 19-44 as written, from the `n`-th match on. */
  function PlaceFrom(isUtility: string -> bool, prefix: string, rs: seq<Region>, n: nat, i: nat, st: Staging): Staging
    requires n <= |rs|
    decreases |rs| - n
  {
    if n == |rs| then st
    else
      var (i', st') := PlaceAsWritten(isUtility, prefix, rs[n], i, st);
      PlaceFrom(isUtility, prefix, rs, n + 1, i', st')
  }

  /** Lines 15-48 as written: place every key, then resolve them in insertion order. */
  function RewriteAsWritten(isUtility: string -> bool, prefix: string, content: string): string {
    var st := PlaceFrom(isUtility, prefix, Regions(content), 0, 0, Staging([], content));
    ResolveAll(st.buffer, st.entries)
  }

  /** The changes met among the first `n` regions are the first changes of all of them. */
  lemma {:induction false} ChangesPrefix(isUtility: string -> bool, prefix: string, rs: seq<Region>, n: nat)
    requires n <= |rs|
    ensures |Changes(isUtility, prefix, rs[..n])| <= |Changes(isUtility, prefix, rs)|
    ensures Changes(isUtility, prefix, rs)[..|Changes(isUtility, prefix, rs[..n])|] == Changes(isUtility, prefix, rs[..n])
    decreases |rs| - n
  {
    if n == |rs| {
      assert rs[..n] == rs;
    } else {
      ChangesPrefix(isUtility, prefix, rs, n + 1);
      ChangesStep(isUtility, prefix, rs, n);
      var all := Changes(isUtility, prefix, rs);
      var a := Changes(isUtility, prefix, rs[..n]);
      var b := Changes(isUtility, prefix, rs[..n + 1]);
      assert b[..|a|] == a;
      assert all[..|b|][..|a|] == all[..|a|];
    }
  }

  /**
   * From a state of the loop in which nothing was reported, with every key
   * of the document fitting, the as-written loop ends with the map and the
   * buffer of the plan.
   */
  lemma {:induction false} AsWrittenFrom(isUtility: string -> bool, prefix: string, content: string, n: nat,
                                         i: nat, kept: seq<Change>, keys: seq<string>,
                                         entries: seq<Entry>, buffer: string)
    requires n <= |Regions(content)|
    requires KeysAllFit(DocumentChanges(isUtility, prefix, content))
    requires PlacedAfter(isUtility, prefix, content, n, i, kept, keys, [], entries, buffer)
    ensures var p := DocumentPlan(isUtility, prefix, content);
      PlaceFrom(isUtility, prefix, Regions(content), n, i, Staging(entries, buffer))
        == Staging(Entries(p.kept, p.keys), PlaceholderPhase(content, p.kept, p.keys))
    decreases |Regions(content)| - n
  {
    var rs := Regions(content);
    if n == |rs| {
      assert rs[..n] == rs;
    } else {
      var r := rs[n];
      var t := TransformRegion(isUtility, prefix, r.text);
      if t == r.text {
        SkipUnchanged(isUtility, prefix, content, n, i, kept, keys, [], entries, buffer);
        PlaceFromUnchanged(isUtility, prefix, rs, n, i, Staging(entries, buffer));
        AsWrittenFrom(isUtility, prefix, content, n + 1, i, kept, keys, entries, buffer);
      } else {
        KeyFits(isUtility, prefix, rs, n, i);
        var key := Placeholder(i + 1, |r.text|).value;
        BufferFits(isUtility, prefix, content, n, i, kept, keys, [], entries, buffer);
        var kept', keys', entries' := kept + [Change(r.offset, r.text, t)], keys + [key], entries + [Entry(key, t)];
        var buffer' := buffer[..r.offset] + key + buffer[r.End()..];
        PlaceOne(isUtility, prefix, content, n, i, kept, keys, [], entries, buffer, key, kept', keys', entries', buffer');
        PlaceFromChanged(isUtility, prefix, rs, n, i, Staging(entries, buffer), key, Staging(entries', buffer'));
        AsWrittenFrom(isUtility, prefix, content, n + 1, i + 1, kept', keys', entries', buffer');
      }
    }
  }

  /** A region the transform leaves alone is skipped (line 36). */
  lemma PlaceFromUnchanged(isUtility: string -> bool, prefix: string, rs: seq<Region>, n: nat, i: nat, st: Staging)
    requires n < |rs| && TransformRegion(isUtility, prefix, rs[n].text) == rs[n].text
    ensures PlaceFrom(isUtility, prefix, rs, n, i, st) == PlaceFrom(isUtility, prefix, rs, n + 1, i, st)
  {
  }

  /** A changed region whose key fits: the key is recorded and goes over the region in the buffer. */
  lemma PlaceFromChanged(isUtility: string -> bool, prefix: string, rs: seq<Region>, n: nat, i: nat, st: Staging,
                         key: string, st': Staging)
    requires n < |rs| && TransformRegion(isUtility, prefix, rs[n].text) != rs[n].text
    requires Placeholder(i + 1, |rs[n].text|) == Some(key) && rs[n].End() <= |st.buffer|
    requires st' == Staging(st.entries + [Entry(key, TransformRegion(isUtility, prefix, rs[n].text))],
                            st.buffer[..rs[n].offset] + key + st.buffer[rs[n].End()..])
    ensures PlaceFrom(isUtility, prefix, rs, n, i, st) == PlaceFrom(isUtility, prefix, rs, n + 1, i + 1, st')
  {
    PlaceFitting(isUtility, prefix, rs[n], i, st, key, st');
  }

  /** One changed match whose key fits, as written: the same step as the corrected loop takes. */
  lemma PlaceFitting(isUtility: string -> bool, prefix: string, r: Region, i: nat, st: Staging, key: string, st': Staging)
    requires TransformRegion(isUtility, prefix, r.text) != r.text
    requires Placeholder(i + 1, |r.text|) == Some(key) && r.End() <= |st.buffer|
    requires st' == Staging(st.entries + [Entry(key, TransformRegion(isUtility, prefix, r.text))],
                            st.buffer[..r.offset] + key + st.buffer[r.End()..])
    ensures PlaceAsWritten(isUtility, prefix, r, i, st) == (i + 1, st')
  {
    var b := st.buffer;
    assert KeyAsWritten(i + 1, |r.text|) == key;
    assert Slice(b, 0, r.offset) == b[..r.offset];
    assert Slice(b, r.End(), |b|) == b[r.End()..];
  }

  /** When every change has a key that fits, so does the change the `n`-th region makes, if any. */
  lemma KeyFits(isUtility: string -> bool, prefix: string, rs: seq<Region>, n: nat, i: nat)
    requires n < |rs|
    requires KeysAllFit(Changes(isUtility, prefix, rs))
    requires i == |Changes(isUtility, prefix, rs[..n])|
    requires TransformRegion(isUtility, prefix, rs[n].text) != rs[n].text
    ensures Placeholder(i + 1, |rs[n].text|).Some?
  {
    ChangesStep(isUtility, prefix, rs, n);
    ChangesPrefix(isUtility, prefix, rs, n + 1);
    var b := Changes(isUtility, prefix, rs[..n + 1]);
    assert b[i].original == rs[n].text;
    assert Changes(isUtility, prefix, rs)[i] == b[i];
  }

  /**
   * The code as written and the model agree on every document in which each
   * changed region has room for its key: then nothing is reported and the
   * text is the same.
   */
  lemma AsWrittenAgrees(isUtility: string -> bool, prefix: string, content: string)
    requires KeysAllFit(DocumentChanges(isUtility, prefix, content))
    ensures Rewrite(isUtility, prefix, content).tooShort == []
    ensures RewriteAsWritten(isUtility, prefix, content) == Rewrite(isUtility, prefix, content).text
  {
    NoneTooShort(isUtility, prefix, content);
    var rs := Regions(content);
    assert rs[..0] == [];
    assert PlaceholderPhase(content, [], []) == content;
    AsWrittenFrom(isUtility, prefix, content, 0, 0, [], [], [], content);
  }

  // ---------------------------------------------------------------------
  // A document on which the code as written goes wrong
  // ---------------------------------------------------------------------

  /** An oracle that recognises every token. */
  const Everything: string -> bool := t => true

  /** Two class lists; the first, `x`, is too short for the key of counter 1. */
  const Sample: string := "class=\"x\" class=\"flex\""

  /** Where the pattern can match in `Sample`: at offsets 7 and 17 only. */
  lemma SampleStarts()
    ensures MatchStart(Sample, 7) && MatchStart(Sample, 17)
    ensures NoMatchIn(Sample, 0, 7) && NoMatchIn(Sample, 8, 17) && NoMatchIn(Sample, 21, 22)
  {
    var c := Sample;
    assert c[0..7] == Opener && c[10..17] == Opener;
    assert c[2..9][0] == 'a';
    assert c[9..16] == " class=";
    forall q | 9 <= q < 16 ensures c[q] != '"' {
      assert c[q] == c[9..16][q - 9];
    }
    NothingInsideRun(c, 9, 16);
  }

  /** The runs in `Sample` end at the closing quotes, 8 and 21. */
  lemma SampleRunEnds()
    ensures RunEnd(Sample, 7) == 8 && RunEnd(Sample, 17) == 21
  {
    assert RunEnd(Sample, 8) == 8;
    assert RunEnd(Sample, 21) == 21;
    assert RunEnd(Sample, 20) == 21;
    assert RunEnd(Sample, 19) == 21;
    assert RunEnd(Sample, 18) == 21;
  }

  lemma SampleTexts()
    ensures Sample[7..8] == "x" && Sample[17..21] == "flex"
  {
  }

  /** The scan of `Sample` finds `x` at offset 7 and `flex` at offset 17. */
  lemma SampleScan()
    ensures ScanFrom(Sample, 0) == [Region(7, "x"), Region(17, "flex")]
  {
    SampleStarts();
    SampleRunEnds();
    SampleTexts();
    TwoRegions(Sample, 7, 8, 17, 21, "x", "flex");
  }

  /** The matches in `Sample`: `x` at offset 7 and `flex` at offset 17. */
  lemma SampleRegions()
    ensures Regions(Sample) == [Region(7, "x"), Region(17, "flex")]
  {
    SampleScan();
    RegionsAreScan(Sample);
  }

  /** The changes of `Sample`: both regions are rewritten by the transform. */
  lemma SampleChanges()
    ensures DocumentChanges(Everything, "tw-", Sample) == [Change(7, "x", "tw-x"), Change(17, "flex", "tw-flex")]
  {
    SampleRegions();
    PrefixOne(Everything, "tw-", "x");
    PrefixOne(Everything, "tw-", "flex");
    ChangesOfTwo(Everything, "tw-", Region(7, "x"), Region(17, "flex"), "tw-x", "tw-flex");
  }

  /** The keys of the two changes: none fits a one-character region for counter 1; `$__2` for counter 2. */
  lemma SampleKeys()
    ensures Placeholder(1, 1).None? && Placeholder(2, 4) == Some("$__2")
  {
    assert Decimal(1) == [Digit(1)] && Digit(1) == '1';
    assert Decimal(2) == [Digit(2)] && Digit(2) == '2';
    assert Repeat('_', 2) == "__";
    assert "$" + "__" + "2" == "$__2";
  }

  /** The plan for `Sample`: `x` is reported too short, `flex` is kept with key `$__2`. */
  lemma SamplePlan()
    ensures DocumentPlan(Everything, "tw-", Sample) == Plan([Change(17, "flex", "tw-flex")], ["$__2"], [7])
  {
    SampleChanges();
    SampleKeys();
    PlanOfTwo(Change(7, "x", "tw-x"), Change(17, "flex", "tw-flex"), "$__2");
  }

  /** Two changes, the first too short for its key and the second not. */
  lemma PlanOfTwo(c1: Change, c2: Change, key: string)
    requires Placeholder(1, |c1.original|).None? && Placeholder(2, |c2.original|) == Some(key)
    ensures PlanFor([c1, c2]) == Plan([c2], [key], [c1.offset])
  {
    assert [c1, c2][..1] == [c1];
    assert [c1][..0] == [];
    assert PlanFor([c1]) == Plan([], [], [c1.offset]);
  }

  /** Neither `Sample` nor the prefix holds a `$`. */
  lemma SampleNoDollar()
    ensures NoDollar(Sample) && NoDollar("tw-")
  {
    assert '$' !in Sample && '$' !in "tw-";
  }

  /** The corrected rewrite of `Sample`: `flex` gets the prefix, `x` is left alone and reported. */
  lemma SampleRewritten()
    ensures Rewrite(Everything, "tw-", Sample) == Outcome("class=\"x\" class=\"tw-flex\"", true, [7])
  {
    SamplePlan();
    SampleNoDollar();
    RewriteIsDirect(Everything, "tw-", Sample);
    SampleDirect();
  }

  /** The direct rewrite of `Sample` with `flex` alone rewritten. */
  lemma SampleDirect()
    ensures Direct(Sample, [Change(17, "flex", "tw-flex")]) == "class=\"x\" class=\"tw-flex\""
    ensures "class=\"x\" class=\"tw-flex\"" != Sample
  {
    var ch := Change(17, "flex", "tw-flex");
    assert Replacements([ch]) == [Edit(17, 4, "tw-flex")];
    SampleSplice();
    assert |"class=\"x\" class=\"tw-flex\""| != |Sample|;
  }

  /** Splicing `tw-flex` over `flex` in `Sample`. */
  lemma SampleSplice()
    ensures Laid(Sample, 0, [Edit(17, 4, "tw-flex")])
    ensures SpliceFrom(Sample, 0, [Edit(17, 4, "tw-flex")]) == "class=\"x\" class=\"tw-flex\""
  {
    var e := Edit(17, 4, "tw-flex");
    assert [e][1..] == [];
    assert Sample[0..17] == "class=\"x\" class=\"" && Sample[21..] == "\"";
  }

  /** A changed match too short for its key, as written: the error's text goes over the region. */
  lemma PlaceShort(isUtility: string -> bool, prefix: string, r: Region, i: nat, st: Staging, t: string)
    requires TransformRegion(isUtility, prefix, r.text) == t != r.text
    requires Placeholder(i + 1, |r.text|).None?
    ensures PlaceAsWritten(isUtility, prefix, r, i, st)
      == (i + 1, Staging(st.entries + [Entry(Unsupported, t)],
                         Slice(st.buffer, 0, r.offset) + Unsupported + Slice(st.buffer, r.End(), |st.buffer|)))
  {
  }

  /** The first step as written on `Sample`: the error's text replaces `x`, lengthening the buffer by nine. */
  lemma SampleFirstStep()
    ensures PlaceAsWritten(Everything, "tw-", Region(7, "x"), 0, Staging([], Sample))
      == (1, Staging([Entry(Unsupported, "tw-x")], "class=\"" + Unsupported + "\" class=\"flex\""))
  {
    SampleTransforms();
    SampleKeys();
    PlaceShort(Everything, "tw-", Region(7, "x"), 0, Staging([], Sample), "tw-x");
    assert Region(7, "x").End() == 8;
    SampleSlices();
    assert [] + [Entry(Unsupported, "tw-x")] == [Entry(Unsupported, "tw-x")];
  }

  /** Both class lists of `Sample` get the prefix. */
  lemma SampleTransforms()
    ensures TransformRegion(Everything, "tw-", "x") == "tw-x"
    ensures TransformRegion(Everything, "tw-", "flex") == "tw-flex"
  {
    PrefixOne(Everything, "tw-", "x");
    PrefixOne(Everything, "tw-", "flex");
  }

  /** What lies either side of `x` in `Sample`. */
  lemma SampleSlices()
    ensures Slice(Sample, 0, 7) == "class=\"" && Slice(Sample, 8, |Sample|) == "\" class=\"flex\""
  {
  }

  /**
   * The second step as written: `$__2` is sliced in at offset 17 of the
   * lengthened buffer, which now holds the error's text there, and four
   * characters of the following markup are lost.
   */
  lemma SampleSecondStep()
    ensures PlaceAsWritten(Everything, "tw-", Region(17, "flex"), 1,
                           Staging([Entry(Unsupported, "tw-x")], "class=\"" + Unsupported + "\" class=\"flex\""))
      == (2, Staging([Entry(Unsupported, "tw-x"), Entry("$__2", "tw-flex")],
                     "class=\"" + Unsupported + "$__2" + "ass=\"flex\""))
  {
    var b := "class=\"" + Unsupported + "\" class=\"flex\"";
    SampleTransforms();
    SampleKeys();
    LengthenedCut();
    PlaceFitting(Everything, "tw-", Region(17, "flex"), 1, Staging([Entry(Unsupported, "tw-x")], b), "$__2",
      Staging([Entry(Unsupported, "tw-x"), Entry("$__2", "tw-flex")], "class=\"" + Unsupported + "$__2" + "ass=\"flex\""));
  }

  /** The lengthened buffer around offsets 17 to 21, where `flex` was in `Sample`. */
  lemma LengthenedCut()
    ensures var b := "class=\"" + Unsupported + "\" class=\"flex\"";
      |b| == 31 && b[..17] == "class=\"" + Unsupported && b[21..] == "ass=\"flex\""
  {
  }

  /** Both steps as written, over the two matches of `Sample`. */
  lemma SamplePlaced()
    ensures PlaceFrom(Everything, "tw-", Regions(Sample), 0, 0, Staging([], Sample))
      == Staging([Entry(Unsupported, "tw-x"), Entry("$__2", "tw-flex")], "class=\"" + Unsupported + "$__2" + "ass=\"flex\"")
  {
    SampleRegions();
    SampleFirstStep();
    SampleSecondStep();
  }

  /** The keys resolved as written: the error's text gives way to `tw-x`, then `$__2` to `tw-flex`. */
  lemma SampleResolved()
    ensures ResolveAll("class=\"" + Unsupported + "$__2" + "ass=\"flex\"",
                       [Entry(Unsupported, "tw-x"), Entry("$__2", "tw-flex")])
      == "class=\"tw-xtw-flexass=\"flex\""
  {
    ResolveTwo("class=\"" + Unsupported + "$__2" + "ass=\"flex\"", Entry(Unsupported, "tw-x"), Entry("$__2", "tw-flex"));
    ResolveError();
    ResolveKey();
  }

  /** Resolving two entries is two replacements, in insertion order. */
  lemma ResolveTwo(text: string, e1: Entry, e2: Entry)
    ensures ResolveAll(text, [e1, e2]) == Replace(Replace(text, e1.key, e1.value), e2.key, e2.value)
  {
    var t1 := Replace(text, e1.key, e1.value);
    assert [e1, e2][1..] == [e2] && [e2][1..] == [];
    assert ResolveAll(text, [e1, e2]) == ResolveAll(t1, [e2]);
    assert ResolveAll(t1, [e2]) == ResolveAll(Replace(t1, e2.key, e2.value), []);
  }

  /** The error's text, a `replace` pattern here, is found right after `class="`. */
  lemma ResolveError()
    ensures Replace("class=\"" + Unsupported + "$__2" + "ass=\"flex\"", Unsupported, "tw-x")
      == "class=\"tw-x$__2ass=\"flex\""
  {
    ReplaceAt("class=\"" + Unsupported + "$__2" + "ass=\"flex\"", "class=\"", Unsupported, "$__2ass=\"flex\"",
      "tw-x", "class=\"tw-x$__2ass=\"flex\"");
  }

  /** The key `$__2` is found right after `class="tw-x`. */
  lemma ResolveKey()
    ensures Replace("class=\"tw-x$__2ass=\"flex\"", "$__2", "tw-flex") == "class=\"tw-xtw-flexass=\"flex\""
  {
    ReplaceAt("class=\"tw-x$__2ass=\"flex\"", "class=\"tw-x", "$__2", "ass=\"flex\"",
      "tw-flex", "class=\"tw-xtw-flexass=\"flex\"");
  }

  /** `ReplaceFirst` for a text `s` and a result `r` given whole. */
  lemma ReplaceAt(s: string, p: string, pat: string, t: string, v: string, r: string)
    requires s == p + pat + t && r == p + v + t
    requires NoDollar(v) && |pat| >= 1 && pat[0] !in p
    ensures Replace(s, pat, v) == r
  {
    ReplaceFirst(p, pat, t, v);
  }

  /**
   * On `Sample` the code as written garbles the second class attribute and
   * leaves the document without the `" class="` between the two lists, while
   * the corrected rewrite prefixes `flex` and reports `x`.
   */
  lemma ShortRegionGarbles()
    ensures RewriteAsWritten(Everything, "tw-", Sample) == "class=\"tw-xtw-flexass=\"flex\""
    ensures Rewrite(Everything, "tw-", Sample) == Outcome("class=\"x\" class=\"tw-flex\"", true, [7])
  {
    SamplePlaced();
    SampleResolved();
    SampleRewritten();
  }
}
