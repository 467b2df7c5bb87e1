/**
 * The displacement-safe rewriter: every changed region is first overwritten
 * by a placeholder key exactly as long as the region, at the offset found in
 * the original text, and only then is each key replaced by the region's new
 * text. Because the first phase never changes the length of anything, every
 * offset taken from the original text stays valid in the buffer.
 */
module Rewriter {
  import opened Wrappers
  import opened JsString

  /** A region whose transformed text differs from its original text. */
  datatype Change = Change(offset: nat, original: string, replacement: string)

  /** A splice: `length` characters at `offset` give way to `text`. */
  datatype Edit = Edit(offset: nat, length: nat, text: string) {
    function End(): nat { offset + length }
  }

  /** A map entry: a placeholder key and the text it stands for. */
  datatype Entry = Entry(key: string, value: string)

  // ---------------------------------------------------------------------
  // Placeholders
  // ---------------------------------------------------------------------

  /**
   * The key of the `i`-th changed region of the given length: `$`, then
   * `rest - 1` underscores, then the digits of `i`, where `rest` is the
   * length less the number of digits. When `rest <= 1` there is no key.
   */
  function Placeholder(i: nat, length: nat): (key: Option<string>)
    ensures key.Some? <==> length - |Decimal(i)| > 1
    ensures key.Some? ==> |key.value| == length
    ensures key.Some? ==> key.value[0] == '$' && key.value[1] == '_' && NoDollar(key.value[1..])
    ensures key.Some? ==> forall k :: 1 <= k < length - |Decimal(i)| ==> key.value[k] == '_'
    ensures key.Some? ==> key.value[length - |Decimal(i)|..] == Decimal(i)
  {
    var rest := length - |Decimal(i)|;
    if rest > 1 then
      var key := "$" + Repeat('_', rest - 1) + Decimal(i);
      assert key[1..] == Repeat('_', rest - 1) + Decimal(i);
      assert key[rest..] == Decimal(i);
      Some(key)
    else None
  }

  /** Placeholders for different counters differ, whatever the lengths. */
  lemma PlaceholdersDistinct(i: nat, j: nat, m: nat, n: nat)
    requires Placeholder(i, m).Some? && Placeholder(j, n).Some? && i != j
    ensures Placeholder(i, m).value != Placeholder(j, n).value
  {
    var a := m - |Decimal(i)| - 1;
    var b := n - |Decimal(j)| - 1;
    var ki := Placeholder(i, m).value;
    var kj := Placeholder(j, n).value;
    assert ki == "$" + Repeat('_', a) + Decimal(i);
    assert kj == "$" + Repeat('_', b) + Decimal(j);
    if a < b {
      assert ki[1 + a] == Decimal(i)[0] != '_';
      assert kj[1 + a] == '_';
    } else if b < a {
      assert kj[1 + b] == Decimal(j)[0] != '_';
      assert ki[1 + b] == '_';
    } else {
      assert ki[1 + a..] == Decimal(i);
      assert kj[1 + a..] == Decimal(j);
      if Decimal(i) == Decimal(j) {
        DecimalInjective(i, j);
      }
    }
  }

  // ---------------------------------------------------------------------
  // Splicing at offsets of the original text
  // ---------------------------------------------------------------------

  /** The edits lie inside `c`, at or after `pos`, left to right and without overlap. */
  predicate Laid(c: string, pos: nat, es: seq<Edit>)
    decreases |es|
  {
    && pos <= |c|
    && (es != [] ==> pos <= es[0].offset && es[0].End() <= |c| && Laid(c, es[0].End(), es[1..]))
  }

  /** Edits given pairwise apart and inside `c` are laid out. */
  lemma {:induction false} LaidFromApart(c: string, pos: nat, es: seq<Edit>)
    requires pos <= |c|
    requires forall k :: 0 <= k < |es| ==> pos <= es[k].offset && es[k].End() <= |c|
    requires forall j, k :: 0 <= j < k < |es| ==> es[j].End() <= es[k].offset
    ensures Laid(c, pos, es)
    decreases |es|
  {
    if es != [] {
      var tail := es[1..];
      forall k | 0 <= k < |tail| ensures es[0].End() <= tail[k].offset && tail[k].End() <= |c| {
        assert tail[k] == es[k + 1];
      }
      forall j, k | 0 <= j < k < |tail| ensures tail[j].End() <= tail[k].offset {
        assert tail[j] == es[j + 1] && tail[k] == es[k + 1];
      }
      LaidFromApart(c, es[0].End(), tail);
    }
  }

  /** The text from `pos` on with every edit applied, each at its own offset in `c`. */
  function SpliceFrom(c: string, pos: nat, es: seq<Edit>): string
    requires Laid(c, pos, es)
    decreases |es|
  {
    if es == [] then c[pos..]
    else c[pos..es[0].offset] + es[0].text + SpliceFrom(c, es[0].End(), es[1..])
  }

  /**
   * Splicing can be cut at any point `m` between the `k`-th edit and the ones
   * before it: the first `k` edits act on `c[..m]`, the others on the rest.
   */
  lemma SpliceSplit(c: string, pos: nat, es: seq<Edit>, k: nat, m: nat)
    requires Laid(c, pos, es) && k <= |es| && pos <= m <= |c|
    requires forall j :: 0 <= j < k ==> es[j].End() <= m
    requires k < |es| ==> m <= es[k].offset
    ensures Laid(c[..m], pos, es[..k]) && Laid(c, m, es[k..])
    ensures SpliceFrom(c, pos, es) == SpliceFrom(c[..m], pos, es[..k]) + SpliceFrom(c, m, es[k..])
  {
    assert es[..k] + es[k..] == es;
    LaidCut(c, pos, es[..k], es[k..], m);
    SpliceConcat(c, pos, es[..k], es[k..], m);
  }

  /** Edits laid out in `c` and cut at `m` are laid out in `c[..m]` before the cut and in `c` after it. */
  lemma {:induction false} LaidCut(c: string, pos: nat, before: seq<Edit>, after: seq<Edit>, m: nat)
    requires Laid(c, pos, before + after) && pos <= m <= |c|
    requires forall j :: 0 <= j < |before| ==> before[j].End() <= m
    requires after != [] ==> m <= after[0].offset
    ensures Laid(c[..m], pos, before) && Laid(c, m, after)
    decreases |before|
  {
    if before == [] {
      assert before + after == after;
    } else {
      var e := before[0];
      assert (before + after)[0] == e && (before + after)[1..] == before[1..] + after;
      assert forall j :: 0 <= j < |before[1..]| ==> before[1..][j] == before[j + 1];
      LaidCut(c, e.End(), before[1..], after, m);
    }
  }

  /** Edits laid out in `c[..m]` from `pos`, followed by edits laid out in `c` from `m`, are laid out in `c` from `pos`. */
  lemma {:induction false} LaidConcat(c: string, pos: nat, before: seq<Edit>, after: seq<Edit>, m: nat)
    requires pos <= m <= |c| && Laid(c[..m], pos, before) && Laid(c, m, after)
    ensures Laid(c, pos, before + after)
    decreases |before|
  {
    if before == [] {
      assert before + after == after;
    } else {
      var e := before[0];
      assert (before + after)[0] == e && (before + after)[1..] == before[1..] + after;
      LaidConcat(c, e.End(), before[1..], after, m);
    }
  }

  /** Splices laid out before and after a cut at `m` join into the splice of all of them. */
  lemma {:induction false} SpliceConcat(c: string, pos: nat, before: seq<Edit>, after: seq<Edit>, m: nat)
    requires pos <= m <= |c| && Laid(c[..m], pos, before) && Laid(c, m, after)
    ensures Laid(c, pos, before + after)
    ensures SpliceFrom(c, pos, before + after) == SpliceFrom(c[..m], pos, before) + SpliceFrom(c, m, after)
    decreases |before|
  {
    LaidConcat(c, pos, before, after, m);
    if before == [] {
      assert before + after == after;
      SpliceCutBeforeAll(c, pos, after, m);
    } else {
      var e := before[0];
      LaidConcat(c, e.End(), before[1..], after, m);
      SpliceConcat(c, e.End(), before[1..], after, m);
      SpliceConcatStep(c, pos, before, after, m);
    }
  }

  /** The inductive step of `SpliceConcat`, given its claim for the edits after the first. */
  lemma SpliceConcatStep(c: string, pos: nat, before: seq<Edit>, after: seq<Edit>, m: nat)
    requires pos <= m <= |c| && before != [] && Laid(c[..m], pos, before) && Laid(c, m, after)
    requires Laid(c, pos, before + after) && Laid(c, before[0].End(), before[1..] + after)
    requires SpliceFrom(c, before[0].End(), before[1..] + after)
      == SpliceFrom(c[..m], before[0].End(), before[1..]) + SpliceFrom(c, m, after)
    ensures SpliceFrom(c, pos, before + after) == SpliceFrom(c[..m], pos, before) + SpliceFrom(c, m, after)
  {
    var e := before[0];
    var all := before + after;
    assert all[0] == e && all[1..] == before[1..] + after;
    var lead := c[pos..e.offset] + e.text;
    var x := SpliceFrom(c[..m], e.End(), before[1..]);
    var y := SpliceFrom(c, m, after);
    SliceOfPrefix(c, m, pos, e.offset);
    assert SpliceFrom(c[..m], pos, before) == lead + x;
    assert SpliceFrom(c, pos, all) == lead + (x + y);
    Associative(lead, x, y);
  }

  /** Concatenation of texts is associative. */
  lemma Associative(a: string, b: string, d: string)
    ensures a + (b + d) == a + b + d
  {
  }

  /** A slice of a prefix is the same slice of the whole. */
  lemma SliceOfPrefix(c: string, m: nat, i: nat, j: nat)
    requires i <= j <= m <= |c|
    ensures c[..m][i..j] == c[i..j]
  {
  }

  /** The case of `SpliceConcat` with no edit before `m`. */
  lemma SpliceCutBeforeAll(c: string, pos: nat, es: seq<Edit>, m: nat)
    requires pos <= m <= |c| && Laid(c, m, es)
    ensures Laid(c, pos, es)
    ensures SpliceFrom(c, pos, es) == SpliceFrom(c[..m], pos, []) + SpliceFrom(c, m, es)
  {
    assert SpliceFrom(c[..m], pos, []) == c[pos..m];
    if es == [] {
      assert c[pos..] == c[pos..m] + c[m..];
    } else {
      assert c[pos..es[0].offset] == c[pos..m] + c[m..es[0].offset];
    }
  }

  /** Edits that keep lengths keep the length of the text. */
  lemma {:induction false} SpliceLength(c: string, pos: nat, es: seq<Edit>)
    requires Laid(c, pos, es)
    requires forall k :: 0 <= k < |es| ==> |es[k].text| == es[k].length
    ensures |SpliceFrom(c, pos, es)| == |c| - pos
    decreases |es|
  {
    if es != [] {
      SpliceLength(c, es[0].End(), es[1..]);
    }
  }

  /** Dollar-free text and dollar-free edits give a dollar-free result. */
  lemma {:induction false} SpliceNoDollar(c: string, pos: nat, es: seq<Edit>)
    requires Laid(c, pos, es) && NoDollar(c)
    requires forall k :: 0 <= k < |es| ==> NoDollar(es[k].text)
    ensures NoDollar(SpliceFrom(c, pos, es))
    decreases |es|
  {
    if es != [] {
      SpliceNoDollar(c, es[0].End(), es[1..]);
      var a := c[pos..es[0].offset];
      assert NoDollar(a) by {
        forall q | 0 <= q < |a| ensures a[q] != '$' { assert a[q] == c[pos + q]; }
      }
      var b := SpliceFrom(c, es[0].End(), es[1..]);
      var r := a + es[0].text + b;
      forall q | 0 <= q < |r| ensures r[q] != '$' {
        if q < |a| { assert r[q] == a[q]; }
        else if q < |a| + |es[0].text| { assert r[q] == es[0].text[q - |a|]; }
        else { assert r[q] == b[q - |a| - |es[0].text|]; }
      }
    }
  }

  /** Position `q` lies inside no edit. */
  predicate Untouched(es: seq<Edit>, q: nat) {
    forall k :: 0 <= k < |es| ==> !(es[k].offset <= q < es[k].End())
  }

  /** With length-preserving edits, a character no edit covers is the original one. */
  lemma {:induction false} SpliceKeepsUntouched(c: string, pos: nat, es: seq<Edit>, q: nat)
    requires Laid(c, pos, es) && pos <= q < |c| && Untouched(es, q)
    requires forall k :: 0 <= k < |es| ==> |es[k].text| == es[k].length
    ensures |SpliceFrom(c, pos, es)| == |c| - pos
    ensures SpliceFrom(c, pos, es)[q - pos] == c[q]
    decreases |es|
  {
    SpliceLength(c, pos, es);
    if es != [] {
      var e := es[0];
      var tail := es[1..];
      var a := c[pos..e.offset];
      var b := SpliceFrom(c, e.End(), tail);
      IndexConcat3(a, e.text, b, q - pos);
      if q >= e.offset {
        assert !(e.offset <= q < e.End());
        assert Untouched(tail, q) by {
          forall k | 0 <= k < |tail| ensures !(tail[k].offset <= q < tail[k].End()) {
            assert tail[k] == es[k + 1];
          }
        }
        SpliceKeepsUntouched(c, e.End(), tail, q);
      }
    }
  }

  /** With length-preserving edits, a character the `k`-th edit covers comes from that edit's text. */
  lemma SpliceInsideEdit(c: string, es: seq<Edit>, k: nat, q: nat)
    requires Laid(c, 0, es) && k < |es| && es[k].offset <= q < es[k].End() && es[k].End() <= |c|
    requires forall j :: 0 <= j < |es| ==> |es[j].text| == es[j].length
    requires forall j :: 0 <= j < k ==> es[j].End() <= es[k].offset
    ensures |SpliceFrom(c, 0, es)| == |c|
    ensures SpliceFrom(c, 0, es)[q] == es[k].text[q - es[k].offset]
  {
    var o := es[k].offset;
    SpliceLength(c, 0, es);
    SpliceAround(c, es, k);
    PreservingPrefix(es, k);
    SpliceLength(c[..o], 0, es[..k]);
    IndexConcat3(SpliceFrom(c[..o], 0, es[..k]), es[k].text, SpliceFrom(c, es[k].End(), es[k + 1..]), q);
  }

  /** Length-preserving edits stay so when cut short. */
  lemma PreservingPrefix(es: seq<Edit>, k: nat)
    requires k <= |es| && forall j :: 0 <= j < |es| ==> |es[j].text| == es[j].length
    ensures forall j :: 0 <= j < |es[..k]| ==> |es[..k][j].text| == es[..k][j].length
  {
    forall j | 0 <= j < |es[..k]| ensures |es[..k][j].text| == es[..k][j].length {
      assert es[..k][j] == es[j];
    }
  }

  /** Indexing into three texts joined together. */
  lemma IndexConcat3(a: string, b: string, d: string, i: nat)
    requires i < |a| + |b| + |d|
    ensures (a + b + d)[i] == if i < |a| then a[i] else if i < |a| + |b| then b[i - |a|] else d[i - |a| - |b|]
  {
  }

  /** Edits that each lengthen their span lengthen the text by at least one character apiece. */
  lemma {:induction false} SpliceLonger(c: string, pos: nat, es: seq<Edit>)
    requires Laid(c, pos, es)
    requires forall k :: 0 <= k < |es| ==> |es[k].text| > es[k].length
    ensures |SpliceFrom(c, pos, es)| >= |c| - pos + |es|
    decreases |es|
  {
    if es != [] {
      SpliceLonger(c, es[0].End(), es[1..]);
    }
  }

  /** Characters at or beyond `m`, where no edit reaches, are as in `c`. */
  lemma SpliceKeepsTail(c: string, es: seq<Edit>, m: nat)
    requires Laid(c, 0, es) && m <= |c|
    requires forall k :: 0 <= k < |es| ==> |es[k].text| == es[k].length && es[k].End() <= m
    ensures |SpliceFrom(c, 0, es)| == |c| && Laid(c[..m], 0, es)
    ensures SpliceFrom(c, 0, es)[..m] == SpliceFrom(c[..m], 0, es)
    ensures SpliceFrom(c, 0, es)[m..] == c[m..]
  {
    SpliceLength(c, 0, es);
    SpliceSplit(c, 0, es, |es|, m);
    assert es[..|es|] == es && es[|es|..] == [];
    SpliceLength(c[..m], 0, es);
  }

  /**
   * One placeholder-phase step: applying a further length-preserving edit to
   * the right of the earlier ones is the slice-and-concatenate of line 43 on
   * the current buffer. The buffer keeps its length, and only the edit's own
   * span changes.
   */
  lemma AppendEdit(c: string, es: seq<Edit>, e: Edit)
    requires Laid(c, 0, es) && e.End() <= |c| && |e.text| == e.length
    requires forall k :: 0 <= k < |es| ==> |es[k].text| == es[k].length && es[k].End() <= e.offset
    ensures Laid(c, 0, es + [e])
    ensures |SpliceFrom(c, 0, es)| == |c|
    ensures SpliceFrom(c, 0, es + [e]) == SpliceFrom(c, 0, es)[..e.offset] + e.text + SpliceFrom(c, 0, es)[e.End()..]
    ensures forall q :: 0 <= q < |c| && !(e.offset <= q < e.End()) ==> SpliceFrom(c, 0, es + [e])[q] == SpliceFrom(c, 0, es)[q]
  {
    SpliceKeepsTail(c, es, e.offset);
    SpliceLast(c, 0, es, e);
    SameTail(SpliceFrom(c, 0, es), c, e.offset, e.End());
    Overwrite(SpliceFrom(c, 0, es), e.offset, e.text);
  }

  /** A last edit to the right of the others is spliced after what they make of the text before it. */
  lemma SpliceLast(c: string, pos: nat, es: seq<Edit>, e: Edit)
    requires pos <= e.offset && e.End() <= |c| && Laid(c[..e.offset], pos, es)
    ensures Laid(c, pos, es + [e])
    ensures SpliceFrom(c, pos, es + [e]) == SpliceFrom(c[..e.offset], pos, es) + e.text + c[e.End()..]
  {
    assert [e][1..] == [];
    assert Laid(c, e.offset, [e]);
    SpliceConcat(c, pos, es, [e], e.offset);
    assert SpliceFrom(c, e.offset, [e]) == e.text + c[e.End()..] by {
      assert c[e.offset..e.offset] + e.text == e.text;
    }
  }

  /** Two texts that agree from `o` on agree from any later point on. */
  lemma SameTail(s: string, t: string, o: nat, p: nat)
    requires o <= p <= |s| && o <= |t| && s[o..] == t[o..]
    ensures s[p..] == t[p..]
  {
    assert s[p..] == s[o..][p - o..];
    assert t[p..] == t[o..][p - o..];
  }

  /** Overwriting a span of a text keeps its length and every character outside the span. */
  lemma Overwrite(s: string, o: nat, t: string)
    requires o + |t| <= |s|
    ensures |s[..o] + t + s[o + |t|..]| == |s|
    ensures forall q :: 0 <= q < |s| && !(o <= q < o + |t|) ==> (s[..o] + t + s[o + |t|..])[q] == s[q]
  {
  }

  // ---------------------------------------------------------------------
  // The two phases
  // ---------------------------------------------------------------------

  /** The changed regions lie inside `c`, left to right and without overlap. */
  predicate Ordered(c: string, cs: seq<Change>) {
    && (forall k :: 0 <= k < |cs| ==> cs[k].offset + |cs[k].original| <= |c|)
    && (forall j, k :: 0 <= j < k < |cs| ==> cs[j].offset + |cs[j].original| <= cs[k].offset)
  }

  /**
   * Keys suited to the changes: one per change, each exactly as long as its
   * region and led by `$`.
   */
  predicate KeysFit(cs: seq<Change>, keys: seq<string>) {
    && |keys| == |cs|
    && forall k :: 0 <= k < |cs| ==> |keys[k]| == |cs[k].original| && |keys[k]| >= 1 && keys[k][0] == '$'
  }

  /** The map as a list in insertion order: each key with its region's new text. */
  function Entries(cs: seq<Change>, keys: seq<string>): (es: seq<Entry>)
    requires |keys| == |cs|
    ensures |es| == |cs|
    ensures forall k :: 0 <= k < |cs| ==> es[k] == Entry(keys[k], cs[k].replacement)
  {
    seq(|cs|, k requires 0 <= k < |cs| => Entry(keys[k], cs[k].replacement))
  }

  /** The splices with the first `j` regions resolved to their new text and the others still holding their key. */
  function Staged(cs: seq<Change>, keys: seq<string>, j: nat): (es: seq<Edit>)
    requires |keys| == |cs|
    ensures |es| == |cs|
    ensures forall k :: 0 <= k < |cs| ==> es[k].offset == cs[k].offset && es[k].length == |cs[k].original|
    ensures forall k :: 0 <= k < |cs| ==> es[k].text == if k < j then cs[k].replacement else keys[k]
  {
    seq(|cs|, k requires 0 <= k < |cs| =>
      Edit(cs[k].offset, |cs[k].original|, if k < j then cs[k].replacement else keys[k]))
  }

  /** The direct rewrite: every changed region replaced by its new text at its own offset. */
  function Replacements(cs: seq<Change>): (es: seq<Edit>)
    ensures |es| == |cs|
    ensures forall k :: 0 <= k < |cs| ==> es[k] == Edit(cs[k].offset, |cs[k].original|, cs[k].replacement)
  {
    seq(|cs|, k requires 0 <= k < |cs| => Edit(cs[k].offset, |cs[k].original|, cs[k].replacement))
  }

  lemma StagedLaid(c: string, cs: seq<Change>, keys: seq<string>, j: nat)
    requires Ordered(c, cs) && |keys| == |cs|
    ensures Laid(c, 0, Staged(cs, keys, j))
  {
    LaidFromApart(c, 0, Staged(cs, keys, j));
  }

  lemma ReplacementsLaid(c: string, cs: seq<Change>)
    requires Ordered(c, cs)
    ensures Laid(c, 0, Replacements(cs))
  {
    LaidFromApart(c, 0, Replacements(cs));
  }

  /** `for (const [key, value] of map) newContent = newContent.replace(key, value)`. */
  function ResolveAll(text: string, entries: seq<Entry>): string
    decreases |entries|
  {
    if entries == [] then text else ResolveAll(Replace(text, entries[0].key, entries[0].value), entries[1..])
  }

  /** The buffer after the placeholder phase: the original text with every changed region holding its key. */
  function PlaceholderPhase(c: string, cs: seq<Change>, keys: seq<string>): (b: string)
    requires Ordered(c, cs) && KeysFit(cs, keys)
    ensures |b| == |c|
  {
    StagedLaid(c, cs, keys, 0);
    SpliceLength(c, 0, Staged(cs, keys, 0));
    SpliceFrom(c, 0, Staged(cs, keys, 0))
  }

  /**
   * The buffer after the placeholder phase (lines 43-44 of the loop, all
   * regions done): inside each changed region it holds that region's key, and
   * everywhere else the original text.
   */
  lemma PlaceholderPhaseAt(c: string, cs: seq<Change>, keys: seq<string>, q: nat)
    requires Ordered(c, cs) && KeysFit(cs, keys) && q < |c|
    ensures (forall k :: 0 <= k < |cs| ==> !(cs[k].offset <= q < cs[k].offset + |cs[k].original|)) ==>
      PlaceholderPhase(c, cs, keys)[q] == c[q]
    ensures forall k :: 0 <= k < |cs| && cs[k].offset <= q < cs[k].offset + |cs[k].original| ==>
      PlaceholderPhase(c, cs, keys)[q] == keys[k][q - cs[k].offset]
  {
    var es := Staged(cs, keys, 0);
    StagedLaid(c, cs, keys, 0);
    if Untouched(es, q) {
      SpliceKeepsUntouched(c, 0, es, q);
    }
    forall k | 0 <= k < |cs| && cs[k].offset <= q < cs[k].offset + |cs[k].original|
      ensures PlaceholderPhase(c, cs, keys)[q] == keys[k][q - cs[k].offset]
    {
      SpliceInsideEdit(c, es, k, q);
    }
  }

  /**
   * One more changed region to the right of the others: the changes stay
   * ordered, the keys still fit, the map gains one entry at its end, and the
   * buffer is the previous one with the new key sliced in at the region's
   * offset (line 43).
   */
  lemma PlaceholderPhaseAppend(c: string, cs: seq<Change>, keys: seq<string>, ch: Change, key: string)
    requires Ordered(c, cs) && KeysFit(cs, keys)
    requires ch.offset + |ch.original| <= |c|
    requires forall k :: 0 <= k < |cs| ==> cs[k].offset + |cs[k].original| <= ch.offset
    requires |key| == |ch.original| && |key| >= 1 && key[0] == '$'
    ensures Ordered(c, cs + [ch]) && KeysFit(cs + [ch], keys + [key])
    ensures Entries(cs + [ch], keys + [key]) == Entries(cs, keys) + [Entry(key, ch.replacement)]
    ensures PlaceholderPhase(c, cs + [ch], keys + [key])
      == PlaceholderPhase(c, cs, keys)[..ch.offset] + key + PlaceholderPhase(c, cs, keys)[ch.offset + |ch.original|..]
  {
    AppendFits(c, cs, keys, ch, key);
    var es := Staged(cs, keys, 0);
    var e := Edit(ch.offset, |ch.original|, key);
    StagedAppend(cs, keys, ch, key);
    StagedLaid(c, cs, keys, 0);
    AppendEdit(c, es, e);
  }

  /** A change to the right of the others, with a fitting key, keeps changes ordered and keys fitting. */
  lemma AppendFits(c: string, cs: seq<Change>, keys: seq<string>, ch: Change, key: string)
    requires Ordered(c, cs) && KeysFit(cs, keys)
    requires ch.offset + |ch.original| <= |c|
    requires forall k :: 0 <= k < |cs| ==> cs[k].offset + |cs[k].original| <= ch.offset
    requires |key| == |ch.original| && |key| >= 1 && key[0] == '$'
    ensures Ordered(c, cs + [ch]) && KeysFit(cs + [ch], keys + [key])
    ensures Entries(cs + [ch], keys + [key]) == Entries(cs, keys) + [Entry(key, ch.replacement)]
  {
    var cs', keys' := cs + [ch], keys + [key];
    assert forall k :: 0 <= k < |cs| ==> cs'[k] == cs[k] && keys'[k] == keys[k];
  }

  /** Staging one more change with its key appends one more edit. */
  lemma StagedAppend(cs: seq<Change>, keys: seq<string>, ch: Change, key: string)
    requires |keys| == |cs|
    ensures Staged(cs + [ch], keys + [key], 0) == Staged(cs, keys, 0) + [Edit(ch.offset, |ch.original|, key)]
  {
    var cs', keys' := cs + [ch], keys + [key];
    assert forall k :: 0 <= k < |cs| ==> cs'[k] == cs[k] && keys'[k] == keys[k];
  }

  /** Both phases: keys spliced in, then each key replaced, in insertion order. */
  function TwoPhase(c: string, cs: seq<Change>, keys: seq<string>): string
    requires Ordered(c, cs) && KeysFit(cs, keys)
  {
    ResolveAll(PlaceholderPhase(c, cs, keys), Entries(cs, keys))
  }

  /** The original text with each changed region replaced by its new text at its own offset. */
  function Direct(c: string, cs: seq<Change>): string
    requires Ordered(c, cs)
  {
    ReplacementsLaid(c, cs);
    SpliceFrom(c, 0, Replacements(cs))
  }

  /** The splice around its `j`-th edit: what lies left of it, its text, and what lies right of it. */
  lemma SpliceAround(c: string, es: seq<Edit>, j: nat)
    requires Laid(c, 0, es) && j < |es| && es[j].End() <= |c|
    requires forall k :: 0 <= k < j ==> es[k].End() <= es[j].offset
    ensures Laid(c[..es[j].offset], 0, es[..j]) && Laid(c, es[j].End(), es[j + 1..])
    ensures SpliceFrom(c, 0, es)
      == SpliceFrom(c[..es[j].offset], 0, es[..j]) + es[j].text + SpliceFrom(c, es[j].End(), es[j + 1..])
  {
    var o := es[j].offset;
    SpliceSplit(c, 0, es, j, o);
    var p := SpliceFrom(c[..o], 0, es[..j]);
    var rest := es[j..];
    var t := SpliceFrom(c, es[j].End(), es[j + 1..]);
    assert rest[0] == es[j] && rest[1..] == es[j + 1..];
    assert SpliceFrom(c, o, rest) == c[o..o] + es[j].text + t;
    assert c[o..o] + es[j].text == es[j].text;
    assert SpliceFrom(c, 0, es) == p + (es[j].text + t);
  }

  /** When every new text is longer than the region it replaces, the direct splice is longer by at least one character per change. */
  lemma DirectLonger(c: string, cs: seq<Change>)
    requires Ordered(c, cs)
    requires forall k :: 0 <= k < |cs| ==> |cs[k].replacement| > |cs[k].original|
    ensures |Direct(c, cs)| >= |c| + |cs|
  {
    ReplacementsLaid(c, cs);
    SpliceLonger(c, 0, Replacements(cs));
  }

  /**
   * Replacing a `$`-led key that an edit put in, when everything spliced to
   * its left is dollar-free, is the same as having spliced in the value.
   */
  lemma ReplaceSplicedKey(c: string, es: seq<Edit>, es': seq<Edit>, j: nat, v: string)
    requires Laid(c, 0, es) && Laid(c, 0, es') && j < |es| == |es'|
    requires es[..j] == es'[..j] && es[j + 1..] == es'[j + 1..]
    requires es'[j] == es[j].(text := v)
    requires |es[j].text| >= 1 && es[j].text[0] == '$'
    requires es[j].End() <= |c| && forall k :: 0 <= k < j ==> es[k].End() <= es[j].offset
    requires NoDollar(c) && NoDollar(v) && forall k :: 0 <= k < j ==> NoDollar(es[k].text)
    ensures Replace(SpliceFrom(c, 0, es), es[j].text, v) == SpliceFrom(c, 0, es')
  {
    SpliceAround(c, es, j);
    SpliceAroundOther(c, es, es', j);
    SplicedPrefixNoDollar(c, es, j);
    var o := es[j].offset;
    ReplaceFirstKey(SpliceFrom(c[..o], 0, es[..j]), es[j].text, SpliceFrom(c, es[j].End(), es[j + 1..]), v);
  }

  /** Edits that differ only in the text of the `j`-th one splice to texts that differ only there. */
  lemma SpliceAroundOther(c: string, es: seq<Edit>, es': seq<Edit>, j: nat)
    requires Laid(c, 0, es) && Laid(c, 0, es') && j < |es| == |es'|
    requires es[..j] == es'[..j] && es[j + 1..] == es'[j + 1..]
    requires es'[j].offset == es[j].offset && es'[j].length == es[j].length
    requires es[j].End() <= |c| && forall k :: 0 <= k < j ==> es[k].End() <= es[j].offset
    requires Laid(c[..es[j].offset], 0, es[..j]) && Laid(c, es[j].End(), es[j + 1..])
    ensures SpliceFrom(c, 0, es')
      == SpliceFrom(c[..es[j].offset], 0, es[..j]) + es'[j].text + SpliceFrom(c, es[j].End(), es[j + 1..])
  {
    forall k | 0 <= k < j ensures es'[k] == es[k] {
      assert es'[k] == es'[..j][k];
    }
    SpliceAround(c, es', j);
  }

  /** What is spliced to the left of the `j`-th edit is free of `$` when the text and the earlier new texts are. */
  lemma SplicedPrefixNoDollar(c: string, es: seq<Edit>, j: nat)
    requires j < |es| && es[j].offset <= |c| && Laid(c[..es[j].offset], 0, es[..j])
    requires NoDollar(c) && forall k :: 0 <= k < j ==> NoDollar(es[k].text)
    ensures NoDollar(SpliceFrom(c[..es[j].offset], 0, es[..j]))
  {
    var o := es[j].offset;
    assert NoDollar(c[..o]) by {
      forall q | 0 <= q < o ensures c[..o][q] != '$' { }
    }
    SpliceNoDollar(c[..o], 0, es[..j]);
  }

  /** One resolution step on the staged splices: the `j`-th key gives way to its new text. */
  lemma ResolveStep(c: string, cs: seq<Change>, keys: seq<string>, j: nat)
    requires Ordered(c, cs) && |keys| == |cs| && j < |cs|
    requires |keys[j]| >= 1 && keys[j][0] == '$'
    requires NoDollar(c) && forall k :: 0 <= k <= j ==> NoDollar(cs[k].replacement)
    ensures Laid(c, 0, Staged(cs, keys, j)) && Laid(c, 0, Staged(cs, keys, j + 1))
    ensures Replace(SpliceFrom(c, 0, Staged(cs, keys, j)), keys[j], cs[j].replacement)
      == SpliceFrom(c, 0, Staged(cs, keys, j + 1))
  {
    var es := Staged(cs, keys, j);
    var es' := Staged(cs, keys, j + 1);
    StagedLaid(c, cs, keys, j);
    StagedLaid(c, cs, keys, j + 1);
    assert es[..j] == es'[..j];
    assert es[j + 1..] == es'[j + 1..];
    ReplaceSplicedKey(c, es, es', j, cs[j].replacement);
  }

  /** Resolution from the `j`-th key on reaches the direct splice. */
  lemma {:induction false} ResolveFrom(c: string, cs: seq<Change>, keys: seq<string>, j: nat)
    requires Ordered(c, cs) && |keys| == |cs| && j <= |cs|
    requires forall k :: 0 <= k < |cs| ==> |keys[k]| >= 1 && keys[k][0] == '$'
    requires NoDollar(c) && forall k :: 0 <= k < |cs| ==> NoDollar(cs[k].replacement)
    ensures Laid(c, 0, Staged(cs, keys, j)) && Laid(c, 0, Replacements(cs))
    ensures ResolveAll(SpliceFrom(c, 0, Staged(cs, keys, j)), Entries(cs, keys)[j..]) == SpliceFrom(c, 0, Replacements(cs))
    decreases |cs| - j
  {
    StagedLaid(c, cs, keys, j);
    ReplacementsLaid(c, cs);
    var entries := Entries(cs, keys);
    if j == |cs| {
      assert Staged(cs, keys, j) == Replacements(cs);
      assert entries[j..] == [];
    } else {
      ResolveStep(c, cs, keys, j);
      assert entries[j..][0] == Entry(keys[j], cs[j].replacement);
      assert entries[j..][1..] == entries[j + 1..];
      ResolveFrom(c, cs, keys, j + 1);
    }
  }

  /**
   * The end-to-end theorem: when the text and the new texts have no `$` and
   * the keys fit their regions, the two-phase rewrite equals the direct splice of every
   * changed region at its own offset.
   */
  lemma TwoPhaseIsDirect(c: string, cs: seq<Change>, keys: seq<string>)
    requires Ordered(c, cs) && KeysFit(cs, keys)
    requires NoDollar(c) && forall k :: 0 <= k < |cs| ==> NoDollar(cs[k].replacement)
    ensures TwoPhase(c, cs, keys) == Direct(c, cs)
  {
    ResolveFrom(c, cs, keys, 0);
    assert Entries(cs, keys)[0..] == Entries(cs, keys);
  }
}
