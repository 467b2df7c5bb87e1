/**
 * The class-region locator: the regular expression `(?<=class=")([^"]+)`
 * applied with `matchAll` to the untouched document text, written out as a
 * left-to-right scan. At each position the lookbehind asks whether `class="`
 * ends there; the greedy run `[^"]+` then takes every character up to the
 * next `"` or the end of the text, and the search resumes after the run.
 */
module ClassLocator {

  /** The text the lookbehind requires just before a region. */
  const Opener: string := "class=\""

  /** A match: its offset in the original text and the text it covers. */
  datatype Region = Region(offset: nat, text: string) {
    /** One past the region's last character. */
    function End(): nat { offset + |text| }
  }

  /** The pattern can match at `p`: `class="` ends at `p` and `p` holds a character other than `"`. */
  predicate MatchStart(c: string, p: nat) {
    |Opener| <= p < |c| && c[p - |Opener|..p] == Opener && c[p] != '"'
  }

  /**
   * `r` is a region of `c` as the pattern finds it: right after `class="`,
   * non-empty, free of `"`, and running up to the next `"` or the end.
   */
  predicate IsRegion(c: string, r: Region) {
    && |Opener| <= r.offset
    && r.End() <= |c|
    && c[r.offset - |Opener|..r.offset] == Opener
    && |r.text| >= 1
    && c[r.offset..r.End()] == r.text
    && (forall q :: 0 <= q < |r.text| ==> r.text[q] != '"')
    && (r.End() == |c| || c[r.End()] == '"')
  }

  /** End of the greedy run `[^"]*` from `p`: the first `"` at or after `p`, or the end of `c`. */
  function RunEnd(c: string, p: nat): (e: nat)
    requires p <= |c|
    ensures p <= e <= |c|
    ensures forall q :: p <= q < e ==> c[q] != '"'
    ensures e == |c| || c[e] == '"'
    decreases |c| - p
  {
    if p == |c| || c[p] == '"' then p else RunEnd(c, p + 1)
  }

  /** A match can only start right after a `"`. */
  lemma MatchStartFollowsQuote(c: string, p: nat)
    requires MatchStart(c, p)
    ensures c[p - 1] == '"'
  {
    assert c[p - |Opener|..p][|Opener| - 1] == Opener[|Opener| - 1];
  }

  /** The run taken at a match start is a region. */
  lemma HeadIsRegion(c: string, pos: nat)
    requires MatchStart(c, pos)
    ensures IsRegion(c, Region(pos, c[pos..RunEnd(c, pos)]))
  {
    var e := RunEnd(c, pos);
    var t := c[pos..e];
    assert e > pos;
    forall q | 0 <= q < |t| ensures t[q] != '"' {
      assert t[q] == c[pos + q];
    }
  }

  /** The matches found by a search that starts at `pos`. */
  function ScanFrom(c: string, pos: nat): (rs: seq<Region>)
    requires pos <= |c|
    ensures forall k :: 0 <= k < |rs| ==> pos <= rs[k].offset && IsRegion(c, rs[k])
    ensures forall j, k :: 0 <= j < k < |rs| ==> rs[j].End() < rs[k].offset
    ensures forall p: nat :: pos <= p && MatchStart(c, p) ==> exists k :: 0 <= k < |rs| && rs[k].offset == p
    decreases |c| - pos
  {
    if pos == |c| then []
    else if MatchStart(c, pos) then
      var e := RunEnd(c, pos);
      var head := Region(pos, c[pos..e]);
      var rest := ScanFrom(c, e);
      HeadThenRest(c, pos, head, rest);
      [head] + rest
    else
      ScanFrom(c, pos + 1)
  }

  /** The step of the scan that takes a match at `pos` and resumes after it. */
  lemma HeadThenRest(c: string, pos: nat, head: Region, rest: seq<Region>)
    requires MatchStart(c, pos) && head == Region(pos, c[pos..RunEnd(c, pos)])
    requires forall k :: 0 <= k < |rest| ==> head.End() <= rest[k].offset && IsRegion(c, rest[k])
    requires forall j, k :: 0 <= j < k < |rest| ==> rest[j].End() < rest[k].offset
    requires forall p: nat :: head.End() <= p && MatchStart(c, p) ==> exists k :: 0 <= k < |rest| && rest[k].offset == p
    ensures forall k :: 0 <= k < |[head] + rest| ==> pos <= ([head] + rest)[k].offset && IsRegion(c, ([head] + rest)[k])
    ensures forall j, k :: 0 <= j < k < |[head] + rest| ==> ([head] + rest)[j].End() < ([head] + rest)[k].offset
    ensures forall p: nat :: pos <= p && MatchStart(c, p) ==> exists k :: 0 <= k < |[head] + rest| && ([head] + rest)[k].offset == p
  {
    HeadThenRestPlaced(c, pos, head, rest);
    HeadThenRestOrdered(c, pos, head, rest);
    HeadThenRestComplete(c, pos, head, rest);
  }

  lemma HeadThenRestPlaced(c: string, pos: nat, head: Region, rest: seq<Region>)
    requires MatchStart(c, pos) && head == Region(pos, c[pos..RunEnd(c, pos)])
    requires forall k :: 0 <= k < |rest| ==> head.End() <= rest[k].offset && IsRegion(c, rest[k])
    ensures forall k :: 0 <= k < |[head] + rest| ==> pos <= ([head] + rest)[k].offset && IsRegion(c, ([head] + rest)[k])
  {
    var rs := [head] + rest;
    HeadIsRegion(c, pos);
    forall k | 0 <= k < |rs| ensures pos <= rs[k].offset && IsRegion(c, rs[k]) {
      if k > 0 { assert rs[k] == rest[k - 1]; }
    }
  }

  lemma HeadThenRestOrdered(c: string, pos: nat, head: Region, rest: seq<Region>)
    requires MatchStart(c, pos) && head == Region(pos, c[pos..RunEnd(c, pos)])
    requires forall k :: 0 <= k < |rest| ==> head.End() <= rest[k].offset && IsRegion(c, rest[k])
    requires forall j, k :: 0 <= j < k < |rest| ==> rest[j].End() < rest[k].offset
    ensures forall j, k :: 0 <= j < k < |[head] + rest| ==> ([head] + rest)[j].End() < ([head] + rest)[k].offset
  {
    var rs := [head] + rest;
    forall k | 0 <= k < |rest| ensures head.End() < rest[k].offset {
      assert c[rest[k].offset] == rest[k].text[0] != '"';
    }
  }

  lemma HeadThenRestComplete(c: string, pos: nat, head: Region, rest: seq<Region>)
    requires MatchStart(c, pos) && head == Region(pos, c[pos..RunEnd(c, pos)])
    requires forall p: nat :: head.End() <= p && MatchStart(c, p) ==> exists k :: 0 <= k < |rest| && rest[k].offset == p
    ensures forall p: nat :: pos <= p && MatchStart(c, p) ==> exists k :: 0 <= k < |[head] + rest| && ([head] + rest)[k].offset == p
  {
    var rs := [head] + rest;
    NothingInsideRun(c, pos, RunEnd(c, pos));
    forall p: nat | pos <= p && MatchStart(c, p) ensures exists k :: 0 <= k < |rs| && rs[k].offset == p {
      if p == pos {
        assert rs[0].offset == p;
      } else {
        var k :| 0 <= k < |rest| && rest[k].offset == p;
        assert rs[k + 1].offset == p;
      }
    }
  }

  /** No match starts strictly inside a run of non-`"` characters or right at its end. */
  lemma NothingInsideRun(c: string, pos: nat, e: nat)
    requires pos <= e <= |c|
    requires forall q :: pos <= q < e ==> c[q] != '"'
    ensures forall p: nat :: pos < p <= e ==> !MatchStart(c, p)
  {
    forall p: nat | pos < p <= e && MatchStart(c, p) ensures false {
      MatchStartFollowsQuote(c, p);
    }
  }

  /** At a match start the scan takes the run there and resumes after it. */
  lemma ScanTake(c: string, p: nat)
    requires MatchStart(c, p)
    ensures ScanFrom(c, p) == [Region(p, c[p..RunEnd(c, p)])] + ScanFrom(c, RunEnd(c, p))
  {
  }

  /** The regions are what the scan from the start finds. */
  lemma RegionsAreScan(c: string)
    ensures Regions(c) == ScanFrom(c, 0)
  {
  }

  /** No match can start in `[lo, hi)`. */
  predicate NoMatchIn(c: string, lo: nat, hi: nat) {
    forall r: nat :: lo <= r < hi ==> !MatchStart(c, r)
  }

  /** Positions where no match can start are passed over by the scan. */
  lemma {:induction false} ScanSkip(c: string, p: nat, q: nat)
    requires p <= q <= |c|
    requires NoMatchIn(c, p, q)
    ensures ScanFrom(c, p) == ScanFrom(c, q)
    decreases q - p
  {
    if p < q {
      ScanSkip(c, p + 1, q);
    }
  }

  /**
   * A text with exactly two match positions `a` and `b`, the first run ending
   * at `ea` before `b`, is scanned into exactly those two regions.
   */
  lemma TwoRegions(c: string, a: nat, ea: nat, b: nat, eb: nat, x: string, y: string)
    requires a < ea <= b < eb <= |c|
    requires MatchStart(c, a) && RunEnd(c, a) == ea && MatchStart(c, b) && RunEnd(c, b) == eb
    requires NoMatchIn(c, 0, a) && NoMatchIn(c, ea, b) && NoMatchIn(c, eb, |c|)
    requires c[a..ea] == x && c[b..eb] == y
    ensures ScanFrom(c, 0) == [Region(a, x), Region(b, y)]
  {
    TakeAfterSkip(c, 0, a, ea);
    TakeLast(c, ea, b, eb);
    Pair(ScanFrom(c, 0), Region(a, c[a..ea]), ScanFrom(c, ea), Region(b, c[b..eb]));
  }

  lemma Pair<T>(s: seq<T>, x: T, t: seq<T>, y: T)
    requires s == [x] + t && t == [y]
    ensures s == [x, y]
  {
  }

  /** With no match in `[p, b)`, one at `b` and none from `eb` on, the scan from `p` finds that one only. */
  lemma TakeLast(c: string, p: nat, b: nat, eb: nat)
    requires p <= b && MatchStart(c, b) && RunEnd(c, b) == eb
    requires NoMatchIn(c, p, b) && NoMatchIn(c, eb, |c|)
    ensures ScanFrom(c, p) == [Region(b, c[b..eb])]
  {
    TakeAfterSkip(c, p, b, eb);
    ScanSkip(c, eb, |c|);
  }

  /** With no match in `[p, a)` and one at `a`, the scan from `p` takes the run at `a` first. */
  lemma TakeAfterSkip(c: string, p: nat, a: nat, ea: nat)
    requires p <= a && MatchStart(c, a) && RunEnd(c, a) == ea
    requires NoMatchIn(c, p, a)
    ensures ScanFrom(c, p) == [Region(a, c[a..ea])] + ScanFrom(c, ea)
  {
    ScanSkip(c, p, a);
    ScanTake(c, a);
  }

  /**
   * `content.matchAll(/(?<=class=")([^"]+)/g)`, materialised. The regions
   * come left to right and do not overlap, each is well placed in the
   * original text, and their offsets are exactly the positions where the
   * pattern can match.
   */
  function Regions(c: string): (rs: seq<Region>)
    ensures forall k :: 0 <= k < |rs| ==> IsRegion(c, rs[k])
    ensures forall j, k :: 0 <= j < k < |rs| ==> rs[j].End() < rs[k].offset
    ensures forall p: nat :: MatchStart(c, p) <==> exists k :: 0 <= k < |rs| && rs[k].offset == p
  {
    var rs := ScanFrom(c, 0);
    forall k | 0 <= k < |rs| ensures MatchStart(c, rs[k].offset) {
      assert c[rs[k].offset] == rs[k].text[0];
    }
    rs
  }
}
