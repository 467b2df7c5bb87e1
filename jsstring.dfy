/**
 * The JavaScript string built-ins that the rewrite calls: `split(' ')`,
 * `join(' ')`, `Number.prototype.toString()` on a non-negative integer,
 * `repeat`, `slice` and `replace` with a string pattern. A string is a
 * sequence of Unicode characters. A JavaScript string is a sequence of UTF-16
 * code units, so lengths and offsets agree with JavaScript's only when every
 * character lies in the Basic Multilingual Plane.
 */
module JsString {
  import opened Wrappers

  /** No character of `s` is a dollar sign. */
  predicate NoDollar(s: string) {
    forall k :: 0 <= k < |s| ==> s[k] != '$'
  }

  /** How many times `c` occurs in `s`. */
  function Occurrences(s: string, c: char): nat {
    if s == [] then 0 else (if s[0] == c then 1 else 0) + Occurrences(s[1..], c)
  }

  // ---------------------------------------------------------------------
  // s.split(' ') and parts.join(' ')
  // ---------------------------------------------------------------------

  /**
   * `s.split(' ')`: the pieces between single spaces. Two adjacent spaces
   * give an empty piece, and the empty string gives one empty piece.
   */
  function Split(s: string): (parts: seq<string>)
    ensures |parts| == Occurrences(s, ' ') + 1
    ensures forall k :: 0 <= k < |parts| ==> ' ' !in parts[k]
  {
    if s == [] then [""]
    else
      var rest := Split(s[1..]);
      if s[0] == ' ' then [""] + rest
      else [[s[0]] + rest[0]] + rest[1..]
  }

  /** `parts.join(' ')`. */
  function Join(parts: seq<string>): string {
    if |parts| == 0 then ""
    else if |parts| == 1 then parts[0]
    else parts[0] + " " + Join(parts[1..])
  }

  /** Joining the pieces of a split gives back the string. */
  lemma {:induction false} JoinSplit(s: string)
    ensures Join(Split(s)) == s
    decreases |s|
  {
    if s != [] {
      var rest := Split(s[1..]);
      JoinSplit(s[1..]);
      if s[0] == ' ' {
        assert Split(s) == [""] + rest;
        assert ([""] + rest)[1..] == rest;
        assert Join(Split(s)) == "" + " " + Join(rest);
        assert s == [s[0]] + s[1..];
      } else {
        var parts := [[s[0]] + rest[0]] + rest[1..];
        assert Split(s) == parts;
        if |rest| == 1 {
          assert Join(parts) == [s[0]] + rest[0];
          assert Join(rest) == rest[0];
        } else {
          assert parts[1..] == rest[1..];
          assert Join(parts) == [s[0]] + rest[0] + " " + Join(rest[1..]);
          assert Join(rest) == rest[0] + " " + Join(rest[1..]);
        }
        assert s == [s[0]] + s[1..];
      }
    }
  }

  /** A string without spaces splits into itself alone. */
  lemma {:induction false} SplitSpaceFree(p: string)
    requires ' ' !in p
    ensures Split(p) == [p]
    decreases |p|
  {
    if p != [] {
      assert ' ' !in p[1..] by {
        forall k | 0 <= k < |p[1..]| ensures p[1..][k] != ' ' {
          assert p[1..][k] == p[k + 1];
        }
      }
      SplitSpaceFree(p[1..]);
      assert p == [p[0]] + p[1..];
    }
  }

  /** A space-free piece followed by a space splits off as the first piece. */
  lemma {:induction false} SplitAfterPiece(p: string, s: string)
    requires ' ' !in p
    ensures Split(p + " " + s) == [p] + Split(s)
    decreases |p|
  {
    if p == [] {
      assert p + " " + s == [' '] + s;
      assert ([' '] + s)[1..] == s;
    } else {
      var t := p + " " + s;
      assert t[1..] == p[1..] + " " + s;
      assert ' ' !in p[1..] by {
        forall k | 0 <= k < |p[1..]| ensures p[1..][k] != ' ' {
          assert p[1..][k] == p[k + 1];
        }
      }
      SplitAfterPiece(p[1..], s);
      var rest := Split(t[1..]);
      assert rest == [p[1..]] + Split(s);
      assert t[0] == p[0];
      assert Split(t) == [[p[0]] + p[1..]] + rest[1..];
      assert [p[0]] + p[1..] == p;
      assert rest[1..] == Split(s);
    }
  }

  /** Splitting a join of space-free pieces gives back the pieces. */
  lemma {:induction false} SplitJoin(parts: seq<string>)
    requires |parts| >= 1
    requires forall k :: 0 <= k < |parts| ==> ' ' !in parts[k]
    ensures Split(Join(parts)) == parts
    decreases |parts|
  {
    if |parts| == 1 {
      SplitSpaceFree(parts[0]);
    } else {
      SplitJoin(parts[1..]);
      SplitAfterPiece(parts[0], Join(parts[1..]));
      assert parts == [parts[0]] + parts[1..];
    }
  }

  /** A character that is not a space and occurs in no piece does not occur in the join. */
  lemma {:induction false} JoinAvoids(parts: seq<string>, c: char)
    requires c != ' '
    requires forall k :: 0 <= k < |parts| ==> c !in parts[k]
    ensures c !in Join(parts)
    decreases |parts|
  {
    if |parts| >= 2 {
      JoinAvoids(parts[1..], c);
    }
  }

  /** A character missing from `s` is missing from every piece of its split. */
  lemma {:induction false} SplitAvoids(s: string, c: char)
    requires c !in s
    ensures forall k :: 0 <= k < |Split(s)| ==> c !in Split(s)[k]
    decreases |s|
  {
    if s != [] {
      assert c !in s[1..] by {
        forall k | 0 <= k < |s[1..]| ensures s[1..][k] != c {
          assert s[1..][k] == s[k + 1];
        }
      }
      SplitAvoids(s[1..], c);
    }
  }

  // ---------------------------------------------------------------------
  // n.toString() for a non-negative integer
  // ---------------------------------------------------------------------

  predicate IsDigit(c: char) {
    '0' <= c <= '9'
  }

  function DigitValue(c: char): nat
    requires IsDigit(c)
  {
    c as int - '0' as int
  }

  function Digit(d: nat): (c: char)
    requires d < 10
    ensures IsDigit(c) && DigitValue(c) == d
  {
    ('0' as int + d) as char
  }

  /** `n.toString()`: the decimal digits of `n`, most significant first, with no leading zero. */
  function Decimal(n: nat): (s: string)
    ensures |s| >= 1
    ensures forall k :: 0 <= k < |s| ==> IsDigit(s[k])
    ensures s[0] == '0' ==> n == 0
    decreases n
  {
    if n < 10 then [Digit(n)] else Decimal(n / 10) + [Digit(n % 10)]
  }

  /** The number a string of decimal digits denotes. */
  function ParseDecimal(s: string): nat
    requires forall k :: 0 <= k < |s| ==> IsDigit(s[k])
    decreases |s|
  {
    if s == [] then 0 else 10 * ParseDecimal(s[..|s| - 1]) + DigitValue(s[|s| - 1])
  }

  /** Reading the digits of `n` back gives `n`. */
  lemma {:induction false} ParseDecimalOfDecimal(n: nat)
    ensures ParseDecimal(Decimal(n)) == n
    decreases n
  {
    if n >= 10 {
      ParseDecimalOfDecimal(n / 10);
      var s := Decimal(n);
      assert s[..|s| - 1] == Decimal(n / 10);
    }
  }

  /** Different numbers have different decimal forms. */
  lemma DecimalInjective(m: nat, n: nat)
    requires Decimal(m) == Decimal(n)
    ensures m == n
  {
    ParseDecimalOfDecimal(m);
    ParseDecimalOfDecimal(n);
  }

  /** `String(c).repeat(n)`. */
  function Repeat(c: char, n: nat): (s: string)
    ensures |s| == n && forall k :: 0 <= k < n ==> s[k] == c
  {
    seq(n, _ => c)
  }

  // ---------------------------------------------------------------------
  // s.slice(start, end)
  // ---------------------------------------------------------------------

  /** `s.slice(start, end)` for non-negative arguments: both are clamped to the length. */
  function Slice(s: string, start: nat, end: nat): (r: string)
    ensures start <= end <= |s| ==> r == s[start..end]
    ensures |r| <= |s|
  {
    var from := if start < |s| then start else |s|;
    var to := if end < |s| then end else |s|;
    if from >= to then "" else s[from..to]
  }

  // ---------------------------------------------------------------------
  // s.replace(pattern, replacement) with a string pattern
  // ---------------------------------------------------------------------

  /** `pat` occurs in `s` at position `i`. */
  predicate OccursAt(s: string, pat: string, i: nat) {
    i + |pat| <= |s| && s[i..i + |pat|] == pat
  }

  /** The first position at or after `from` where `pat` occurs in `s`. */
  function IndexFrom(s: string, pat: string, from: nat): (r: Option<nat>)
    ensures r.Some? ==> from <= r.value && OccursAt(s, pat, r.value)
    ensures r.Some? ==> forall i: nat :: from <= i < r.value ==> !OccursAt(s, pat, i)
    ensures r.None? ==> forall i: nat :: from <= i ==> !OccursAt(s, pat, i)
    decreases |s| - from
  {
    if from + |pat| > |s| then None
    else if OccursAt(s, pat, from) then Some(from)
    else IndexFrom(s, pat, from + 1)
  }

  /** `s.indexOf(pat)`, with `None` for -1. */
  function IndexOf(s: string, pat: string): (r: Option<nat>)
    ensures r.Some? ==> OccursAt(s, pat, r.value) && forall i: nat :: i < r.value ==> !OccursAt(s, pat, i)
    ensures r.None? ==> forall i: nat :: !OccursAt(s, pat, i)
  {
    IndexFrom(s, pat, 0)
  }

  /**
   * The replacement text for a match of `matched` at `position` in `str`
   * (GetSubstitution of ECMA-262 for a string pattern, which has no capture
   * groups): `$$` stands for `$`, `$&` for the match, `` $` `` for the text
   * before it and `$'` for the text after it; every other `$` is literal.
   */
  function Substitution(matched: string, str: string, position: nat, repl: string): (r: string)
    requires position + |matched| <= |str|
    ensures NoDollar(repl) ==> r == repl
    decreases |repl|
  {
    if |repl| == 0 then ""
    else if repl[0] == '$' && |repl| >= 2 && repl[1] in "$&`'" then
      var piece :=
        if repl[1] == '$' then "$"
        else if repl[1] == '&' then matched
        else if repl[1] == '`' then str[..position]
        else str[position + |matched|..];
      piece + Substitution(matched, str, position, repl[2..])
    else
      [repl[0]] + Substitution(matched, str, position, repl[1..])
  }

  /** `s.replace(pat, repl)` for string arguments: only the first occurrence is replaced. */
  function Replace(s: string, pat: string, repl: string): (r: string)
    ensures (forall i: nat :: !OccursAt(s, pat, i)) ==> r == s
    ensures forall i: nat :: OccursAt(s, pat, i) && NoDollar(repl) && (forall j: nat :: j < i ==> !OccursAt(s, pat, j)) ==>
      r == s[..i] + repl + s[i + |pat|..]
  {
    match IndexOf(s, pat)
    case None => s
    case Some(i) => s[..i] + Substitution(pat, s, i, repl) + s[i + |pat|..]
  }

  /**
   * When the first character of `pat` does not occur in `p`, replacing `pat`
   * in `p + pat + t` by a dollar-free text hits exactly the spot right after `p`.
   */
  lemma ReplaceFirst(p: string, pat: string, t: string, v: string)
    requires NoDollar(v)
    requires |pat| >= 1 && pat[0] !in p
    ensures IndexOf(p + pat + t, pat) == Some(|p|)
    ensures Replace(p + pat + t, pat, v) == p + v + t
  {
    var s := p + pat + t;
    forall i: nat | i < |p| ensures !OccursAt(s, pat, i) {
      assert s[i] == p[i] != pat[0];
      assert i + |pat| <= |s| ==> s[i..i + |pat|][0] == s[i];
    }
    assert s[|p|..|p| + |pat|] == pat;
    assert OccursAt(s, pat, |p|);
    assert s[..|p|] == p;
    assert s[|p| + |pat|..] == t;
  }

  /**
   * A key that starts with `$` and follows a dollar-free text `p` is first
   * found right after `p`, so replacing it by a dollar-free text hits exactly
   * that spot.
   */
  lemma ReplaceFirstKey(p: string, key: string, t: string, v: string)
    requires NoDollar(p) && NoDollar(v)
    requires |key| >= 1 && key[0] == '$'
    ensures IndexOf(p + key + t, key) == Some(|p|)
    ensures Replace(p + key + t, key, v) == p + v + t
  {
    ReplaceFirst(p, key, t, v);
  }
}
