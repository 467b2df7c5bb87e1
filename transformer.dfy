/**
 * The token transformer: a class list is split on single spaces, each token
 * is put to the utility oracle, a recognised token gets the prefix (after a
 * leading `!` if it has one), and the tokens are joined again with single
 * spaces. The oracle is a parameter `isUtility`; it is asked about the token
 * exactly as written, leading `!` included.
 */
module TokenTransformer {
  import opened JsString

  /** Whether a token starts with the negation marker `!`. */
  predicate Negated(t: string) {
    |t| > 0 && t[0] == '!'
  }

  /**
   * One token: left alone when the oracle does not recognise it; otherwise
   * prefixed, with a leading `!` kept in front of the prefix.
   */
  function TransformToken(isUtility: string -> bool, prefix: string, t: string): (u: string)
    ensures !isUtility(t) ==> u == t
    ensures isUtility(t) ==> |u| == |t| + |prefix|
    ensures isUtility(t) && Negated(t) ==> u == "!" + prefix + t[1..]
    ensures isUtility(t) && !Negated(t) ==> u == prefix + t
  {
    if !isUtility(t) then t
    else if Negated(t) then "!" + prefix + t[1..]
    else prefix + t
  }

  /** The tokens, each transformed, in their original order. */
  function MapTokens(isUtility: string -> bool, prefix: string, ts: seq<string>): (us: seq<string>)
    ensures |us| == |ts|
    ensures forall k :: 0 <= k < |ts| ==> us[k] == TransformToken(isUtility, prefix, ts[k])
    decreases |ts|
  {
    if ts == [] then [] else [TransformToken(isUtility, prefix, ts[0])] + MapTokens(isUtility, prefix, ts[1..])
  }

  /** How many of the tokens the oracle recognises. */
  function Recognised(isUtility: string -> bool, ts: seq<string>): nat
    decreases |ts|
  {
    if ts == [] then 0 else (if isUtility(ts[0]) then 1 else 0) + Recognised(isUtility, ts[1..])
  }

  /** The new text of one class list. */
  function TransformRegion(isUtility: string -> bool, prefix: string, s: string): string {
    Join(MapTokens(isUtility, prefix, Split(s)))
  }

  /**
   * With a space-free prefix, the output splits into exactly as many tokens
   * as the input, the k-th being the transform of the k-th input token.
   */
  lemma TokensPreserved(isUtility: string -> bool, prefix: string, s: string)
    requires ' ' !in prefix
    ensures Split(TransformRegion(isUtility, prefix, s)) == MapTokens(isUtility, prefix, Split(s))
    ensures |Split(TransformRegion(isUtility, prefix, s))| == |Split(s)|
  {
    var ts := Split(s);
    var us := MapTokens(isUtility, prefix, ts);
    forall k | 0 <= k < |us| ensures ' ' !in us[k] {
      var t := ts[k];
      if isUtility(t) && Negated(t) {
        assert ' ' !in t[1..] by {
          forall q | 0 <= q < |t[1..]| ensures t[1..][q] != ' ' {
            assert t[1..][q] == t[q + 1];
          }
        }
        assert us[k] == "!" + prefix + t[1..];
      }
    }
    SplitJoin(us);
  }

  /** Each recognised token adds the prefix's length and nothing else changes length. */
  lemma {:induction false} JoinMappedLength(isUtility: string -> bool, prefix: string, ts: seq<string>)
    ensures |Join(MapTokens(isUtility, prefix, ts))| == |Join(ts)| + |prefix| * Recognised(isUtility, ts)
    decreases |ts|
  {
    if |ts| == 1 {
      assert MapTokens(isUtility, prefix, ts) == [TransformToken(isUtility, prefix, ts[0])];
    } else if |ts| >= 2 {
      var us := MapTokens(isUtility, prefix, ts);
      JoinMappedLength(isUtility, prefix, ts[1..]);
      assert us[1..] == MapTokens(isUtility, prefix, ts[1..]);
      var r := Recognised(isUtility, ts[1..]);
      var b := if isUtility(ts[0]) then 1 else 0;
      assert |prefix| * (b + r) == |prefix| * b + |prefix| * r;
    }
  }

  /** The output is longer than the input by the prefix's length for each recognised token. */
  lemma LengthGrowth(isUtility: string -> bool, prefix: string, s: string)
    ensures |TransformRegion(isUtility, prefix, s)| == |s| + |prefix| * Recognised(isUtility, Split(s))
  {
    JoinMappedLength(isUtility, prefix, Split(s));
    JoinSplit(s);
  }

  /**
   * A class list comes back unchanged exactly when the prefix is empty or no
   * token is recognised; this is the test that makes the rewrite skip it.
   */
  lemma UnchangedIff(isUtility: string -> bool, prefix: string, s: string)
    ensures TransformRegion(isUtility, prefix, s) == s <==> (prefix == "" || Recognised(isUtility, Split(s)) == 0)
  {
    var n := Recognised(isUtility, Split(s));
    if prefix == "" || n == 0 {
      NothingToPrefix(isUtility, prefix, s);
    } else {
      LengthGrowth(isUtility, prefix, s);
      assert |prefix| * n >= 1 by {
        assert |prefix| >= 1 && n >= 1;
        assert |prefix| * n >= 1 * n;
      }
    }
  }

  /** With an empty prefix or no recognised token, every token and so the class list stays as it is. */
  lemma NothingToPrefix(isUtility: string -> bool, prefix: string, s: string)
    requires prefix == "" || Recognised(isUtility, Split(s)) == 0
    ensures TransformRegion(isUtility, prefix, s) == s
  {
    var ts := Split(s);
    var n := Recognised(isUtility, ts);
    forall k | 0 <= k < |ts| ensures TransformToken(isUtility, prefix, ts[k]) == ts[k] {
      if isUtility(ts[k]) {
        if n == 0 {
          RecognisedZero(isUtility, ts, k);
        } else if Negated(ts[k]) {
          assert "!" + prefix + ts[k][1..] == [ts[k][0]] + ts[k][1..] == ts[k];
        }
      }
    }
    assert MapTokens(isUtility, prefix, ts) == ts;
    JoinSplit(s);
  }

  /** A class list that the transform changes at all comes back strictly longer. */
  lemma ChangedIsLonger(isUtility: string -> bool, prefix: string, s: string)
    requires TransformRegion(isUtility, prefix, s) != s
    ensures |TransformRegion(isUtility, prefix, s)| > |s|
  {
    UnchangedIff(isUtility, prefix, s);
    LengthGrowth(isUtility, prefix, s);
    var n := Recognised(isUtility, Split(s));
    assert |prefix| * n >= 1 by {
      assert |prefix| >= 1 && n >= 1;
      assert |prefix| * n >= 1 * n;
    }
  }

  /** When no token is recognised, the oracle rejects each of them. */
  lemma {:induction false} RecognisedZero(isUtility: string -> bool, ts: seq<string>, k: nat)
    requires Recognised(isUtility, ts) == 0 && k < |ts|
    ensures !isUtility(ts[k])
    decreases |ts|
  {
    if k > 0 {
      RecognisedZero(isUtility, ts[1..], k - 1);
    }
  }

  /** A character that is neither a space nor in the input or the prefix does not appear in the output. */
  lemma Avoids(isUtility: string -> bool, prefix: string, s: string, c: char)
    requires c !in s && c !in prefix && c != ' '
    ensures c !in TransformRegion(isUtility, prefix, s)
  {
    var ts := Split(s);
    var us := MapTokens(isUtility, prefix, ts);
    SplitAvoids(s, c);
    forall k | 0 <= k < |us| ensures c !in us[k] {
      var t := ts[k];
      if isUtility(t) && Negated(t) {
        assert c !in t[1..] by {
          forall q | 0 <= q < |t[1..]| ensures t[1..][q] != c {
            assert t[1..][q] == t[q + 1];
          }
        }
        assert c != '!' by { assert t[0] == '!'; }
        assert us[k] == "!" + prefix + t[1..];
      }
    }
    JoinAvoids(us, c);
  }

  /**
   * Transforming twice changes nothing more, provided the prefix has no
   * space and the oracle does not recognise a token it has already prefixed.
   */
  lemma Idempotent(isUtility: string -> bool, prefix: string, s: string)
    requires ' ' !in prefix
    requires forall t :: isUtility(t) ==> !isUtility(TransformToken(isUtility, prefix, t))
    ensures TransformRegion(isUtility, prefix, TransformRegion(isUtility, prefix, s)) == TransformRegion(isUtility, prefix, s)
  {
    var ts := Split(s);
    var us := MapTokens(isUtility, prefix, ts);
    TokensPreserved(isUtility, prefix, s);
    forall k | 0 <= k < |us| ensures TransformToken(isUtility, prefix, us[k]) == us[k] {
      assert !isUtility(us[k]);
    }
    assert MapTokens(isUtility, prefix, us) == us;
  }

  /** A single recognised token without `!` and without spaces just gets the prefix. */
  lemma PrefixOne(isUtility: string -> bool, prefix: string, t: string)
    requires ' ' !in t && !Negated(t) && isUtility(t)
    ensures TransformRegion(isUtility, prefix, t) == prefix + t
  {
    SplitSpaceFree(t);
    assert MapTokens(isUtility, prefix, [t]) == [prefix + t];
  }

  /** A class list of two space-free tokens: each is transformed, and the single space between them stays. */
  lemma TransformTwo(isUtility: string -> bool, prefix: string, a: string, b: string)
    requires ' ' !in a && ' ' !in b
    ensures TransformRegion(isUtility, prefix, a + " " + b)
      == TransformToken(isUtility, prefix, a) + " " + TransformToken(isUtility, prefix, b)
  {
    SplitAfterPiece(a, b);
    SplitSpaceFree(b);
    assert Split(a + " " + b) == [a, b];
    var us := MapTokens(isUtility, prefix, [a, b]);
    assert us == [TransformToken(isUtility, prefix, a), TransformToken(isUtility, prefix, b)];
    assert us[1..] == [us[1]];
    assert Join(us) == us[0] + " " + Join(us[1..]);
  }
}
