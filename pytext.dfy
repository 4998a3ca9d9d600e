/**
 * The two string operations the service applies to the engine output:
 * Python's `str.strip()` and `str.split()`, both with no arguments. Both use
 * the same notion of whitespace, given here as an explicit set of code points.
 */
module PyText {

  /** The characters for which Python's `str.isspace()` holds: the code points
      with Unicode bidirectional class WS, B or S, or general category Zs. */
  predicate IsSpace(c: char) {
    var n := c as int;
    || (0x09 <= n <= 0x0D)
    || (0x1C <= n <= 0x20)
    || n == 0x85
    || n == 0xA0
    || n == 0x1680
    || (0x2000 <= n <= 0x200A)
    || n == 0x2028
    || n == 0x2029
    || n == 0x202F
    || n == 0x205F
    || n == 0x3000
  }

  predicate AllSpace(s: string) {
    forall i :: 0 <= i < |s| ==> IsSpace(s[i])
  }

  predicate NoSpace(s: string) {
    forall i :: 0 <= i < |s| ==> !IsSpace(s[i])
  }

  /** Neither the first nor the last character is whitespace. */
  predicate Trimmed(s: string) {
    s == "" || (!IsSpace(s[0]) && !IsSpace(s[|s| - 1]))
  }

  /** Drops the longest all-whitespace prefix. */
  function LStrip(s: string): (r: string)
    ensures |r| <= |s|
    ensures r == "" || !IsSpace(r[0])
  {
    if s != "" && IsSpace(s[0]) then LStrip(s[1..]) else s
  }

  /** Drops the longest all-whitespace suffix. */
  function RStrip(s: string): (r: string)
    ensures |r| <= |s|
    ensures r == "" || !IsSpace(r[|r| - 1])
  {
    if s != "" && IsSpace(s[|s| - 1]) then RStrip(s[..|s| - 1]) else s
  }

  /** Python's `s.strip()`: `s` without its leading and trailing whitespace. */
  function Strip(s: string): (r: string)
    ensures Trimmed(r)
  {
    RStripSplits(LStrip(s));
    RStrip(LStrip(s))
  }

  /** The length of the longest whitespace-free prefix of `s`. */
  function TokenEnd(s: string): (k: nat)
    ensures k <= |s|
    ensures NoSpace(s[..k])
    ensures k == |s| || IsSpace(s[k])
  {
    if s == "" || IsSpace(s[0]) then 0 else 1 + TokenEnd(s[1..])
  }

  /** Python's `s.split()`: the maximal runs of non-whitespace characters, in order. */
  function Words(s: string): (ws: seq<string>)
    decreases |s|
  {
    if s == "" then []
    else if IsSpace(s[0]) then Words(s[1..])
    else
      var k := TokenEnd(s);
      [s[..k]] + Words(s[k..])
  }

  /** Reference count of the maximal non-whitespace runs of `s`: scanning left
      to right, a run begins at each non-whitespace character that is not
      preceded by one (`inWord` tells whether the character before `s` was one). */
  function RunCount(s: string, inWord: bool): nat {
    if s == "" then 0
    else if IsSpace(s[0]) then RunCount(s[1..], false)
    else (if inWord then 0 else 1) + RunCount(s[1..], true)
  }

  /** `s` with every whitespace character removed. */
  function Squeeze(s: string): string {
    if s == "" then ""
    else (if IsSpace(s[0]) then "" else [s[0]]) + Squeeze(s[1..])
  }

  /** The concatenation of a sequence of strings. */
  function Concat(ws: seq<string>): string {
    if ws == [] then "" else ws[0] + Concat(ws[1..])
  }

  // ---------------------------------------------------------------------
  // Strip

  lemma {:induction false} LStripSpacePrefix(p: string, t: string)
    requires AllSpace(p)
    ensures LStrip(p + t) == LStrip(t)
    decreases |p|
  {
    if p != "" {
      assert (p + t)[1..] == p[1..] + t;
      LStripSpacePrefix(p[1..], t);
    } else {
      assert p + t == t;
    }
  }

  lemma {:induction false} LStripAppend(s: string, q: string)
    requires !AllSpace(s)
    ensures LStrip(s + q) == LStrip(s) + q
    decreases |s|
  {
    if IsSpace(s[0]) {
      assert (s + q)[1..] == s[1..] + q;
      assert !AllSpace(s[1..]) by {
        var i :| 0 <= i < |s| && !IsSpace(s[i]);
        assert s[1..][i - 1] == s[i];
      }
      LStripAppend(s[1..], q);
    }
  }

  lemma {:induction false} RStripSpaceSuffix(t: string, q: string)
    requires AllSpace(q)
    ensures RStrip(t + q) == RStrip(t)
    decreases |q|
  {
    if q != "" {
      assert (t + q)[..|t + q| - 1] == t + q[..|q| - 1];
      RStripSpaceSuffix(t, q[..|q| - 1]);
    } else {
      assert t + q == t;
    }
  }

  /** What `LStrip` drops is all whitespace, and what it keeps is the rest of `s`. */
  lemma {:induction false} LStripSplits(s: string)
    ensures s == s[..|s| - |LStrip(s)|] + LStrip(s)
    ensures AllSpace(s[..|s| - |LStrip(s)|])
    decreases |s|
  {
    if s != "" && IsSpace(s[0]) {
      LStripSplits(s[1..]);
      var k := |s| - |LStrip(s)|;
      assert s[1..][..k - 1] == s[1..k];
      assert s == [s[0]] + s[1..];
      assert s[..k] == [s[0]] + s[1..k];
    }
  }

  /** What `RStrip` drops is all whitespace, and what it keeps is the start of `s`. */
  lemma {:induction false} RStripSplits(s: string)
    ensures s == RStrip(s) + s[|RStrip(s)|..]
    ensures AllSpace(s[|RStrip(s)|..])
    decreases |s|
  {
    if s != "" && IsSpace(s[|s| - 1]) {
      var s' := s[..|s| - 1];
      RStripSplits(s');
      var k := |RStrip(s)|;
      assert s'[k..] + [s[|s| - 1]] == s[k..];
      assert s == s' + [s[|s| - 1]];
    } else {
      assert s[|s|..] == "";
    }
  }

  lemma LStripEmptyIffAllSpace(s: string)
    ensures LStrip(s) == "" <==> AllSpace(s)
  {
    LStripSplits(s);
    if LStrip(s) == "" {
      assert s[..|s|] == s;
    }
  }

  lemma StripParts(s: string, p: string, t: string, q: string)
    requires t == LStrip(s) && p == s[..|s| - |t|] && q == t[|RStrip(t)|..]
    ensures AllSpace(p) && AllSpace(q) && s == p + Strip(s) + q
  {
    LStripSplits(s);
    RStripSplits(t);
  }

  /** `strip()` removes whitespace only, and only at the two ends: `s` is the
      stripped text with nothing but whitespace on either side. */
  lemma StripIsCore(s: string)
    ensures exists p, q :: AllSpace(p) && AllSpace(q) && s == p + Strip(s) + q
  {
    var t := LStrip(s);
    StripParts(s, s[..|s| - |t|], t, t[|RStrip(t)|..]);
  }

  /** Stripping leaves nothing exactly when `s` is all whitespace. */
  lemma {:induction false} StripEmptyIffAllSpace(s: string)
    ensures Strip(s) == "" <==> AllSpace(s)
  {
    LStripEmptyIffAllSpace(s);
    RStripSplits(LStrip(s));
  }

  /** Whitespace added at either end does not change the stripped text. */
  lemma {:induction false} StripIgnoresPadding(p: string, s: string, q: string)
    requires AllSpace(p) && AllSpace(q)
    ensures Strip(p + s + q) == Strip(s)
  {
    assert p + s + q == p + (s + q);
    LStripSpacePrefix(p, s + q);
    if AllSpace(s) {
      assert AllSpace(s + q);
      LStripEmptyIffAllSpace(s + q);
      LStripEmptyIffAllSpace(s);
    } else {
      LStripAppend(s, q);
      RStripSpaceSuffix(LStrip(s), q);
    }
  }

  /** Stripping twice is stripping once. */
  lemma {:induction false} StripIdempotent(s: string)
    ensures Strip(Strip(s)) == Strip(s)
  {
  }

  /** A text with no whitespace at either end is its own stripped form. */
  lemma StripTrimmed(s: string)
    requires Trimmed(s)
    ensures Strip(s) == s
  {
  }

  /** `strip()` is determined by its two properties: whenever `s` is a trimmed
      text between two runs of whitespace, that text is what `strip()` returns. */
  lemma {:induction false} StripCharacterized(p: string, r: string, q: string)
    requires AllSpace(p) && AllSpace(q) && Trimmed(r)
    ensures Strip(p + r + q) == r
  {
    StripIgnoresPadding(p, r, q);
    StripTrimmed(r);
  }

  // ---------------------------------------------------------------------
  // Split

  lemma {:induction false} WordsSpacePrefix(p: string, t: string)
    requires AllSpace(p)
    ensures Words(p + t) == Words(t)
    decreases |p|
  {
    if p == "" {
      assert p + t == t;
    } else {
      assert (p + t)[1..] == p[1..] + t;
      WordsSpacePrefix(p[1..], t);
    }
  }

  lemma {:induction false} TokenEndAppend(t: string, q: string)
    requires AllSpace(q)
    ensures TokenEnd(t + q) == TokenEnd(t)
    decreases |t|
  {
    if t == "" {
      assert t + q == q;
    } else if !IsSpace(t[0]) {
      assert (t + q)[1..] == t[1..] + q;
      TokenEndAppend(t[1..], q);
    }
  }

  lemma {:induction false} WordsSpaceSuffix(s: string, q: string)
    requires AllSpace(q)
    ensures Words(s + q) == Words(s)
    decreases |s|
  {
    if s == "" {
      assert s + q == q;
      WordsSpacePrefix(q, "");
      assert q + "" == q;
    } else if IsSpace(s[0]) {
      assert (s + q)[1..] == s[1..] + q;
      WordsSpaceSuffix(s[1..], q);
    } else {
      var k := TokenEnd(s);
      TokenEndAppend(s, q);
      assert (s + q)[..k] == s[..k];
      assert (s + q)[k..] == s[k..] + q;
      WordsSpaceSuffix(s[k..], q);
    }
  }

  /** Every word `split()` returns is non-empty and free of whitespace. */
  lemma {:induction false} WordsAreTokens(s: string)
    ensures forall i :: 0 <= i < |Words(s)| ==> Words(s)[i] != "" && NoSpace(Words(s)[i])
    decreases |s|
  {
    if s != "" {
      if IsSpace(s[0]) {
        WordsAreTokens(s[1..]);
      } else {
        WordsAreTokens(s[TokenEnd(s)..]);
      }
    }
  }

  /** `split()` finds no word exactly when `s` is all whitespace. */
  lemma {:induction false} WordsEmptyIffAllSpace(s: string)
    ensures Words(s) == [] <==> AllSpace(s)
    decreases |s|
  {
    if s != "" {
      WordsEmptyIffAllSpace(s[1..]);
      assert AllSpace(s) <==> IsSpace(s[0]) && AllSpace(s[1..]) by {
        if IsSpace(s[0]) && AllSpace(s[1..]) {
          forall i | 0 <= i < |s| ensures IsSpace(s[i]) {
            if i > 0 { assert s[i] == s[1..][i - 1]; }
          }
        }
      }
    }
  }

  /** Whitespace added at either end does not change the words. */
  lemma {:induction false} WordsIgnorePadding(p: string, s: string, q: string)
    requires AllSpace(p) && AllSpace(q)
    ensures Words(p + s + q) == Words(s)
  {
    assert p + s + q == p + (s + q);
    WordsSpacePrefix(p, s + q);
    WordsSpaceSuffix(s, q);
  }

  /** Splitting the stripped text gives the same words as splitting the raw text. */
  lemma {:induction false} WordsOfStrip(s: string)
    ensures Words(Strip(s)) == Words(s)
  {
    var t := LStrip(s);
    LStripSplits(s);
    WordsSpacePrefix(s[..|s| - |t|], t);
    RStripSplits(t);
    WordsSpaceSuffix(RStrip(t), t[|RStrip(t)|..]);
  }

  lemma {:induction false} SqueezeAppend(a: string, b: string)
    ensures Squeeze(a + b) == Squeeze(a) + Squeeze(b)
    decreases |a|
  {
    if a == "" {
      assert a + b == b;
    } else {
      assert (a + b)[1..] == a[1..] + b;
      SqueezeAppend(a[1..], b);
    }
  }

  lemma {:induction false} SqueezeAllSpace(p: string)
    requires AllSpace(p)
    ensures Squeeze(p) == ""
    decreases |p|
  {
    if p != "" {
      SqueezeAllSpace(p[1..]);
    }
  }

  lemma {:induction false} SqueezeNoSpace(w: string)
    requires NoSpace(w)
    ensures Squeeze(w) == w
    decreases |w|
  {
    if w != "" {
      SqueezeNoSpace(w[1..]);
    }
  }

  /** The words, put back together, are exactly the non-whitespace characters
      of `s` in their original order: `split()` drops whitespace and nothing else. */
  lemma {:induction false} WordsKeepNonSpace(s: string)
    ensures Concat(Words(s)) == Squeeze(s)
    decreases |s|
  {
    if s != "" {
      if IsSpace(s[0]) {
        WordsKeepNonSpace(s[1..]);
      } else {
        var k := TokenEnd(s);
        assert s == s[..k] + s[k..];
        SqueezeAppend(s[..k], s[k..]);
        SqueezeNoSpace(s[..k]);
        WordsKeepNonSpace(s[k..]);
        assert ([s[..k]] + Words(s[k..]))[1..] == Words(s[k..]);
      }
    }
  }

  lemma {:induction false} RunCountSpacePrefix(p: string, t: string)
    requires AllSpace(p)
    ensures RunCount(p + t, false) == RunCount(t, false)
    decreases |p|
  {
    if p == "" {
      assert p + t == t;
    } else {
      assert (p + t)[1..] == p[1..] + t;
      RunCountSpacePrefix(p[1..], t);
    }
  }

  lemma {:induction false} RunCountInsideWord(w: string, t: string)
    requires NoSpace(w)
    ensures RunCount(w + t, true) == RunCount(t, true)
    decreases |w|
  {
    if w == "" {
      assert w + t == t;
    } else {
      assert (w + t)[1..] == w[1..] + t;
      RunCountInsideWord(w[1..], t);
    }
  }

  /** `len(s.split())` is the number of maximal non-whitespace runs of `s`. */
  lemma {:induction false} WordsCountRuns(s: string)
    ensures |Words(s)| == RunCount(s, false)
    decreases |s|
  {
    if s != "" {
      if IsSpace(s[0]) {
        WordsCountRuns(s[1..]);
      } else {
        var k := TokenEnd(s);
        assert s[1..] == s[1..k] + s[k..];
        RunCountInsideWord(s[1..k], s[k..]);
        WordsCountRuns(s[k..]);
      }
    }
  }


  /** The first token of `w + t` is `w` when `w` has no whitespace and `t` starts with some. */
  lemma {:induction false} TokenEndAt(w: string, t: string)
    requires NoSpace(w)
    requires t == "" || IsSpace(t[0])
    ensures TokenEnd(w + t) == |w|
    decreases |w|
  {
    if w == "" {
      assert w + t == t;
    } else {
      assert (w + t)[1..] == w[1..] + t;
      TokenEndAt(w[1..], t);
    }
  }

  lemma Regroup(p: string, w1: string, sep: string, w2: string, q: string)
    ensures p + w1 + sep + w2 + q == p + (w1 + (sep + w2)) + q
  {
  }

  /** A whitespace-free word followed by whitespace (or nothing) is split off whole. */
  lemma WordsCons(w: string, t: string)
    requires w != "" && NoSpace(w)
    requires t == "" || IsSpace(t[0])
    ensures Words(w + t) == [w] + Words(t)
  {
    TokenEndAt(w, t);
    assert (w + t)[..|w|] == w;
    assert (w + t)[|w|..] == t;
  }

  /** Stripping a padded pair of words separated by whitespace keeps the inner separator. */
  lemma TwoWordsStrip(p: string, w1: string, sep: string, w2: string, q: string)
    requires AllSpace(p) && AllSpace(sep) && AllSpace(q)
    requires w1 != "" && NoSpace(w1) && w2 != "" && NoSpace(w2)
    ensures Strip(p + w1 + sep + w2 + q) == w1 + sep + w2
  {
    var core := w1 + sep + w2;
    Regroup(p, w1, sep, w2, q);
    assert w1 + (sep + w2) == core;
    StripIgnoresPadding(p, core, q);
    assert core[0] == w1[0];
    assert core[|core| - 1] == w2[|w2| - 1];
    StripTrimmed(core);
  }

  /** Splitting a padded pair of words separated by whitespace gives exactly the two words. */
  lemma TwoWordsSplit(p: string, w1: string, sep: string, w2: string, q: string)
    requires AllSpace(p) && AllSpace(sep) && AllSpace(q)
    requires w1 != "" && NoSpace(w1) && w2 != "" && NoSpace(w2) && sep != ""
    ensures Words(p + w1 + sep + w2 + q) == [w1, w2]
  {
    Regroup(p, w1, sep, w2, q);
    WordsIgnorePadding(p, w1 + (sep + w2), q);
    WordsCons(w1, sep + w2);
    WordsSpacePrefix(sep, w2);
    assert w2 == w2 + "";
    WordsCons(w2, "");
  }

  /** The padded two-word example: `"  hello   world  "` has two words. */
  // The literal comes in through the requires so that it is only taken apart
  // by slicing; a literal in the ensures itself is unfolded character by
  // character, which costs far more.
  lemma HelloWorldCount(s: string)
    requires s == "  hello   world  "
    ensures |Words(s)| == 2
  {
    var p, w1, sep, w2, q := s[..2], s[2..7], s[7..10], s[10..15], s[15..];
    assert s == p + w1 + sep + w2 + q;
    TwoWordsSplit(p, w1, sep, w2, q);
  }
}
