/** The prefix-function matcher `KMP` of backend/src/matching.js. */
module Kmp {
  import opened Strings

  /** `k` is the length of a proper border of `p[..len]`: its prefix of length `k`
      is also its suffix. */
  ghost predicate IsBorder(p: Text, len: nat, k: nat)
  {
    k < len <= |p| && forall u, v :: 0 <= u < k && v == len - k + u ==> p[u] == p[v]
  }

  /** `k` is the longest proper border of `p[..len]`: the meaning of `lps[len - 1]`. */
  ghost predicate IsLongestBorder(p: Text, len: nat, k: nat)
  {
    IsBorder(p, len, k) && BordersAtMost(p, len, k)
  }

  /** No proper border of `p[..len]` is longer than `bound`. */
  ghost predicate BordersAtMost(p: Text, len: nat, bound: int)
  {
    forall k: nat :: IsBorder(p, len, k) ==> k <= bound
  }

  /** `p[..k]` is a suffix of `t[..i]`: the scan has matched `k` pattern characters at text index `i`. */
  ghost predicate Matched(t: Text, p: Text, i: nat, k: nat)
  {
    k <= i <= |t| && k <= |p| && forall u, v :: 0 <= u < k && v == i - k + u ==> p[u] == t[v]
  }

  /** No match longer than `j` that ends at `i` can be extended by `t[i]`. */
  ghost predicate NoLongerExtendable(t: Text, p: Text, i: nat, j: nat)
  {
    forall k: nat :: j < k < |p| && i < |t| && Matched(t, p, i, k) ==> t[i] != p[k]
  }

  /** The state of the scan at the head of its loop. */
  ghost predicate Scanning(t: Text, p: Text, i: nat, j: nat)
  {
    j < |p| && Matched(t, p, i, j) && NoLongerExtendable(t, p, i, j)
  }

  /** The occurrences that end at or before text index `e`: what the scan has reported at index `e`. */
  ghost function EndingBy(t: Text, p: Text, e: int): (r: seq<nat>)
  {
    OccurrencesBelow(t, p, e - |p| + 1)
  }

  lemma BorderTransitive(p: Text, i: nat, j: nat, k: nat)
    requires IsBorder(p, i, j) && IsBorder(p, j, k)
    ensures IsBorder(p, i, k)
  {
    forall u | 0 <= u < k ensures p[u] == p[i - k + u] {
      assert p[j - k + u] == p[i - j + (j - k + u)];
    }
  }

  /** A border followed by the character that follows the prefix grows by one. */
  lemma BorderExtend(p: Text, i: nat, j: nat)
    requires IsBorder(p, i, j) && i < |p| && p[i] == p[j]
    ensures IsBorder(p, i + 1, j + 1)
  {
  }

  /** A match followed by the matching text character grows by one. */
  lemma MatchedExtend(t: Text, p: Text, i: nat, j: nat)
    requires Matched(t, p, i, j) && i < |t| && j < |p| && t[i] == p[j]
    ensures Matched(t, p, i + 1, j + 1)
  {
  }

  /** A border of `p[..i]` shorter than the border `j` is a border of `p[..j]`. */
  lemma BorderOfLonger(p: Text, i: nat, j: nat)
    requires IsBorder(p, i, j)
    ensures forall k: nat :: k < j && IsBorder(p, i, k) ==> IsBorder(p, j, k)
  {
    forall k: nat, u | k < j && IsBorder(p, i, k) && 0 <= u < k
      ensures p[u] == p[j - k + u]
    {
      assert p[j - k + u] == p[i - j + (j - k + u)];
    }
  }

  /** A non-empty border of `p[..len]` is a border of `p[..len - 1]` extended by `p[len - 1]`. */
  lemma BordersShrink(p: Text, len: nat)
    requires 0 < len <= |p|
    ensures forall k: nat :: 0 < k && IsBorder(p, len, k) ==> IsBorder(p, len - 1, k - 1) && p[k - 1] == p[len - 1]
  {
    forall k: nat | 0 < k && IsBorder(p, len, k) ensures p[k - 1] == p[len - 1] {
      assert p[k - 1] == p[len - k + (k - 1)];
    }
  }

  /** Two matches ending at the same text index: the shorter is a border of the longer. */
  lemma MatchedBorder(t: Text, p: Text, i: nat, j: nat)
    requires Matched(t, p, i, j)
    ensures forall k: nat :: k < j && Matched(t, p, i, k) ==> IsBorder(p, j, k)
  {
    forall k: nat, u | k < j && Matched(t, p, i, k) && 0 <= u < k
      ensures p[u] == p[j - k + u]
    {
      assert p[j - k + u] == t[i - j + (j - k + u)];
    }
  }

  /** A border of a match is itself a match. */
  lemma BorderMatched(t: Text, p: Text, i: nat, j: nat, k: nat)
    requires Matched(t, p, i, j) && IsBorder(p, j, k)
    ensures Matched(t, p, i, k)
  {
    forall u | 0 <= u < k ensures p[u] == t[i - k + u] {
      assert p[j - k + u] == t[i - j + (j - k + u)];
    }
  }

  /** A non-empty match ending at `i` is a match ending at `i - 1` extended by `t[i - 1]`. */
  lemma MatchedShrink(t: Text, p: Text, i: nat)
    requires 0 < i <= |t|
    ensures forall k: nat :: 0 < k && Matched(t, p, i, k) ==> Matched(t, p, i - 1, k - 1) && t[i - 1] == p[k - 1]
  {
    forall k: nat | 0 < k && Matched(t, p, i, k) ensures t[i - 1] == p[k - 1] {
      assert p[k - 1] == t[i - k + (k - 1)];
    }
  }

  /** A full-length match ending at `i` is an occurrence starting at `i - |p|`. */
  lemma MatchedOccurs(t: Text, p: Text, i: nat)
    requires |p| <= i <= |t|
    ensures Matched(t, p, i, |p|) <==> OccursAt(t, p, i - |p|)
  {
    if OccursAt(t, p, i - |p|) {
      forall u | 0 <= u < |p| ensures p[u] == t[i - |p| + u] {
        assert t[(i - |p|) + u] == p[u];
      }
    }
  }

  /** Lines 31-33: extending the match by one character keeps the scan's state. */
  lemma Advance(t: Text, p: Text, i: nat, j: nat)
    requires Scanning(t, p, i, j) && i < |t| && t[i] == p[j]
    ensures Matched(t, p, i + 1, j + 1)
    ensures NoLongerExtendable(t, p, i + 1, j + 1)
  {
    MatchedExtend(t, p, i, j);
    MatchedShrink(t, p, i + 1);
  }

  /** After extending the match, an occurrence ends at the new index exactly when
      the match has reached the full pattern (line 36). */
  lemma AdvanceReports(t: Text, p: Text, i: nat, j: nat)
    requires Scanning(t, p, i, j) && i < |t| && t[i] == p[j]
    ensures j + 1 == |p| ==> EndingBy(t, p, i + 1) == EndingBy(t, p, i) + [i + 1 - |p|]
    ensures j + 1 < |p| ==> EndingBy(t, p, i + 1) == EndingBy(t, p, i)
  {
    if j + 1 == |p| {
      AdvanceCompletes(t, p, i, j);
    } else {
      AdvancePartial(t, p, i, j);
    }
  }

  lemma AdvanceCompletes(t: Text, p: Text, i: nat, j: nat)
    requires Scanning(t, p, i, j) && i < |t| && t[i] == p[j] && j + 1 == |p|
    ensures EndingBy(t, p, i + 1) == EndingBy(t, p, i) + [i + 1 - |p|]
  {
    MatchedExtend(t, p, i, j);
    MatchedOccurs(t, p, i + 1);
    OccurrencesBelowNext(t, p, i + 1 - |p|);
  }

  lemma AdvancePartial(t: Text, p: Text, i: nat, j: nat)
    requires Scanning(t, p, i, j) && i < |t| && t[i] == p[j] && j + 1 < |p|
    ensures EndingBy(t, p, i + 1) == EndingBy(t, p, i)
  {
    if i + 1 >= |p| {
      var k := |p| - 1;
      if Matched(t, p, i, k) {
        assert t[i] != p[k];
        assert t[(i + 1) - |p| + k] != p[k];
      } else {
        MatchedShrink(t, p, i + 1);
      }
      assert !Matched(t, p, i + 1, |p|);
      MatchedOccurs(t, p, i + 1);
    }
    OccurrencesBelowNext(t, p, i + 1 - |p|);
  }

  /** At the end of the text the scan has reported every occurrence. */
  lemma ScannedAll(t: Text, p: Text)
    ensures EndingBy(t, p, |t|) == Occurrences(t, p)
  {
  }

  /** Lines 38 and 41: falling back to the longest border `b` of the current match,
      after a full match or after a mismatch at pattern index `j`. */
  lemma FallBack(t: Text, p: Text, i: nat, j: nat, b: nat)
    requires 0 < j <= |p| && Matched(t, p, i, j) && NoLongerExtendable(t, p, i, j)
    requires IsLongestBorder(p, j, b)
    requires j == |p| || (i < |t| && t[i] != p[j])
    ensures Scanning(t, p, i, b)
  {
    BorderMatched(t, p, i, j, b);
    MatchedBorder(t, p, i, j);
  }

  /** Line 43: with nothing matched and a mismatch, the scan moves past `t[i]`;
      no occurrence ends at `i + 1`. */
  lemma Skip(t: Text, p: Text, i: nat)
    requires Scanning(t, p, i, 0) && i < |t| && t[i] != p[0]
    ensures Scanning(t, p, i + 1, 0)
    ensures EndingBy(t, p, i + 1) == EndingBy(t, p, i)
  {
    MatchedShrink(t, p, i + 1);
    OccurrencesBelowNext(t, p, i + 1 - |p|);
    if i + 1 >= |p| {
      MatchedOccurs(t, p, i + 1);
    }
  }

  /** Lines 8-11: when `pattern[i]` extends the border `j` of `pattern[..i]`, the
      extended border is the longest of `pattern[..i + 1]`, and it bounds the borders
      of the next prefix. */
  lemma LpsExtend(p: Text, i: nat, j: nat)
    requires IsBorder(p, i, j) && BordersAtMost(p, i + 1, j + 1) && i < |p| && p[i] == p[j]
    ensures IsLongestBorder(p, i + 1, j + 1)
    ensures i + 1 < |p| ==> BordersAtMost(p, i + 2, j + 2)
  {
    BorderExtend(p, i, j);
    if i + 1 < |p| {
      BordersShrink(p, i + 2);
    }
  }

  /** Lines 13-14: on a mismatch, falling back from `j` to the longest border `b`
      of `pattern[..j]` loses no candidate border of `pattern[..i + 1]`. */
  lemma LpsFallBack(p: Text, i: nat, j: nat, b: nat)
    requires IsBorder(p, i, j) && BordersAtMost(p, i + 1, j + 1) && i < |p| && p[i] != p[j]
    requires 0 < j && IsLongestBorder(p, j, b)
    ensures IsBorder(p, i, b) && BordersAtMost(p, i + 1, b + 1)
  {
    BorderTransitive(p, i, j, b);
    BordersShrink(p, i + 1);
    BorderOfLonger(p, i, j);
    var len := i + 1;
    forall k: nat | IsBorder(p, len, k) ensures k <= b + 1 {
      if 0 < k {
        assert IsBorder(p, i, k - 1) && p[k - 1] == p[i];
        assert k - 1 != j;
        assert IsBorder(p, j, k - 1);
      }
    }
  }

  /** Lines 15-17: with no border left to extend, `pattern[..i + 1]` has none. */
  lemma LpsNone(p: Text, i: nat)
    requires 0 < i < |p| && BordersAtMost(p, i + 1, 1) && p[i] != p[0]
    ensures IsLongestBorder(p, i + 1, 0)
    ensures i + 1 < |p| ==> BordersAtMost(p, i + 2, 1)
  {
    BordersShrink(p, i + 1);
    if i + 1 < |p| {
      BordersShrink(p, i + 2);
    }
  }

  /** `KMP.LPS` (matching.js:2-22): the failure table. Entry `q` is the length of the
      longest proper prefix of `pattern[..q + 1]` that is also its suffix. */
  method Lps(pattern: Text) returns (lps: seq<nat>)
    ensures |lps| == |pattern|
    ensures |pattern| > 0 ==> lps[0] == 0
    ensures forall q :: 0 <= q < |pattern| ==> IsLongestBorder(pattern, q + 1, lps[q])
  {
    var m := |pattern|;
    var table := new nat[m](_ => 0);
    var j: nat := 0;
    var i: nat := 1;
    if m > 1 {
      BordersShrink(pattern, 2);
    }
    while i < m
      invariant j < i && (m > 0 ==> i <= m)
      invariant forall q :: 0 <= q < i && q < m ==> IsLongestBorder(pattern, q + 1, table[q])
      invariant i < m ==> IsBorder(pattern, i, j) && BordersAtMost(pattern, i + 1, j + 1)
      decreases m - i, j
    {
      if pattern[i] == pattern[j] {
        LpsExtend(pattern, i, j);
        j := j + 1;
        table[i] := j;
        i := i + 1;
      } else if j != 0 {
        LpsFallBack(pattern, i, j, table[j - 1]);
        j := table[j - 1];
      } else {
        LpsNone(pattern, i);
        table[i] := 0;
        i := i + 1;
      }
    }
    lps := table[..];
  }

  /** Lines 31-38: the character completes the pattern; after reporting
      it, the scan falls back to the longest border `b` of the whole pattern. */
  lemma CompleteStep(t: Text, p: Text, i: nat, j: nat, b: nat)
    requires Scanning(t, p, i, j) && i < |t| && t[i] == p[j] && j + 1 == |p|
    requires IsLongestBorder(p, |p|, b)
    ensures Scanning(t, p, i + 1, b)
    ensures EndingBy(t, p, i + 1) == EndingBy(t, p, i) + [i + 1 - |p|]
  {
    Advance(t, p, i, j);
    AdvanceCompletes(t, p, i, j);
    FallBack(t, p, i + 1, j + 1, b);
  }

  /** Lines 31-34: the character extends the match without completing the pattern. */
  lemma PartialStep(t: Text, p: Text, i: nat, j: nat)
    requires Scanning(t, p, i, j) && i < |t| && t[i] == p[j] && j + 1 < |p|
    ensures Scanning(t, p, i + 1, j + 1)
    ensures EndingBy(t, p, i + 1) == EndingBy(t, p, i)
  {
    Advance(t, p, i, j);
    AdvancePartial(t, p, i, j);
  }

  /** Lines 39-41: a mismatch after a non-empty match falls back to its longest border. */
  lemma MismatchStep(t: Text, p: Text, i: nat, j: nat, b: nat)
    requires Scanning(t, p, i, j) && i < |t| && t[i] != p[j] && 0 < j
    requires IsLongestBorder(p, j, b)
    ensures Scanning(t, p, i, b)
  {
    FallBack(t, p, i, j, b);
  }

  /** One pass of the loop body of `KMP.search` (matching.js:31-45): at least one of
      `i` and `j` moves, and the scan's state and its report are kept. */
  method Step(text: Text, pattern: Text, lps: seq<nat>, i: nat, j: nat, result: seq<nat>)
    returns (i': nat, j': nat, result': seq<nat>)
    requires |lps| == |pattern| && forall q :: 0 <= q < |pattern| ==> IsLongestBorder(pattern, q + 1, lps[q])
    requires i < |text| && Scanning(text, pattern, i, j) && result == EndingBy(text, pattern, i)
    ensures i <= i' <= |text| && (i < i' || j' < j)
    ensures Scanning(text, pattern, i', j') && result' == EndingBy(text, pattern, i')
  {
    i', j', result' := i, j, result;
    if text[i'] == pattern[j'] {
      if j' + 1 == |pattern| {
        CompleteStep(text, pattern, i', j', lps[j']);
      } else {
        PartialStep(text, pattern, i', j');
      }
      i' := i' + 1;
      j' := j' + 1;
    }
    if j' == |pattern| {
      result' := result' + [i' - j'];
      j' := lps[j' - 1];
    } else if i' < |text| && text[i'] != pattern[j'] {
      if j' != 0 {
        MismatchStep(text, pattern, i', j', lps[j' - 1]);
        j' := lps[j' - 1];
      } else {
        Skip(text, pattern, i');
        i' := i' + 1;
      }
    }
  }

  /** `KMP.search` (matching.js:24-48): every start position of `pattern` in `text`,
      overlapping ones included, in ascending order. With an empty pattern the scan
      never ends unless the text is empty too (`lps[-1]` at line 38 is undefined), so
      the caller must avoid exactly that case; empty text and pattern give `[]`. */
  method Search(text: Text, pattern: Text) returns (result: seq<nat>)
    requires |pattern| > 0 || |text| == 0
    ensures result == if |pattern| == 0 then [] else Occurrences(text, pattern)
  {
    var lps := Lps(pattern);
    var n, m := |text|, |pattern|;
    result := [];
    var i: nat, j: nat := 0, 0;
    while i < n
      invariant i <= n
      invariant m > 0 ==> Scanning(text, pattern, i, j) && result == EndingBy(text, pattern, i)
      invariant m == 0 ==> result == []
      decreases n - i, j
    {
      i, j, result := Step(text, pattern, lps, i, j, result);
    }
    if m > 0 {
      ScannedAll(text, pattern);
    }
  }
}
