/** The bad-character matcher `BoyerMoore` of backend/src/matching.js. */
module BoyerMoore {
  import opened Strings

  /** `k` is the last index of `c` in `p`. */
  predicate IsLastIndex(p: Text, c: CodeUnit, k: nat)
  {
    k < |p| && p[k] == c && forall k' :: k < k' < |p| ==> p[k'] != c
  }

  /** `table` maps every character of `p`, and nothing else, to its last index in `p`. */
  ghost predicate IsLastIndexTable(p: Text, table: map<CodeUnit, nat>)
  {
    (forall c :: c in table <==> c in p) &&
    forall c :: c in table ==> IsLastIndex(p, c, table[c])
  }

  /** `BoyerMoore.badCharTable` (matching.js:58-65): each character of the pattern
      mapped to the index of its last occurrence. */
  method BadCharTable(pattern: Text) returns (table: map<CodeUnit, nat>)
    ensures IsLastIndexTable(pattern, table)
  {
    table := map[];
    for i := 0 to |pattern|
      invariant forall c :: c in table <==> c in pattern[..i]
      invariant forall c :: c in table ==> IsLastIndex(pattern[..i], c, table[c])
    {
      assert pattern[..i + 1] == pattern[..i] + [pattern[i]];
      table := table[pattern[i] := i];
    }
    assert pattern[..|pattern|] == pattern;
  }

  /** Line 97 as evidently intended: only a character absent from the pattern
      counts as index -1 (Sunday's quick-search shift). */
  function ShiftAfterMatchCorrected(table: map<CodeUnit, nat>, m: nat, next: CodeUnit): (shift: int)
    requires forall c :: c in table ==> table[c] < m
    ensures 1 <= shift <= m + 1
  {
    m - (if next in table then table[next] else -1)
  }

  /** Line 97 as written: `badChar[c] || -1`. JavaScript's `||` replaces a stored
      index 0 by -1 as well, as if `c` did not occur in the pattern. */
  function ShiftAfterMatch(table: map<CodeUnit, nat>, m: nat, next: CodeUnit): (shift: int)
    requires forall c :: c in table ==> table[c] < m
    ensures 1 <= shift <= m + 1
    ensures next in table && table[next] == 0 ==> shift == m + 1
    ensures shift == ShiftAfterMatchCorrected(table, m, next) <==> !(next in table && table[next] == 0)
  {
    m - (if next in table && table[next] != 0 then table[next] else -1)
  }

  /** Lines 103-109: align the mismatching text character `bad` with its last
      occurrence in the pattern, moving by at least one. */
  function ShiftAfterMismatch(table: map<CodeUnit, nat>, j: nat, bad: CodeUnit): (shift: int)
    ensures 1 <= shift <= j + 1
  {
    var last: int := if bad in table then table[bad] else -1;
    if j - last > 1 then j - last else 1
  }

  /** The mismatch shift skips no occurrence: with `pattern[j + 1..]` matched at
      shift `s` and a mismatch at `j`, nothing starts in `[s, s + shift)`. */
  lemma MismatchShiftSafe(t: Text, p: Text, table: map<CodeUnit, nat>, s: nat, j: nat)
    requires IsLastIndexTable(p, table)
    requires j < |p| && s + |p| <= |t| && t[s + j] != p[j]
    ensures forall s': nat :: s <= s' < s + ShiftAfterMismatch(table, j, t[s + j]) ==> !OccursAt(t, p, s')
  {
    var bad := t[s + j];
    forall s': nat | s <= s' < s + ShiftAfterMismatch(table, j, bad)
      ensures !OccursAt(t, p, s')
    {
      var idx := s + j - s';
      if s' + |p| <= |t| {
        assert t[s' + idx] != p[idx];
      }
    }
  }

  /** The corrected post-match shift skips no occurrence: nothing starts strictly
      between `s` and `s + shift`. */
  lemma MatchShiftSafe(t: Text, p: Text, table: map<CodeUnit, nat>, s: nat)
    requires IsLastIndexTable(p, table) && |p| > 0
    requires s + |p| < |t|
    ensures forall s': nat :: s < s' < s + ShiftAfterMatchCorrected(table, |p|, t[s + |p|]) ==> !OccursAt(t, p, s')
  {
    var next := t[s + |p|];
    forall s': nat | s < s' < s + ShiftAfterMatchCorrected(table, |p|, next)
      ensures !OccursAt(t, p, s')
    {
      var idx := s + |p| - s';
      if s' + |p| <= |t| {
        assert t[s' + idx] != p[idx];
      }
    }
  }

  /** The mismatch step of the scan leaves the occurrences found so far unchanged. */
  lemma MismatchStep(t: Text, p: Text, table: map<CodeUnit, nat>, s: nat, j: nat)
    requires IsLastIndexTable(p, table)
    requires j < |p| && s + |p| <= |t| && t[s + j] != p[j]
    ensures OccurrencesBelow(t, p, s + ShiftAfterMismatch(table, j, t[s + j])) == OccurrencesBelow(t, p, s)
  {
    MismatchShiftSafe(t, p, table, s, j);
    OccurrencesBelowGap(t, p, s, s + ShiftAfterMismatch(table, j, t[s + j]));
  }

  /** The corrected match step adds exactly the occurrence at `s`. */
  lemma MatchStepCorrected(t: Text, p: Text, table: map<CodeUnit, nat>, s: nat)
    requires IsLastIndexTable(p, table) && |p| > 0
    requires OccursAt(t, p, s) && s + |p| < |t|
    ensures OccurrencesBelow(t, p, s + ShiftAfterMatchCorrected(table, |p|, t[s + |p|]))
         == OccurrencesBelow(t, p, s) + [s]
  {
    OccurrencesBelowNext(t, p, s);
    MatchShiftSafe(t, p, table, s);
    OccurrencesBelowGap(t, p, s + 1, s + ShiftAfterMatchCorrected(table, |p|, t[s + |p|]));
  }

  /** The as-written post-match shift can skip an occurrence: in "abab" the pattern
      "ab" matches at 0, the next character 'a' has last index 0, which `|| -1`
      reads as absent, so the search jumps by 3 past the occurrence at 2. */
  lemma AsWrittenShiftSkipsOccurrence()
    ensures var t, p := Units("abab"), Units("ab");
            var table := map[t[0] := 0, t[1] := 1];
            IsLastIndexTable(p, table) && OccursAt(t, p, 0) && OccursAt(t, p, 2) &&
            ShiftAfterMatch(table, |p|, t[|p|]) == 3 &&
            ShiftAfterMatchCorrected(table, |p|, t[|p|]) == 2
  {
    var t, p := Units("abab"), Units("ab");
    assert t[0] == p[0] == 'a' as int && t[1] == p[1] == 'b' as int;
  }

  /** Lines 85-91: the inner loop compares right to left; `j < 0` afterwards means
      the whole pattern matched at shift `s`. */
  method CompareBackwards(text: Text, pattern: Text, s: nat) returns (j: int)
    requires s + |pattern| <= |text|
    ensures -1 <= j < |pattern|
    ensures forall k :: j < k < |pattern| ==> pattern[k] == text[s + k]
    ensures j >= 0 ==> pattern[j] != text[s + j]
    ensures j < 0 <==> OccursAt(text, pattern, s)
  {
    j := |pattern| - 1;
    while j >= 0 && pattern[j] == text[s + j]
      invariant -1 <= j < |pattern|
      invariant forall k :: j < k < |pattern| ==> pattern[k] == text[s + k]
    {
      j := j - 1;
    }
  }

  /** `BoyerMoore.search` (matching.js:73-113), as written. It reports only true
      occurrences, in ascending order, and always finds the first one; it does not
      report all of them (see `AsWrittenShiftSkipsOccurrence`). */
  method Search(text: Text, pattern: Text) returns (result: seq<nat>)
    ensures |pattern| == 0 || |pattern| > |text| ==> result == []
    ensures forall r :: r in result ==> OccursAt(text, pattern, r)
    ensures Ascending(result)
    ensures |pattern| > 0 ==> (result == [] <==> Occurrences(text, pattern) == [])
    ensures result != [] ==> result[0] == Occurrences(text, pattern)[0]
  {
    if |pattern| == 0 {
      return [];
    }
    var table := BadCharTable(pattern);
    var n, m := |text|, |pattern|;
    result := [];
    var s: nat := 0;
    while s <= n - m
      invariant forall k :: 0 <= k < |result| ==> OccursAt(text, pattern, result[k]) && result[k] < s
      invariant Ascending(result)
      invariant result == [] ==> forall s': nat :: s' < s ==> !OccursAt(text, pattern, s')
      invariant result != [] ==> Occurrences(text, pattern) != [] && result[0] == Occurrences(text, pattern)[0]
      decreases n - m - s
    {
      var j := CompareBackwards(text, pattern, s);
      if j < 0 {
        if result == [] {
          FirstOccurrence(text, pattern, s);
        }
        result := result + [s];
        if s + m < n {
          s := s + ShiftAfterMatch(table, m, text[s + m]);
        } else {
          s := s + 1;
        }
      } else {
        MismatchShiftSafe(text, pattern, table, s, j);
        s := s + ShiftAfterMismatch(table, j, text[s + j]);
      }
    }
    if result == [] {
      NoOccurrences(text, pattern, s);
    }
    if result != [] {
      assert OccursAt(text, pattern, result[0]);
    }
  }

  /** One pass of the loop body of `BoyerMoore.search` (matching.js:80-110) with
      line 97 corrected: the shift grows, and the report gains exactly the
      occurrences it moves past. */
  method StepCorrected(text: Text, pattern: Text, table: map<CodeUnit, nat>, s: nat, result: seq<nat>)
    returns (s': nat, result': seq<nat>)
    requires IsLastIndexTable(pattern, table) && |pattern| > 0 && s + |pattern| <= |text|
    requires result == OccurrencesBelow(text, pattern, s)
    ensures s < s' && result' == OccurrencesBelow(text, pattern, s')
  {
    var n, m := |text|, |pattern|;
    var j := CompareBackwards(text, pattern, s);
    if j < 0 {
      result' := result + [s];
      if s + m < n {
        s' := s + ShiftAfterMatchCorrected(table, m, text[s + m]);
        MatchStepCorrected(text, pattern, table, s);
      } else {
        s' := s + 1;
        OccurrencesBelowNext(text, pattern, s);
      }
    } else {
      s', result' := s + ShiftAfterMismatch(table, j, text[s + j]), result;
      MismatchStep(text, pattern, table, s, j);
    }
  }

  /** `BoyerMoore.search` with line 97 corrected: every occurrence, overlapping
      ones included, in ascending order, like `KMP.search`. */
  method SearchCorrected(text: Text, pattern: Text) returns (result: seq<nat>)
    ensures result == if |pattern| == 0 then [] else Occurrences(text, pattern)
  {
    if |pattern| == 0 {
      return [];
    }
    var table := BadCharTable(pattern);
    var n, m := |text|, |pattern|;
    result := [];
    var s: nat := 0;
    while s <= n - m
      invariant result == OccurrencesBelow(text, pattern, s)
      decreases n - m - s
    {
      s, result := StepCorrected(text, pattern, table, s, result);
    }
    OccurrencesBelowAll(text, pattern, s);
  }
}
