/** The fixed-pattern matcher `Regex` of backend/src/matching.js: the global search
    for `\b[a-zA-Z]+\d{2,3}\b`, without the `u` flag, so that `\b` separates the
    word characters `[A-Za-z0-9_]` from all others. */
module Regex {
  import opened Strings

  predicate IsLetter(c: CodeUnit)
  {
    'A' as int <= c <= 'Z' as int || 'a' as int <= c <= 'z' as int
  }

  predicate IsDigit(c: CodeUnit)
  {
    '0' as int <= c <= '9' as int
  }

  /** `\w` without the `u` flag. */
  predicate IsWordChar(c: CodeUnit)
  {
    IsLetter(c) || IsDigit(c) || c == '_' as int
  }

  /** A word character ends just before position `k`. */
  predicate WordBefore(t: Text, k: nat)
  {
    0 < k <= |t| && IsWordChar(t[k - 1])
  }

  /** A word character starts at position `k`. */
  predicate WordAt(t: Text, k: nat)
  {
    k < |t| && IsWordChar(t[k])
  }

  /** `\b` holds at position `k`. */
  predicate AtBoundary(t: Text, k: nat)
  {
    WordBefore(t, k) != WordAt(t, k)
  }

  predicate AllLetters(t: Text, a: nat, b: nat)
    requires a <= b <= |t|
  {
    forall k :: a <= k < b ==> IsLetter(t[k])
  }

  predicate AllDigits(t: Text, a: nat, b: nat)
    requires a <= b <= |t|
  {
    forall k :: a <= k < b ==> IsDigit(t[k])
  }

  /** The end of the run of letters that starts at `k`: how far the greedy
      `[a-zA-Z]+` reaches. */
  function LetterRunEnd(t: Text, k: nat): (e: nat)
    requires k <= |t|
    ensures k <= e <= |t| && AllLetters(t, k, e)
    ensures e == |t| || !IsLetter(t[e])
    decreases |t| - k
  {
    if k < |t| && IsLetter(t[k]) then LetterRunEnd(t, k + 1) else k
  }

  /** The end of the run of digits that starts at `k`. */
  function DigitRunEnd(t: Text, k: nat): (e: nat)
    requires k <= |t|
    ensures k <= e <= |t| && AllDigits(t, k, e)
    ensures e == |t| || !IsDigit(t[e])
    decreases |t| - k
  {
    if k < |t| && IsDigit(t[k]) then DigitRunEnd(t, k + 1) else k
  }

  /** A run of letters is determined by where it starts and where the first non-letter is. */
  lemma {:induction false} LetterRunEndUnique(t: Text, k: nat, e: nat)
    requires k <= e <= |t| && AllLetters(t, k, e) && (e == |t| || !IsLetter(t[e]))
    ensures LetterRunEnd(t, k) == e
    decreases e - k
  {
    if k < e {
      LetterRunEndUnique(t, k + 1, e);
    }
  }

  lemma {:induction false} DigitRunEndUnique(t: Text, k: nat, e: nat)
    requires k <= e <= |t| && AllDigits(t, k, e) && (e == |t| || !IsDigit(t[e]))
    ensures DigitRunEnd(t, k) == e
    decreases e - k
  {
    if k < e {
      DigitRunEndUnique(t, k + 1, e);
    }
  }

  /** `t[p..e]` reads as letters `t[p..q]` followed by two or three digits `t[q..e]`. */
  predicate Split(t: Text, p: nat, q: nat, e: nat)
  {
    p < q <= e <= |t| && 2 <= e - q <= 3 && AllLetters(t, p, q) && AllDigits(t, q, e)
  }

  /** The pattern read as a language: `t[p..e]` is in `[a-zA-Z]+\d{2,3}` and `\b`
      holds at both ends. */
  ghost predicate IsMatch(t: Text, p: nat, e: nat)
  {
    e <= |t| && AtBoundary(t, p) && AtBoundary(t, e) && exists q :: Split(t, p, q, e)
  }

  /** The match the engine finds when it tries start position `p`: the greedy letter
      run, then three digits or else two, each followed by `\b`. Backtracking into
      the letters never helps, since a letter is not a digit. */
  function MatchEnd(t: Text, p: nat): (r: Option<nat>)
    requires p <= |t|
    ensures r.Some? ==> p < r.value <= |t|
  {
    if p < |t| && IsLetter(t[p]) && !WordBefore(t, p) then
      var q := LetterRunEnd(t, p);
      var e := DigitRunEnd(t, q);
      if q > p && 2 <= e - q <= 3 && !WordAt(t, e) then Some(e) else None
    else
      None
  }

  /** The engine finds a match from `p` to `e` exactly when `t[p..e]` matches the
      pattern with its boundaries: the greedy strategy loses no match. */
  lemma MatchEndIsMatch(t: Text, p: nat, e: nat)
    requires p <= e <= |t|
    ensures MatchEnd(t, p) == Some(e) <==> IsMatch(t, p, e)
  {
    if MatchEnd(t, p) == Some(e) {
      assert Split(t, p, LetterRunEnd(t, p), e);
    }
    if IsMatch(t, p, e) {
      var q: nat :| Split(t, p, q, e);
      assert IsLetter(t[p]) && IsDigit(t[q]) && IsDigit(t[e - 1]);
      LetterRunEndUnique(t, p, q);
      DigitRunEndUnique(t, q, e);
    }
  }

  /** A maximal run of word characters from `p` to `e`. */
  predicate IsWordToken(t: Text, p: nat, e: nat)
  {
    p < e <= |t| && !WordBefore(t, p) && !WordAt(t, e) &&
    forall k :: p <= k < e ==> IsWordChar(t[k])
  }

  /** One or more letters followed by exactly two or three digits. */
  predicate SpamWord(w: Text)
  {
    var q := LetterRunEnd(w, 0);
    0 < q && 2 <= |w| - q <= 3 && DigitRunEnd(w, q) == |w|
  }

  /** The effective rule: a match is a whole maximal word token that is a spam word. */
  lemma TokenRule(t: Text, p: nat, e: nat)
    requires p <= e <= |t|
    ensures MatchEnd(t, p) == Some(e) <==> IsWordToken(t, p, e) && SpamWord(t[p..e])
  {
    if MatchEnd(t, p) == Some(e) {
      MatchIsSpamToken(t, p, e);
    }
    if IsWordToken(t, p, e) && SpamWord(t[p..e]) {
      SpamTokenIsMatch(t, p, e);
    }
  }

  lemma MatchIsSpamToken(t: Text, p: nat, e: nat)
    requires p <= e <= |t| && MatchEnd(t, p) == Some(e)
    ensures IsWordToken(t, p, e) && SpamWord(t[p..e])
  {
    var w := t[p..e];
    var q := LetterRunEnd(t, p);
    assert IsDigit(t[q]);
    LetterRunEndUnique(w, 0, q - p);
    DigitRunEndUnique(w, q - p, |w|);
  }

  lemma SpamTokenIsMatch(t: Text, p: nat, e: nat)
    requires p <= e <= |t| && IsWordToken(t, p, e) && SpamWord(t[p..e])
    ensures MatchEnd(t, p) == Some(e)
  {
    var w := t[p..e];
    var q := LetterRunEnd(w, 0);
    assert IsLetter(w[0]) && IsDigit(w[q]) && IsDigit(w[|w| - 1]);
    LetterRunEndUnique(t, p, p + q);
    assert AllDigits(t, p + q, e) by {
      assert forall k :: q <= k < |w| ==> t[p + k] == w[k];
    }
    DigitRunEndUnique(t, p + q, e);
  }

  /** Matches never overlap: no match starts inside another. */
  lemma MatchesDoNotOverlap(t: Text, p: nat, p': nat)
    requires p < p' <= |t| && MatchEnd(t, p).Some? && p' < MatchEnd(t, p).value
    ensures MatchEnd(t, p').None?
  {
    var q := LetterRunEnd(t, p);
    assert IsLetter(t[p' - 1]) || IsDigit(t[p' - 1]);
  }

  /** A match needs a digit before the end of its word: no match starts at `p` when
      no digit lies between `p` and the non-word character at `c`. */
  lemma NoDigitNoMatch(t: Text, p: nat, c: nat)
    requires p <= c < |t| && !IsWordChar(t[c])
    requires forall k :: p <= k < c ==> !IsDigit(t[k])
    ensures MatchEnd(t, p).None?
  {
    if p < |t| && IsLetter(t[p]) && !WordBefore(t, p) {
      var q := LetterRunEnd(t, p);
      assert q <= c;
      assert DigitRunEnd(t, q) == q;
    }
  }

  /** The matched texts of the matches that start below `k`, in order of appearance. */
  function MatchesBelow(t: Text, k: nat): (r: seq<Text>)
    requires k <= |t| + 1
    decreases k
  {
    if k == 0 then
      []
    else
      var m := MatchEnd(t, k - 1);
      if m.Some? then MatchesBelow(t, k - 1) + [t[k - 1..m.value]] else MatchesBelow(t, k - 1)
  }

  /** What the matches below `k` are: spam words only, each the text of a match below
      `k`, every match's text, and none exactly when the engine finds no match below `k`. */
  lemma MatchesBelowSpec(t: Text, k: nat)
    requires k <= |t| + 1
    ensures forall i :: 0 <= i < |MatchesBelow(t, k)| ==> SpamWord(MatchesBelow(t, k)[i])
    ensures forall i :: 0 <= i < |MatchesBelow(t, k)| ==> MatchTextBelow(t, k, MatchesBelow(t, k)[i])
    ensures forall p :: 0 <= p < k && MatchEnd(t, p).Some? ==> t[p..MatchEnd(t, p).value] in MatchesBelow(t, k)
    ensures MatchesBelow(t, k) == [] <==> forall p :: 0 <= p < k ==> MatchEnd(t, p).None?
  {
    MatchesBelowSound(t, k);
    MatchesBelowComplete(t, k);
    var r := MatchesBelow(t, k);
    forall i | 0 <= i < |r| ensures SpamWord(r[i]) {
      var p :| 0 <= p < k && p <= |t| && MatchEnd(t, p).Some? && r[i] == t[p..MatchEnd(t, p).value];
      TokenRule(t, p, MatchEnd(t, p).value);
    }
    if r != [] {
      assert MatchTextBelow(t, k, r[0]);
    }
  }

  /** The text of every match that starts below `k` is reported. */
  lemma {:induction false} MatchesBelowComplete(t: Text, k: nat)
    requires k <= |t| + 1
    ensures forall p :: 0 <= p < k && MatchEnd(t, p).Some? ==> t[p..MatchEnd(t, p).value] in MatchesBelow(t, k)
    decreases k
  {
    if k > 0 {
      MatchesBelowComplete(t, k - 1);
    }
  }

  /** `w` is the text of a match that starts below `k`. */
  ghost predicate MatchTextBelow(t: Text, k: nat, w: Text)
  {
    exists p :: 0 <= p < k && p <= |t| && MatchEnd(t, p).Some? && w == t[p..MatchEnd(t, p).value]
  }

  /** Every reported text is the text of a match that starts below `k`. */
  lemma {:induction false} MatchesBelowSound(t: Text, k: nat)
    requires k <= |t| + 1
    ensures forall i :: 0 <= i < |MatchesBelow(t, k)| ==> MatchTextBelow(t, k, MatchesBelow(t, k)[i])
    decreases k
  {
    if k > 0 {
      MatchesBelowSound(t, k - 1);
      var prev := MatchesBelow(t, k - 1);
      var m := MatchEnd(t, k - 1);
      forall i | 0 <= i < |MatchesBelow(t, k)|
        ensures MatchTextBelow(t, k, MatchesBelow(t, k)[i])
      {
        var r := MatchesBelow(t, k);
        if i < |prev| {
          assert MatchTextBelow(t, k - 1, prev[i]);
          var p :| 0 <= p < k - 1 && p <= |t| && MatchEnd(t, p).Some? && prev[i] == t[p..MatchEnd(t, p).value];
          assert r[i] == prev[i];
        } else {
          assert m.Some? && r == prev + [t[k - 1..m.value]];
          assert r[i] == t[k - 1..MatchEnd(t, k - 1).value];
        }
      }
    }
  }

  /** Start positions in `[a, b)` where no match starts add nothing. */
  lemma {:induction false} MatchesBelowGap(t: Text, a: nat, b: nat)
    requires a <= b <= |t| + 1
    requires forall p :: a <= p < b ==> MatchEnd(t, p).None?
    ensures MatchesBelow(t, b) == MatchesBelow(t, a)
    decreases b - a
  {
    if a < b {
      MatchesBelowGap(t, a, b - 1);
    }
  }

  /** A text in which the engine finds a match at exactly one start position
      yields exactly that match. */
  lemma OneMatch(t: Text, p: nat, e: nat)
    requires p < e <= |t| && MatchEnd(t, p) == Some(e)
    requires forall p' :: 0 <= p' <= |t| && p' != p ==> MatchEnd(t, p').None?
    ensures MatchesBelow(t, |t| + 1) == [t[p..e]]
  {
    MatchesBelowGap(t, 0, p);
    MatchesBelowGap(t, p + 1, |t| + 1);
    assert MatchesBelow(t, p + 1) == MatchesBelow(t, p) + [t[p..e]];
    assert MatchesBelow(t, 0) == [];
  }

  /** `regex.exec(text)` with the global flag (matching.js:179): the leftmost
      match that starts at or after `lastIndex`, as its start and end. */
  method Exec(text: Text, lastIndex: nat) returns (m: Option<(nat, nat)>)
    requires lastIndex <= |text|
    ensures m.None? ==> forall p :: lastIndex <= p <= |text| ==> MatchEnd(text, p).None?
    ensures m.Some? ==> lastIndex <= m.value.0 <= |text| && MatchEnd(text, m.value.0) == Some(m.value.1)
    ensures m.Some? ==> forall p :: lastIndex <= p < m.value.0 ==> MatchEnd(text, p).None?
  {
    var p := lastIndex;
    while p <= |text|
      invariant lastIndex <= p <= |text| + 1
      invariant forall p' :: lastIndex <= p' < p ==> MatchEnd(text, p').None?
    {
      var r := MatchEnd(text, p);
      if r.Some? {
        return Some((p, r.value));
      }
      p := p + 1;
    }
    return None;
  }

  /** `Regex.search` (matching.js:174-183): the matched texts of all matches, in
      order of appearance; each continues from the end of the previous one. */
  method Search(text: Text) returns (matches: seq<Text>)
    ensures matches == MatchesBelow(text, |text| + 1)
  {
    matches := [];
    var lastIndex := 0;
    while true
      invariant lastIndex <= |text|
      invariant matches == MatchesBelow(text, lastIndex)
      decreases |text| - lastIndex
    {
      var m := Exec(text, lastIndex);
      if m.None? {
        MatchesBelowGap(text, lastIndex, |text| + 1);
        break;
      }
      var (p, e) := m.value;
      MatchesBelowGap(text, lastIndex, p);
      forall p' | p < p' < e ensures MatchEnd(text, p').None? {
        MatchesDoNotOverlap(text, p, p');
      }
      MatchesBelowGap(text, p + 1, e);
      matches := matches + [text[p..e]];
      lastIndex := e;
    }
  }

  /** "bro88" is one match. */
  lemma Bro88Matches()
    ensures MatchesBelow(Units("bro88"), 6) == [Units("bro88")]
  {
    var t := Units("bro88");
    Bro88MatchAtStart();
    assert forall k :: 0 <= k < 5 ==> IsWordChar(t[k]);
    MatchesBelowGap(t, 1, 6);
    assert t[0..5] == t;
  }

  lemma Bro88MatchAtStart()
    ensures MatchEnd(Units("bro88"), 0) == Some(5)
  {
    var t := Units("bro88");
    assert AllLetters(t, 0, 3) && AllDigits(t, 3, 5) && !IsLetter(t[3]);
    LetterRunEndUnique(t, 0, 3);
    DigitRunEndUnique(t, 3, 5);
  }

  /** "bro8" has one digit too few. */
  lemma Bro8DoesNotMatch()
    ensures MatchesBelow(Units("bro8"), 5) == []
  {
    var t := Units("bro8");
    assert IsLetter(t[0]) && IsLetter(t[1]) && IsLetter(t[2]) && IsDigit(t[3]);
    LetterRunEndUnique(t, 0, 3);
    DigitRunEndUnique(t, 3, 4);
  }

  /** In "thanks88bro99" the digits are followed by a letter, so the token does not
      end after them, and no match starts inside the token. */
  lemma Thanks88Bro99DoesNotMatch()
    ensures MatchesBelow(Units("thanks88bro99"), 14) == []
  {
    var t := Units("thanks88bro99");
    Thanks88Bro99NoMatchAtStart();
    Thanks88Bro99NoMatchInside();
    MatchesBelowGap(t, 0, 14);
  }

  lemma Thanks88Bro99NoMatchAtStart()
    ensures MatchEnd(Units("thanks88bro99"), 0).None?
  {
    var t := Units("thanks88bro99");
    assert AllLetters(t, 0, 6) && !IsLetter(t[6]);
    assert AllDigits(t, 6, 8) && IsWordChar(t[8]);
    LetterRunEndUnique(t, 0, 6);
    DigitRunEndUnique(t, 6, 8);
  }

  lemma Thanks88Bro99NoMatchInside()
    ensures forall p :: 0 < p <= 13 ==> MatchEnd(Units("thanks88bro99"), p).None?
  {
    var t := Units("thanks88bro99");
    assert forall k :: 0 <= k < 13 ==> IsWordChar(t[k]);
  }
}
