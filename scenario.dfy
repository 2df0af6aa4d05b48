/** The sample run left as a comment at the end of backend/src/matching.js
    (lines 188-204): every matcher applied to one comment text, their results pushed
    into one list. */
module Scenario {
  import opened Strings
  import Kmp
  import BoyerMoore
  import RabinKarp
  import Regex

  /** The sample comment text, assembled from short pieces. */
  function SampleText(): (t: Text)
    ensures |t| == 71
  {
    SampleHead() + Units("88")
  }

  /** The sample text up to its only digits. */
  function SampleHead(): (t: Text)
    ensures |t| == 69
  {
    (Units("awesome bro ") + Units("plz make ")) + (Units("project ") + Units("based js ")) +
    ((Units("videos for ") + Units("beginners ")) + Units("thanks bro"))
  }

  /** The sample pattern. */
  function SamplePattern(): (p: Text)
    ensures |p| == 6
  {
    Units("thanks")
  }

  /** The character 't' appears in the sample text only at 27 ("project") and 59. */
  lemma OnlyTwoTs()
    ensures forall k :: 0 <= k < 71 && k != 27 && k != 59 ==> SampleText()[k] != 't' as int
  {
    NoTBefore38();
    NoTFrom38();
  }

  lemma NoTBefore38()
    ensures forall k :: 0 <= k < 38 && k != 27 ==> SampleText()[k] != 't' as int
  {
    var t := SampleText();
    assert forall k :: 0 <= k < 12 ==> t[k] != 't' as int;
    assert forall k :: 12 <= k < 21 ==> t[k] != 't' as int;
    assert forall k :: 21 <= k < 29 && k != 27 ==> t[k] != 't' as int;
    assert forall k :: 29 <= k < 38 ==> t[k] != 't' as int;
  }

  lemma NoTFrom38()
    ensures forall k :: 38 <= k < 71 && k != 59 ==> SampleText()[k] != 't' as int
  {
    var t := SampleText();
    assert forall k :: 38 <= k < 49 ==> t[k] != 't' as int;
    assert forall k :: 49 <= k < 59 ==> t[k] != 't' as int;
    assert forall k :: 59 < k < 71 ==> t[k] != 't' as int;
  }

  lemma ThanksAt59()
    ensures OccursAt(SampleText(), SamplePattern(), 59)
  {
    var t, p := SampleText(), SamplePattern();
    assert t[59..] == Units("thanks bro88");
  }

  lemma ThanksNowhereElse()
    ensures forall s: nat :: s != 59 ==> !OccursAt(SampleText(), SamplePattern(), s)
  {
    var t, p := SampleText(), SamplePattern();
    OnlyTwoTs();
    forall s: nat | s != 59
      ensures !OccursAt(t, p, s)
    {
      if s + 6 <= 71 {
        if s == 27 {
          assert t[28] != p[1];
        } else {
          assert t[s] != p[0];
        }
      }
    }
  }

  /** "thanks" occurs in the sample text exactly once, at index 59. */
  lemma ThanksOccursOnce()
    ensures Occurrences(SampleText(), SamplePattern()) == [59]
  {
    var t, p := SampleText(), SamplePattern();
    ThanksAt59();
    ThanksNowhereElse();
    AscendingUnique(Occurrences(t, p), [59]);
  }

  /** No character of `s` is a digit. */
  predicate NoDigits(s: Text)
  {
    forall k :: 0 <= k < |s| ==> !Regex.IsDigit(s[k])
  }

  lemma NoDigitsConcat(a: Text, b: Text)
    requires NoDigits(a) && NoDigits(b)
    ensures NoDigits(a + b)
  {
  }

  lemma NoDigitsInFirstPieces()
    ensures NoDigits(Units("awesome bro ")) && NoDigits(Units("plz make "))
    ensures NoDigits(Units("project ")) && NoDigits(Units("based js "))
  {
  }

  lemma NoDigitsInLastPieces()
    ensures NoDigits(Units("videos for ")) && NoDigits(Units("beginners "))
    ensures NoDigits(Units("thanks bro"))
  {
  }

  lemma NoDigitsInSample()
    ensures NoDigits(SampleHead())
  {
    NoDigitsInFirstPieces();
    NoDigitsInLastPieces();
    var a := Units("awesome bro ") + Units("plz make ");
    var b := Units("project ") + Units("based js ");
    var c := Units("videos for ") + Units("beginners ");
    NoDigitsConcat(Units("awesome bro "), Units("plz make "));
    NoDigitsConcat(Units("project "), Units("based js "));
    NoDigitsConcat(Units("videos for "), Units("beginners "));
    NoDigitsConcat(a, b);
    NoDigitsConcat(c, Units("thanks bro"));
    NoDigitsConcat(a + b, c + Units("thanks bro"));
  }

  /** Every word before "bro88" is digit-free, so no match starts there. */
  lemma NoMatchBeforeBro88()
    ensures forall p :: 0 <= p < 66 ==> Regex.MatchEnd(SampleText(), p).None?
  {
    var t := SampleText();
    NoDigitsInSample();
    assert !Regex.IsWordChar(t[65]);
    forall p | 0 <= p < 66
      ensures Regex.MatchEnd(t, p).None?
    {
      assert forall k :: p <= k < 65 ==> t[k] == SampleHead()[k];
      Regex.NoDigitNoMatch(t, p, 65);
    }
  }

  lemma SampleTail()
    ensures SampleText()[65..] == Units(" bro88")
  {
    assert SampleHead()[65..] == Units(" bro");
  }

  /** The regex matches "bro88" and nothing starts inside it. */
  lemma MatchAtBro88()
    ensures Regex.MatchEnd(SampleText(), 66) == Some(71)
    ensures forall p :: 66 < p <= 71 ==> Regex.MatchEnd(SampleText(), p).None?
    ensures SampleText()[66..71] == Units("bro88")
  {
    var t := SampleText();
    SampleTail();
    assert !Regex.IsWordChar(t[65]);
    assert forall k :: 66 <= k < 71 ==> Regex.IsWordChar(t[k]);
    Regex.LetterRunEndUnique(t, 66, 69);
    Regex.DigitRunEndUnique(t, 69, 71);
  }

  /** The regex matches the sample text once, at "bro88". */
  lemma Bro88IsTheOnlyMatch()
    ensures Regex.MatchesBelow(SampleText(), 72) == [Units("bro88")]
  {
    NoMatchBeforeBro88();
    MatchAtBro88();
    Regex.OneMatch(SampleText(), 66, 71);
  }

  /** Overlapping occurrences all count: "aa" occurs in "aaaa" at 0, 1 and 2. */
  lemma OverlappingOccurrences()
    ensures Occurrences(Units("aaaa"), Units("aa")) == [0, 1, 2]
  {
    var t: Text, p: Text := [97, 97, 97, 97], [97, 97];
    assert Units("aaaa") == t && Units("aa") == p;
    assert OccurrencesBelow(t, p, 1) == [0];
    assert OccurrencesBelow(t, p, 2) == [0, 1];
    assert OccurrencesBelow(t, p, 3) == [0, 1, 2];
  }

  /** An entry of the sample's mixed result list: a start position reported by an
      exact matcher, or a word reported by the regex. */
  datatype Item = Position(start: nat) | Word(word: Text)

  function Positions(r: seq<nat>): (items: seq<Item>)
    ensures |items| == |r| && forall i :: 0 <= i < |r| ==> items[i] == Position(r[i])
  {
    seq(|r|, i requires 0 <= i < |r| => Position(r[i]))
  }

  function Words(r: seq<Text>): (items: seq<Item>)
    ensures |items| == |r| && forall i :: 0 <= i < |r| ==> items[i] == Word(r[i])
  {
    seq(|r|, i requires 0 <= i < |r| => Word(r[i]))
  }

  /** The commented-out sample run (matching.js:188-204): each matcher's non-empty
      result appended in turn. All three exact matchers find "thanks" at 59, and the
      regex finds "bro88". */
  method SampleRun() returns (result: seq<Item>)
    ensures result == [Position(59), Position(59), Position(59), Word(Units("bro88"))]
  {
    var text, pattern := SampleText(), SamplePattern();
    ThanksOccursOnce();
    Bro88IsTheOnlyMatch();
    var bro88 := Units("bro88");
    result := [];
    var kmp := Kmp.Search(text, pattern);
    if |kmp| > 0 {
      result := result + Positions(kmp);
    }
    assert result == [Position(59)];
    var bm := BoyerMoore.Search(text, pattern);
    assert bm[0] in bm;
    AscendingUnique(bm, [59]);
    if |bm| > 0 {
      result := result + Positions(bm);
    }
    assert result == [Position(59), Position(59)];
    var rk := RabinKarp.Search(text, pattern);
    if |rk| > 0 {
      result := result + Positions(rk);
    }
    assert result == [Position(59), Position(59), Position(59)];
    var words := Regex.Search(text);
    assert words == [bro88];
    if |words| > 0 {
      result := result + Words(words);
    }
  }
}
