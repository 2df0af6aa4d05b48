/** Texts as JavaScript sees them, and the occurrence specification shared by
    the three exact matchers (KMP, Boyer-Moore, Rabin-Karp). */
module Strings {

  /** A UTF-16 code unit: what JavaScript string indexing and charCodeAt return. */
  type CodeUnit = c: int | 0 <= c < 0x1_0000

  type Text = seq<CodeUnit>

  datatype Option<T> = None | Some(value: T)

  /** Converts a Dafny string literal whose characters are all in the Basic
      Multilingual Plane to the code units JavaScript would see. */
  function Units(s: string): (t: Text)
    requires forall k :: 0 <= k < |s| ==> s[k] as int < 0x1_0000
    ensures |t| == |s| && forall k :: 0 <= k < |s| ==> t[k] == s[k] as int
  {
    seq(|s|, k requires 0 <= k < |s| => s[k] as int)
  }

  /** `pattern` occurs in `text` starting at position `s`. */
  predicate OccursAt(text: Text, pattern: Text, s: nat)
  {
    s + |pattern| <= |text| && forall k :: 0 <= k < |pattern| ==> text[s + k] == pattern[k]
  }

  /** Strictly increasing: the order in which a left-to-right scan discovers positions. */
  predicate Ascending(r: seq<nat>)
  {
    forall i, j :: 0 <= i < j < |r| ==> r[i] < r[j]
  }

  /** The occurrences of `pattern` in `text` that start before `k`, in ascending order. */
  function OccurrencesBelow(text: Text, pattern: Text, k: int): (r: seq<nat>)
    decreases k
  {
    if k <= 0 then []
    else OccurrencesBelow(text, pattern, k - 1) + (if OccursAt(text, pattern, k - 1) then [k - 1] else [])
  }

  /** What `OccurrencesBelow` holds: exactly the occurrences that start before `k`,
      each below `k`, in ascending order. */
  lemma OccurrencesBelowSpec(text: Text, pattern: Text, k: int)
    ensures forall s: nat :: s in OccurrencesBelow(text, pattern, k) <==> s < k && OccursAt(text, pattern, s)
    ensures forall i :: 0 <= i < |OccurrencesBelow(text, pattern, k)| ==> OccurrencesBelow(text, pattern, k)[i] < k
    ensures Ascending(OccurrencesBelow(text, pattern, k))
  {
    OccurrencesBelowMembers(text, pattern, k);
    OccurrencesBelowOrdered(text, pattern, k);
  }

  lemma {:induction false} OccurrencesBelowMembers(text: Text, pattern: Text, k: int)
    ensures forall s: nat :: s in OccurrencesBelow(text, pattern, k) <==> s < k && OccursAt(text, pattern, s)
    decreases k
  {
    if k > 0 {
      OccurrencesBelowMembers(text, pattern, k - 1);
    }
  }

  lemma {:induction false} OccurrencesBelowOrdered(text: Text, pattern: Text, k: int)
    ensures forall i :: 0 <= i < |OccurrencesBelow(text, pattern, k)| ==> OccurrencesBelow(text, pattern, k)[i] < k
    ensures Ascending(OccurrencesBelow(text, pattern, k))
    decreases k
  {
    if k > 0 {
      OccurrencesBelowOrdered(text, pattern, k - 1);
      var prev := OccurrencesBelow(text, pattern, k - 1);
      if OccursAt(text, pattern, k - 1) {
        assert OccurrencesBelow(text, pattern, k) == prev + [k - 1];
      } else {
        assert OccurrencesBelow(text, pattern, k) == prev;
      }
    }
  }

  /** One more candidate start position. */
  lemma OccurrencesBelowNext(text: Text, pattern: Text, k: int)
    ensures OccurrencesBelow(text, pattern, k + 1)
         == OccurrencesBelow(text, pattern, k) + (if k >= 0 && OccursAt(text, pattern, k) then [k] else [])
  {
  }

  /** Candidate positions in `[a, b)` that are not occurrences add nothing. */
  lemma {:induction false} OccurrencesBelowGap(text: Text, pattern: Text, a: int, b: int)
    requires a <= b
    requires forall s: nat :: a <= s < b ==> !OccursAt(text, pattern, s)
    ensures OccurrencesBelow(text, pattern, b) == OccurrencesBelow(text, pattern, a)
    decreases b - a
  {
    if a < b {
      OccurrencesBelowGap(text, pattern, a, b - 1);
      OccurrencesBelowNext(text, pattern, b - 1);
    }
  }

  /** Once the scan has passed the last possible start position, it has reported everything. */
  lemma OccurrencesBelowAll(t: Text, p: Text, k: int)
    requires k >= |t| - |p| + 1
    ensures OccurrencesBelow(t, p, k) == Occurrences(t, p)
  {
    OccurrencesBelowGap(t, p, |t| - |p| + 1, k);
  }

  /** Every start position of `pattern` in `text`, overlapping ones included, ascending. */
  function Occurrences(text: Text, pattern: Text): (r: seq<nat>)
    ensures forall s: nat :: s in r <==> OccursAt(text, pattern, s)
    ensures Ascending(r)
  {
    OccurrencesBelowSpec(text, pattern, |text| - |pattern| + 1);
    OccurrencesBelow(text, pattern, |text| - |pattern| + 1)
  }

  /** A scan that has ruled out every start position below `k`, and `k` is past the
      last possible one, proves that there are no occurrences. */
  lemma NoOccurrences(text: Text, pattern: Text, k: int)
    requires k >= |text| - |pattern| + 1
    requires forall s: nat :: s < k ==> !OccursAt(text, pattern, s)
    ensures Occurrences(text, pattern) == []
  {
    var last := |text| - |pattern| + 1;
    var first := if last > 0 then 0 else last;
    OccurrencesBelowGap(text, pattern, first, last);
    assert OccurrencesBelow(text, pattern, first) == [];
  }

  /** A pattern longer than the text occurs nowhere. */
  lemma LongerPatternNeverOccurs(text: Text, pattern: Text)
    requires |pattern| > |text|
    ensures Occurrences(text, pattern) == []
  {
  }

  /** Two ascending sequences with the same elements are the same sequence: this is
      what makes "the ascending list of occurrences" a complete specification. */
  lemma {:induction false} AscendingUnique(a: seq<nat>, b: seq<nat>)
    requires Ascending(a) && Ascending(b)
    requires forall x :: x in a <==> x in b
    ensures a == b
  {
    assert a == [] <==> b == [] by {
      if a != [] { assert a[0] in b; }
      if b != [] { assert b[0] in a; }
    }
    if a != [] {
      assert a[0] in b && b[0] in a;
      forall x ensures x in a[1..] <==> x in b[1..] {
        if x in a[1..] {
          assert x in b;
        }
        if x in b[1..] {
          assert x in a;
        }
      }
      AscendingUnique(a[1..], b[1..]);
      assert a == [a[0]] + a[1..] && b == [b[0]] + b[1..];
    }
  }

  /** If `s` is an occurrence and none starts before it, it heads the list of occurrences. */
  lemma FirstOccurrence(text: Text, pattern: Text, s: nat)
    requires OccursAt(text, pattern, s)
    requires forall s': nat :: s' < s ==> !OccursAt(text, pattern, s')
    ensures Occurrences(text, pattern) != [] && Occurrences(text, pattern)[0] == s
  {
    var r := Occurrences(text, pattern);
    assert s in r;
    assert r[0] in r;
  }
}
