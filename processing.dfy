/** The verdict rule of the `/comments/search/:videoId` handler in
    backend/src/routes/processing.js: which fetched comments are reported as matching. */
module Processing {
  import opened Strings
  import Kmp
  import BoyerMoore
  import RabinKarp
  import Regex

  /** A fetched comment, with the three fields backend/src/youtube.js gives it and
      the response echoes back. */
  datatype Comment = Comment(id: string, author: string, text: Text)

  /** The request body: the matcher name (`method`) and the optional pattern list.
      `patterns == None` stands for a missing value or one that is not an array. */
  datatype Request = Request(algorithm: string, patterns: Option<seq<Text>>)

  /** `pattern` is non-empty and occurs somewhere in `text`. */
  ghost predicate Found(text: Text, pattern: Text)
  {
    |pattern| > 0 && exists s: nat :: OccursAt(text, pattern, s)
  }

  /** The names the if-chain at processing.js:41-47 dispatches on. */
  predicate IsExactMatcher(algorithm: string)
  {
    algorithm == "KMP" || algorithm == "BM" || algorithm == "Rabin-Karp"
  }

  /** The callback of `patterns.some` (processing.js:36-50) on one pattern that has
      already had its whitespace removed: `Some(result.length > 0)`, or `None` when the
      call never returns (KMP with an empty pattern on a non-empty text). */
  function PatternHit(algorithm: string, text: Text, pattern: Text): (r: Option<bool>)
    ensures r.None? <==> algorithm == "KMP" && |pattern| == 0 && |text| > 0
    ensures r == Some(true) <==> IsExactMatcher(algorithm) && Found(text, pattern)
  {
    if algorithm == "KMP" && |pattern| == 0 && |text| > 0 then
      None
    else if IsExactMatcher(algorithm) then
      var occurrences := Occurrences(text, pattern);
      assert |occurrences| > 0 ==> occurrences[0] in occurrences;
      Some(|pattern| > 0 && |occurrences| > 0)
    else
      Some(false)
  }

  /** Lines 37-49 with the real matchers: the callback's answer is the one
      `PatternHit` describes, whichever matcher is selected. */
  method PatternFound(algorithm: string, text: Text, pattern: Text) returns (found: bool)
    requires PatternHit(algorithm, text, pattern).Some?
    ensures PatternHit(algorithm, text, pattern) == Some(found)
  {
    var result: seq<nat> := [];
    if algorithm == "KMP" {
      result := Kmp.Search(text, pattern);
    } else if algorithm == "BM" {
      result := BoyerMoore.Search(text, pattern);
    } else if algorithm == "Rabin-Karp" {
      result := RabinKarp.Search(text, pattern);
    }
    found := |result| > 0;
  }

  /** `patterns.some(...)` (processing.js:36-50), left to right with short-circuit:
      a pattern that never returns stops the whole evaluation. */
  function AnyPatternHits(algorithm: string, patterns: seq<Text>, text: Text, strip: Text -> Text): (r: Option<bool>)
    ensures algorithm == "BM" || algorithm == "Rabin-Karp" ==>
              r.Some? && (r.value <==> exists i :: 0 <= i < |patterns| && Found(text, strip(patterns[i])))
    ensures !IsExactMatcher(algorithm) ==> r == Some(false)
    decreases |patterns|
  {
    if |patterns| == 0 then
      Some(false)
    else
      match PatternHit(algorithm, text, strip(patterns[0]))
      case None => None
      case Some(true) => Some(true)
      case Some(false) =>
        var rest := AnyPatternHits(algorithm, patterns[1..], text, strip);
        assert forall i :: 1 <= i < |patterns| ==> patterns[i] == patterns[1..][i - 1];
        rest
  }

  /** KMP agrees with the other exact matchers whenever it returns at all. */
  lemma {:induction false} KmpAgrees(patterns: seq<Text>, text: Text, strip: Text -> Text)
    requires AnyPatternHits("KMP", patterns, text, strip).Some?
    ensures AnyPatternHits("KMP", patterns, text, strip) == AnyPatternHits("BM", patterns, text, strip)
    decreases |patterns|
  {
    if |patterns| > 0 && PatternHit("KMP", text, strip(patterns[0])) == Some(false) {
      KmpAgrees(patterns[1..], text, strip);
    }
  }

  /** With KMP the evaluation never returns exactly when, before any pattern is
      found, a pattern that is empty after whitespace removal meets a non-empty text. */
  lemma {:induction false} KmpHangs(patterns: seq<Text>, text: Text, strip: Text -> Text)
    ensures AnyPatternHits("KMP", patterns, text, strip).None? <==>
            |text| > 0 && exists i :: 0 <= i < |patterns| && |strip(patterns[i])| == 0 &&
                                      forall j :: 0 <= j < i ==> !Found(text, strip(patterns[j]))
    decreases |patterns|
  {
    if |patterns| > 0 {
      KmpHangs(patterns[1..], text, strip);
      assert forall i :: 1 <= i < |patterns| ==> patterns[i] == patterns[1..][i - 1];
      if |text| > 0 && |strip(patterns[0])| > 0 && !Found(text, strip(patterns[0])) {
        var hang := AnyPatternHits("KMP", patterns, text, strip).None?;
        if hang {
          var i :| 0 <= i < |patterns[1..]| && |strip(patterns[1..][i])| == 0 &&
                   forall j :: 0 <= j < i ==> !Found(text, strip(patterns[1..][j]));
          assert forall j :: 0 <= j < i + 1 ==> !Found(text, strip(patterns[j]));
        } else {
          forall i | 0 <= i < |patterns| && |strip(patterns[i])| == 0
            ensures exists j :: 0 <= j < i && Found(text, strip(patterns[j]))
          {
            assert i > 0;
            assert !(forall j :: 0 <= j < i - 1 ==> !Found(text, strip(patterns[1..][j])));
          }
        }
      }
    }
  }

  /** The filter callback (processing.js:25-52) on one comment text: `Some(flagged)`,
      or `None` when the evaluation never returns. */
  function Verdict(request: Request, normalize: Text -> Text, strip: Text -> Text, commentText: Text): (r: Option<bool>)
    ensures request.algorithm != "Regex" && request.patterns.None? ==> r == Some(false)
    ensures request.algorithm != "Regex" && !IsExactMatcher(request.algorithm) ==> r == Some(false)
    ensures request.algorithm != "Regex" && request.patterns == Some([]) ==> r == Some(false)
    ensures (request.algorithm == "BM" || request.algorithm == "Rabin-Karp") && request.patterns.Some? ==>
              r.Some? &&
              (r.value <==> exists i :: 0 <= i < |request.patterns.value| &&
                                        Found(normalize(commentText), strip(request.patterns.value[i])))
  {
    var text := normalize(commentText);
    if request.algorithm == "Regex" then
      Some(Regex.MatchesBelow(text, |text| + 1) != [])
    else if request.patterns.None? then
      Some(false)
    else
      AnyPatternHits(request.algorithm, request.patterns.value, text, strip)
  }

  /** With `Regex` a comment is flagged exactly when its normalised text holds a
      maximal word token of letters followed by two or three digits; the patterns
      play no part. */
  lemma RegexVerdict(request: Request, normalize: Text -> Text, strip: Text -> Text, commentText: Text)
    requires request.algorithm == "Regex"
    ensures var text := normalize(commentText);
            Verdict(request, normalize, strip, commentText) ==
            Some(exists p: nat, e: nat :: p <= e <= |text| && Regex.IsWordToken(text, p, e) && Regex.SpamWord(text[p..e]))
  {
    var text := normalize(commentText);
    Regex.MatchesBelowSpec(text, |text| + 1);
    if Regex.MatchesBelow(text, |text| + 1) != [] {
      var p: nat :| p < |text| + 1 && Regex.MatchEnd(text, p).Some?;
      Regex.TokenRule(text, p, Regex.MatchEnd(text, p).value);
    } else {
      forall p: nat, e: nat | p <= e <= |text|
        ensures !(Regex.IsWordToken(text, p, e) && Regex.SpamWord(text[p..e]))
      {
        Regex.TokenRule(text, p, e);
      }
    }
  }

  /** The flagged comment `c` (with verdict `v`) in front of the response `rest` for
      the comments after it. */
  function Keep(v: Option<bool>, c: Comment, rest: Option<seq<Comment>>): (r: Option<seq<Comment>>)
  {
    match v
    case None => None
    case Some(flagged) =>
      if rest.None? then None
      else Some((if flagged then [Comment(c.id, c.author, c.text)] else []) + rest.value)
  }

  /** Two partial responses side by side; `None` if either never returns. */
  function Join(x: Option<seq<Comment>>, y: Option<seq<Comment>>): (r: Option<seq<Comment>>)
  {
    if x.Some? && y.Some? then Some(x.value + y.value) else None
  }

  /** The response (processing.js:25-58): the flagged comments in their original
      order, each echoed with its `id`, `author` and original `text`; `None` when
      some comment's evaluation never returns. */
  function SearchResponse(comments: seq<Comment>, request: Request, normalize: Text -> Text, strip: Text -> Text): (r: Option<seq<Comment>>)
    ensures r.Some? <==> forall i :: 0 <= i < |comments| ==> Verdict(request, normalize, strip, comments[i].text).Some?
    ensures r.Some? ==> forall c :: c in r.value ==> c in comments && Verdict(request, normalize, strip, c.text) == Some(true)
    ensures r.Some? ==> forall i :: 0 <= i < |comments| && Verdict(request, normalize, strip, comments[i].text) == Some(true) ==>
                          comments[i] in r.value
    ensures r.Some? ==> |r.value| <= |comments|
    decreases |comments|
  {
    if |comments| == 0 then
      Some([])
    else
      var rest := SearchResponse(comments[1..], request, normalize, strip);
      assert forall i :: 1 <= i < |comments| ==> comments[i] == comments[1..][i - 1];
      Keep(Verdict(request, normalize, strip, comments[0].text), comments[0], rest)
  }

  /** Filtering distributes over concatenation: the response keeps the comments'
      order, and a later comment cannot change what an earlier one contributes. */
  lemma {:induction false} ResponseConcat(a: seq<Comment>, b: seq<Comment>, request: Request, normalize: Text -> Text, strip: Text -> Text)
    ensures SearchResponse(a + b, request, normalize, strip) ==
            Join(SearchResponse(a, request, normalize, strip), SearchResponse(b, request, normalize, strip))
    decreases |a|
  {
    if |a| == 0 {
      assert a + b == b;
      var rb := SearchResponse(b, request, normalize, strip);
      if rb.Some? {
        assert [] + rb.value == rb.value;
      }
    } else {
      assert (a + b)[0] == a[0] && (a + b)[1..] == a[1..] + b;
      ResponseConcat(a[1..], b, request, normalize, strip);
      var v := Verdict(request, normalize, strip, a[0].text);
      var ra, rb := SearchResponse(a[1..], request, normalize, strip), SearchResponse(b, request, normalize, strip);
      KeepJoin(v, a[0], ra, rb);
    }
  }

  /** `Keep` and `Join` associate. */
  lemma KeepJoin(v: Option<bool>, c: Comment, x: Option<seq<Comment>>, y: Option<seq<Comment>>)
    ensures Keep(v, c, Join(x, y)) == Join(Keep(v, c, x), y)
  {
    if v.Some? && x.Some? && y.Some? {
      var head: seq<Comment> := if v.value then [c] else [];
      assert head + (x.value + y.value) == (head + x.value) + y.value;
    }
  }
}
