/**
 * `phraseMatchScore(query, text)` (src/lib/utils/search.ts): how well a
 * transcript fragment matches a window of verse text. Scores are exact
 * rationals here; the source computes them in IEEE doubles.
 */
module Scoring {
  import opened Words

  /** Weight of the share of query words that found a text word. */
  const WordWeight: real := 0.7
  /** Added each time a match lands right after the previous match. */
  const ConsecutiveBonus: real := 0.2
  /** Weight of the (capped) length ratio of query to text. */
  const LengthWeight: real := 0.1
  /** `lastMatchIdx` before any match: far enough that index 0 earns no bonus. */
  const NoLastMatch: int := -2

  /**
   * The state of the word loop: how many query words matched, how many
   * consecutive-bonus increments were earned, and the last matched index.
   */
  datatype Tally = Tally(matched: nat, bonuses: nat, last: int)

  /** One iteration of the loop, given `findIndex`'s answer for the query word. */
  function Step(t: Tally, idx: int): Tally {
    if idx == -1 then t
    else Tally(t.matched + 1, if idx == t.last + 1 then t.bonuses + 1 else t.bonuses, idx)
  }

  /** The loop's state after the query words `qWords`, in order, against `tWords`. */
  function TallyOf(qWords: seq<string>, tWords: seq<string>): Tally
    decreases |qWords|
  {
    if qWords == [] then Tally(0, 0, NoLastMatch)
    else Step(TallyOf(qWords[..|qWords| - 1], tWords), FindIndex(tWords, qWords[|qWords| - 1]))
  }

  /** `Math.min` on two numbers: the smaller one. */
  /** `Math.min` on two numbers. */
  function Min(a: real, b: real): real {
    if a <= b then a else b
  }

  /** `Min` gives the smaller of its arguments: at most both, and one of them. */
  lemma MinBounds(a: real, b: real)
    ensures Min(a, b) <= a && Min(a, b) <= b
    ensures Min(a, b) == a || Min(a, b) == b
  {
  }

  function LengthRatio(query: string, text: string): real
    requires |text| > 0
  {
    |query| as real / |text| as real
  }

  /** A count over a positive total is a non-negative share, positive when the count is, at most 1 when the count is at most the total. */
  lemma Fraction(a: nat, b: nat)
    requires 0 < b
    ensures 0.0 <= a as real / b as real
    ensures a > 0 ==> a as real / b as real > 0.0
    ensures a <= b ==> a as real / b as real <= 1.0
    ensures a == b ==> a as real / b as real == 1.0
  {
  }

  /**
   * The score `phraseMatchScore` returns: the exact-substring branch, the
   * zero of the no-match branch, and the weighted word-overlap formula.
   */
  function Score(query: string, text: string): real
    requires |text| > 0
  {
    if Contains(text, query) then 1.0 + LengthRatio(query, text)
    else
      var qWords := Split(query);
      var t := TallyOf(qWords, Split(text));
      if t.matched == 0 then 0.0
      else
        WordWeight * (t.matched as real / |qWords| as real)
        + ConsecutiveBonus * t.bonuses as real
        + LengthWeight * Min(1.0, LengthRatio(query, text))
  }

  /** `phraseMatchScore`, with its loop over the query words. */
  method PhraseMatchScore(query: string, text: string) returns (score: real)
    requires |text| > 0
    ensures score == Score(query, text)
  {
    var queryWords := Split(query);
    if Contains(text, query) {
      return 1.0 + |query| as real / |text| as real;
    }
    var textWords := Split(text);
    var matchedWords := 0;
    var consecutiveBonus := 0.0;
    var lastMatchIdx := NoLastMatch;
    ghost var bonusCount := 0;
    var i := 0;
    while i < |queryWords|
      invariant 0 <= i <= |queryWords|
      invariant TallyOf(queryWords[..i], textWords) == Tally(matchedWords, bonusCount, lastMatchIdx)
      invariant consecutiveBonus == ConsecutiveBonus * bonusCount as real
    {
      var qWord := queryWords[i];
      TallyOfSnoc(queryWords, i, textWords);
      var idx := FindIndex(textWords, qWord);
      if idx != -1 {
        matchedWords := matchedWords + 1;
        if idx == lastMatchIdx + 1 {
          consecutiveBonus := consecutiveBonus + 0.2;
          bonusCount := bonusCount + 1;
        }
        lastMatchIdx := idx;
      }
      i := i + 1;
    }
    assert queryWords[..i] == queryWords;
    assert Score(query, text) ==
      if matchedWords == 0 then 0.0
      else WordWeight * (matchedWords as real / |queryWords| as real)
           + ConsecutiveBonus * bonusCount as real
           + LengthWeight * Min(1.0, |query| as real / |text| as real);
    if matchedWords == 0 {
      return 0.0;
    }
    var wordScore := matchedWords as real / |queryWords| as real;
    var lengthPenalty := Min(1.0, |query| as real / |text| as real);
    score := wordScore * 0.7 + consecutiveBonus + lengthPenalty * 0.1;
  }

  /** One more query word advances the tally by one `Step`. */
  lemma TallyOfSnoc(qWords: seq<string>, i: nat, tWords: seq<string>)
    requires i < |qWords|
    ensures TallyOf(qWords[..i + 1], tWords) == Step(TallyOf(qWords[..i], tWords), FindIndex(tWords, qWords[i]))
  {
    assert qWords[..i + 1][..i] == qWords[..i];
  }

  /**
   * The loop's invariant: the count never exceeds the query words, no match
   * means no bonus and the start index, and after a match the last index is a
   * real text position and the first match never earned a bonus.
   */
  lemma {:induction false} TallyShape(qWords: seq<string>, tWords: seq<string>)
    ensures TallyOf(qWords, tWords).matched <= |qWords|
    ensures TallyOf(qWords, tWords).matched == 0 <==> TallyOf(qWords, tWords).last == NoLastMatch
    ensures TallyOf(qWords, tWords).matched == 0 ==> TallyOf(qWords, tWords).bonuses == 0
    ensures TallyOf(qWords, tWords).matched > 0 ==>
              TallyOf(qWords, tWords).bonuses < TallyOf(qWords, tWords).matched &&
              0 <= TallyOf(qWords, tWords).last < |tWords|
    decreases |qWords|
  {
    if qWords != [] {
      TallyShape(qWords[..|qWords| - 1], tWords);
    }
  }

  /** No query word was counted exactly when no query word has a matching text word. */
  lemma {:induction false} NoneMatched(qWords: seq<string>, tWords: seq<string>)
    ensures TallyOf(qWords, tWords).matched == 0 <==>
            forall k :: 0 <= k < |qWords| ==> !HasMatch(tWords, qWords[k])
    decreases |qWords|
  {
    if qWords != [] {
      var init := qWords[..|qWords| - 1];
      NoneMatched(init, tWords);
      assert forall k :: 0 <= k < |init| ==> init[k] == qWords[k];
    }
  }

  /** Every query word was counted exactly when every query word has a matching text word. */
  lemma {:induction false} AllMatched(qWords: seq<string>, tWords: seq<string>)
    ensures TallyOf(qWords, tWords).matched == |qWords| <==>
            forall k :: 0 <= k < |qWords| ==> HasMatch(tWords, qWords[k])
    decreases |qWords|
  {
    if qWords != [] {
      var init := qWords[..|qWords| - 1];
      AllMatched(init, tWords);
      TallyShape(init, tWords);
      assert forall k :: 0 <= k < |init| ==> init[k] == qWords[k];
    }
  }

  /** A query found verbatim in the text scores 1 plus its share of the text, between 1 and 2. */
  lemma ExactMatchScore(query: string, text: string)
    requires |text| > 0 && Contains(text, query)
    ensures Score(query, text) == 1.0 + |query| as real / |text| as real
    ensures 1.0 <= Score(query, text) <= 2.0
    ensures Score(query, text) > 1.0 <==> |query| > 0
  {
    Fraction(|query|, |text|);
  }

  /** The empty query is found in every text, so it scores exactly 1, not 0. */
  lemma EmptyQueryScore(text: string)
    requires |text| > 0
    ensures Score([], text) == 1.0
  {
    ContainsEmpty(text);
  }

  /** The score is 0 exactly when the query is not in the text and none of its words matches a text word. */
  lemma ZeroScore(query: string, text: string)
    requires |text| > 0
    ensures Score(query, text) == 0.0 <==>
            !Contains(text, query) &&
            forall k :: 0 <= k < |Split(query)| ==> !HasMatch(Split(text), Split(query)[k])
  {
    var qWords, tWords := Split(query), Split(text);
    NoneMatched(qWords, tWords);
    if !Contains(text, query) && TallyOf(qWords, tWords).matched > 0 {
      OverlapScore(query, text);
    } else if Contains(text, query) {
      ExactMatchScore(query, text);
    }
  }

  /**
   * In the word-overlap branch with at least one match: the score is
   * positive, above the coverage term, and at most 0.8 plus the bonus, where
   * the bonus counts at most one increment per match after the first.
   */
  lemma OverlapScore(query: string, text: string)
    requires |text| > 0 && !Contains(text, query)
    requires TallyOf(Split(query), Split(text)).matched > 0
    ensures 0.0 < Score(query, text)
    ensures TallyOf(Split(query), Split(text)).bonuses <= TallyOf(Split(query), Split(text)).matched - 1
    ensures WordWeight * (TallyOf(Split(query), Split(text)).matched as real / |Split(query)| as real)
            < Score(query, text)
    ensures Score(query, text)
            <= 0.8 + ConsecutiveBonus * TallyOf(Split(query), Split(text)).bonuses as real
  {
    var qWords, tWords := Split(query), Split(text);
    var t := TallyOf(qWords, tWords);
    TallyShape(qWords, tWords);
    ContainsEmpty(text);
    assert |query| > 0;
    Fraction(t.matched, |qWords|);
    var ratio := Min(1.0, LengthRatio(query, text));
    Fraction(|query|, |text|);
    assert 0.0 < ratio <= 1.0;
  }

  /** Every score lies between 0 and the larger of 2 and 0.6 plus 0.2 per query word. */
  lemma ScoreBounds(query: string, text: string)
    requires |text| > 0
    ensures 0.0 <= Score(query, text)
    ensures Score(query, text) <= 2.0 || Score(query, text) <= 0.6 + 0.2 * |Split(query)| as real
  {
    if Contains(text, query) {
      ExactMatchScore(query, text);
    } else if TallyOf(Split(query), Split(text)).matched > 0 {
      OverlapScore(query, text);
      TallyShape(Split(query), Split(text));
    }
  }

  /**
   * A text ending in white space splits into a last empty word, which every
   * query word includes: every query word matches and the score is at least 0.7.
   */
  lemma TrailingWsMatchesAll(query: string, text: string)
    requires |text| > 0 && IsWs(text[|text| - 1])
    ensures TallyOf(Split(query), Split(text)).matched == |Split(query)|
    ensures Score(query, text) >= 0.7
  {
    var qWords, tWords := Split(query), Split(text);
    SplitTrailingWs(text);
    forall k | 0 <= k < |qWords| ensures HasMatch(tWords, qWords[k]) {
      EmptyWordMatches(qWords[k]);
      assert Matches(tWords[|tWords| - 1], qWords[k]);
    }
    AllMatched(qWords, tWords);
    if Contains(text, query) {
      ExactMatchScore(query, text);
    } else {
      OverlapScore(query, text);
      Fraction(|qWords|, |qWords|);
    }
  }

  /** A query that differs from the text at some position is not a prefix of it. */
  lemma NotPrefix(q: string, t: string, k: nat)
    requires k < |q| && k < |t| && q[k] != t[k]
    ensures !(q <= t)
  {
  }

  /** "a c e" is the words "a", "c" and "e" joined by single spaces. */
  lemma PiecesACE(q: string)
    requires q == "a c e"
    ensures q[..1] == "a" && q[2..3] == "c" && q[4..] == "e"
    ensures q == q[..1] + " " + (q[2..3] + " " + q[4..])
  {
  }

  /** "ab cd ef" is the words "ab", "cd" and "ef" joined by single spaces. */
  lemma PiecesABCDEF(t: string)
    requires t == "ab cd ef"
    ensures t[..2] == "ab" && t[3..5] == "cd" && t[6..] == "ef"
    ensures t == t[..2] + " " + (t[3..5] + " " + t[6..])
  {
  }

  /** `"a c e".split(/\s+/)` is `["a", "c", "e"]`. */
  lemma SplitACE(q: string)
    requires q == "a c e"
    ensures Split(q) == ["a", "c", "e"]
  {
    PiecesACE(q);
    SplitThreeWords(q[..1], q[2..3], q[4..]);
  }

  /** `"ab cd ef".split(/\s+/)` is `["ab", "cd", "ef"]`. */
  lemma SplitABCDEF(t: string)
    requires t == "ab cd ef"
    ensures Split(t) == ["ab", "cd", "ef"]
  {
    PiecesABCDEF(t);
    SplitThreeWords(t[..2], t[3..5], t[6..]);
  }

  /** "a c e" occurs nowhere in "ab cd ef". */
  lemma NotContainsACE(t: string, q: string)
    requires t == "ab cd ef" && q == "a c e"
    ensures !Contains(t, q)
  {
    assert !Contains(t[4..], q);
    assert t[3..][1..] == t[4..];
    NotPrefix(q, t[3..], 0);
    assert !Contains(t[3..], q);
    assert t[2..][1..] == t[3..];
    NotPrefix(q, t[2..], 0);
    assert !Contains(t[2..], q);
    assert t[1..][1..] == t[2..];
    NotPrefix(q, t[1..], 0);
    assert !Contains(t[1..], q);
    NotPrefix(q, t, 1);
  }

  /** Against the words of "ab cd ef", the words of "a c e" match at 0, 1 and 2: three matches, two consecutive. */
  lemma TallyACE(qWords: seq<string>, tWords: seq<string>)
    requires qWords == ["a", "c", "e"] && tWords == ["ab", "cd", "ef"]
    ensures TallyOf(qWords, tWords) == Tally(3, 2, 2)
  {
    assert "a" <= "ab";
    assert !Contains("b", "c") && !Contains("ab", "c") && !Contains("c", "ab");
    assert "c" <= "cd";
    assert !Contains("b", "e") && !Contains("ab", "e") && !Contains("e", "ab");
    assert !Contains("d", "e") && !Contains("cd", "e") && !Contains("e", "cd");
    assert "e" <= "ef";
    assert FindIndex(tWords, qWords[0]) == 0;
    assert FindIndex(tWords[1..], qWords[1]) == 0 && FindIndex(tWords, qWords[1]) == 1;
    assert FindIndex(tWords[2..], qWords[2]) == 0 && FindIndex(tWords[1..], qWords[2]) == 1;
    assert FindIndex(tWords, qWords[2]) == 2;
    assert qWords[..1][..0] == [] && qWords[..2][..1] == qWords[..1] && qWords[..3][..2] == qWords[..2];
    assert TallyOf(qWords[..1], tWords) == Tally(1, 0, 0);
    assert TallyOf(qWords[..2], tWords) == Tally(2, 1, 1);
    assert qWords[..3] == qWords;
  }

  /**
   * An exact match does not always win: "a" occurs verbatim in "ab cd ef"
   * and scores 9/8, while "a c e" does not occur there but matches all
   * three words in a row and scores 0.7 + 0.4 + 0.1·5/8 = 1.1625.
   */
  lemma ExactMatchCanLose(exact: string, overlap: string, text: string)
    requires exact == "a" && overlap == "a c e" && text == "ab cd ef"
    ensures Contains(text, exact) && Score(exact, text) == 1.125
    ensures !Contains(text, overlap) && Score(overlap, text) == 1.1625
    ensures Score(exact, text) < Score(overlap, text)
  {
    assert exact <= text;
    NotContainsACE(text, overlap);
    SplitACE(overlap);
    SplitABCDEF(text);
    TallyACE(Split(overlap), Split(text));
  }
}
