/**
 * Lexical verse search (src/lib/utils/search.ts): the match window of a
 * verse, and `searchQuran`, which filters by surah, scores every window,
 * keeps the positive scores, sorts them best first and keeps the top `topK`.
 */
module Search {
  import opened Words
  import opened Scoring

  datatype Option<T> = None | Some(value: T)

  /** A verse of the corpus: surah (chapter) number, ayah (verse) number and text. */
  datatype Verse = Verse(surah: int, ayah: int, text: string)

  /** A verse with the score its window earned. */
  datatype SearchResult = SearchResult(surah: int, ayah: int, text: string, score: real)

  /** `topK` when the caller gives none. */
  const DefaultTopK: int := 10

  function ResultOf(v: Verse, score: real): SearchResult {
    SearchResult(v.surah, v.ayah, v.text, score)
  }

  /**
   * `combineVerses(verses, index)`: the verse's text, a space, then the next
   * verse's text, or nothing after the space for the last verse. The source
   * fails on an index outside the array; its only caller never passes one.
   */
  function CombineVerses(verses: seq<Verse>, index: int): (window: string)
    requires 0 <= index < |verses|
    ensures |window| > |verses[index].text|
    ensures verses[index].text <= window
    ensures window[|verses[index].text|] == ' '
    ensures window[|verses[index].text| + 1..] == if index + 1 < |verses| then verses[index + 1].text else []
  {
    var nextText := if index + 1 < |verses| then verses[index + 1].text else "";
    verses[index].text + " " + nextText
  }

  /** The last verse's window ends in the separating space. */
  lemma LastWindowEndsInSpace(verses: seq<Verse>)
    requires |verses| > 0
    ensures var w := CombineVerses(verses, |verses| - 1); w[|w| - 1] == ' '
  {
    var w := CombineVerses(verses, |verses| - 1);
    assert |w| == |verses[|verses| - 1].text| + 1;
  }

  /**
   * Because the last window ends in white space, its words end with an empty
   * word that every query word includes: the last verse scores at least 0.7
   * against any query whatever, even one sharing nothing with it.
   */
  lemma LastWindowAlwaysScores(verses: seq<Verse>, query: string)
    requires |verses| > 0
    ensures Score(query, CombineVerses(verses, |verses| - 1)) >= 0.7
  {
    LastWindowEndsInSpace(verses);
    TrailingWsMatchesAll(query, CombineVerses(verses, |verses| - 1));
  }

  /** `!current_surah`: no surah given, or surah 0. */
  predicate Truthy(currentSurah: Option<int>) {
    currentSurah.Some? && currentSurah.value != 0
  }

  /** The filter callback of `searchQuran`: keep every verse without a surah, else only that surah. */
  predicate Keeps(currentSurah: Option<int>, v: Verse) {
    !Truthy(currentSurah) || v.surah == currentSurah.value
  }

  /** The verses the surah filter keeps, in corpus order. */
  function FilterSurah(verses: seq<Verse>, currentSurah: Option<int>): (kept: seq<Verse>)
    ensures |kept| <= |verses|
    ensures forall v :: v in kept <==> v in verses && Keeps(currentSurah, v)
    ensures !Truthy(currentSurah) ==> kept == verses
  {
    if verses == [] then []
    else (if Keeps(currentSurah, verses[0]) then [verses[0]] else []) + FilterSurah(verses[1..], currentSurah)
  }

  /** Filtering distributes over concatenation, so kept verses stay in corpus order with their repeats. */
  lemma {:induction false} FilterSurahAppend(a: seq<Verse>, b: seq<Verse>, currentSurah: Option<int>)
    ensures FilterSurah(a + b, currentSurah) == FilterSurah(a, currentSurah) + FilterSurah(b, currentSurah)
  {
    if a != [] {
      assert (a + b)[0] == a[0] && (a + b)[1..] == a[1..] + b;
      FilterSurahAppend(a[1..], b, currentSurah);
    } else {
      assert a + b == b;
    }
  }

  /**
   * The `map` step: the kept verse at position `k` of the filtered list is
   * scored against the window at position `k` of the UNFILTERED list.
   */
  function ScoreKept(kept: seq<Verse>, verses: seq<Verse>, query: string): (scored: seq<SearchResult>)
    requires |kept| <= |verses|
    ensures |scored| == |kept|
    ensures forall k :: 0 <= k < |kept| ==>
              scored[k].surah == kept[k].surah && scored[k].ayah == kept[k].ayah && scored[k].text == kept[k].text
    ensures forall k :: 0 <= k < |kept| ==> scored[k].score == Score(query, CombineVerses(verses, k))
  {
    seq(|kept|, k requires 0 <= k < |kept| => ResultOf(kept[k], Score(query, CombineVerses(verses, k))))
  }

  /** The test of the `filter` after scoring: a score above 0. */
  predicate Scored(r: SearchResult) {
    r.score > 0.0
  }

  /** The `filter` on `score > 0`. */
  function Positive(rs: seq<SearchResult>): seq<SearchResult> {
    if rs == [] then []
    else (if Scored(rs[0]) then [rs[0]] else []) + Positive(rs[1..])
  }

  /** The positive filter keeps exactly the results scoring above 0, each at most as often as given. */
  lemma {:induction false} PositiveKeeps(rs: seq<SearchResult>)
    ensures forall r :: r in Positive(rs) <==> r in rs && r.score > 0.0
    ensures multiset(Positive(rs)) <= multiset(rs)
  {
    if rs != [] {
      assert rs == [rs[0]] + rs[1..];
      PositiveKeeps(rs[1..]);
    }
  }

  /** The positive filter distributes over concatenation, so it keeps order and repeats. */
  lemma {:induction false} PositiveAppend(a: seq<SearchResult>, b: seq<SearchResult>)
    ensures Positive(a + b) == Positive(a) + Positive(b)
  {
    if a != [] {
      assert (a + b)[0] == a[0] && (a + b)[1..] == a[1..] + b;
      PositiveAppend(a[1..], b);
    } else {
      assert a + b == b;
    }
  }

  lemma AppendAssoc<T>(x: seq<T>, y: seq<T>, z: seq<T>)
    ensures x + (y + z) == (x + y) + z
  {
  }

  /** For a positive score, the results with that score pass the filter unchanged and in order. */
  lemma {:induction false} PositiveWithScore(rs: seq<SearchResult>, s: real)
    requires s > 0.0
    ensures WithScore(Positive(rs), s) == WithScore(rs, s)
  {
    if rs != [] {
      PositiveWithScore(rs[1..], s);
      var head := if Scored(rs[0]) then [rs[0]] else [];
      WithScoreAppend(head, Positive(rs[1..]), s);
      if Scored(rs[0]) {
        assert ([rs[0]] + Positive(rs[1..]))[1..] == Positive(rs[1..]);
      }
    }
  }

  /** Best score first. */
  ghost predicate Sorted(rs: seq<SearchResult>) {
    forall i, j :: 0 <= i < j < |rs| ==> rs[i].score >= rs[j].score
  }

  /** The results with score exactly `s`, in their order in `rs`. */
  function WithScore(rs: seq<SearchResult>, s: real): seq<SearchResult> {
    if rs == [] then []
    else (if rs[0].score == s then [rs[0]] else []) + WithScore(rs[1..], s)
  }

  lemma {:induction false} WithScoreAppend(a: seq<SearchResult>, b: seq<SearchResult>, s: real)
    ensures WithScore(a + b, s) == WithScore(a, s) + WithScore(b, s)
  {
    if a != [] {
      assert (a + b)[0] == a[0] && (a + b)[1..] == a[1..] + b;
      WithScoreAppend(a[1..], b, s);
    } else {
      assert a + b == b;
    }
  }

  /** Places `x` before the first result that does not beat it, so `x` precedes its ties. */
  function Insert(x: SearchResult, ys: seq<SearchResult>): (r: seq<SearchResult>)
    ensures multiset(r) == multiset(ys) + multiset{x}
    ensures |r| == |ys| + 1
  {
    if ys == [] || ys[0].score <= x.score then [x] + ys
    else
      assert ys == [ys[0]] + ys[1..];
      [ys[0]] + Insert(x, ys[1..])
  }

  /** Inserting into a sorted list keeps it sorted. */
  lemma {:induction false} InsertSorted(x: SearchResult, ys: seq<SearchResult>)
    requires Sorted(ys)
    ensures Sorted(Insert(x, ys))
  {
    if ys == [] || ys[0].score <= x.score {
      var r := [x] + ys;
      forall i, j | 0 <= i < j < |r| ensures r[i].score >= r[j].score {
        if i > 0 {
          assert r[i] == ys[i - 1] && r[j] == ys[j - 1];
        } else {
          assert r[j] == ys[j - 1];
        }
      }
    } else {
      var rest := Insert(x, ys[1..]);
      InsertSorted(x, ys[1..]);
      var r := [ys[0]] + rest;
      forall i, j | 0 <= i < j < |r| ensures r[i].score >= r[j].score {
        if i > 0 {
          assert r[i] == rest[i - 1] && r[j] == rest[j - 1];
        } else {
          assert r[j] == rest[j - 1];
          assert r[j] in multiset(ys[1..]) + multiset{x};
          if r[j] != x {
            var k :| 0 <= k < |ys[1..]| && ys[1..][k] == r[j];
            assert ys[k + 1] == r[j];
          }
        }
      }
    }
  }

  /**
   * `sort((a, b) => b.score - a.score)`: descending by score. ECMAScript
   * requires `Array.prototype.sort` to be stable; `SortIsStable` proves it.
   */
  function SortByScore(rs: seq<SearchResult>): (sorted: seq<SearchResult>)
    ensures Sorted(sorted)
    ensures multiset(sorted) == multiset(rs)
    ensures |sorted| == |rs|
  {
    if rs == [] then []
    else
      assert rs == [rs[0]] + rs[1..];
      var rest := SortByScore(rs[1..]);
      InsertSorted(rs[0], rest);
      Insert(rs[0], rest)
  }

  lemma {:induction false} InsertWithScore(x: SearchResult, ys: seq<SearchResult>, s: real)
    ensures WithScore(Insert(x, ys), s) == (if x.score == s then [x] else []) + WithScore(ys, s)
  {
    if ys == [] || ys[0].score <= x.score {
      WithScoreCons(x, ys, s);
    } else {
      var y := ys[0];
      var rest := Insert(x, ys[1..]);
      assert ys == [y] + ys[1..];
      InsertWithScore(x, ys[1..], s);
      WithScoreCons(y, rest, s);
      WithScoreCons(y, ys[1..], s);
      if x.score == s {
        assert y.score != s;
      }
    }
  }

  lemma WithScoreCons(x: SearchResult, rs: seq<SearchResult>, s: real)
    ensures WithScore([x] + rs, s) == (if x.score == s then [x] else []) + WithScore(rs, s)
  {
    assert ([x] + rs)[0] == x && ([x] + rs)[1..] == rs;
  }

  /** Stability: for every score, the results with that score keep their input order. */
  lemma {:induction false} SortIsStable(rs: seq<SearchResult>, s: real)
    ensures WithScore(SortByScore(rs), s) == WithScore(rs, s)
  {
    if rs != [] {
      SortIsStable(rs[1..], s);
      InsertWithScore(rs[0], SortByScore(rs[1..]), s);
    }
  }

  /** Everything in a sub-multiset of `b` is in `b`. */
  lemma MembersOfSubMultiset(a: seq<SearchResult>, b: seq<SearchResult>)
    requires multiset(a) <= multiset(b)
    ensures forall x :: x in a ==> x in b
  {
    forall x | x in a ensures x in b {
      assert x in multiset(a);
    }
  }

  /** `slice(0, topK)`: a negative `topK` counts back from the end. */
  function Slice(rs: seq<SearchResult>, topK: int): (r: seq<SearchResult>)
    ensures r <= rs
    ensures multiset(r) <= multiset(rs)
    ensures forall x :: x in r ==> x in rs
    ensures Sorted(rs) ==> Sorted(r)
    ensures topK >= 0 ==> |r| == if topK <= |rs| then topK else |rs|
    ensures topK < 0 ==> |r| == if |rs| + topK >= 0 then |rs| + topK else 0
  {
    var end := if topK < 0 then (if |rs| + topK >= 0 then |rs| + topK else 0)
               else if topK <= |rs| then topK else |rs|;
    assert rs == rs[..end] + rs[end..];
    rs[..end]
  }

  /** The scored verses `searchQuran` ranks, before sorting and truncating. */
  function Candidates(verses: seq<Verse>, query: string, currentSurah: Option<int>): (candidates: seq<SearchResult>)
    ensures forall r :: r in candidates ==> r.score > 0.0
    ensures Truthy(currentSurah) ==> forall r :: r in candidates ==> r.surah == currentSurah.value
    ensures verses == [] ==> candidates == []
  {
    var kept := FilterSurah(verses, currentSurah);
    var scored := ScoreKept(kept, verses, query);
    assert Truthy(currentSurah) ==> forall r :: r in scored ==> r.surah == currentSurah.value by {
      forall r | r in scored ensures Truthy(currentSurah) ==> r.surah == currentSurah.value {
        var k :| 0 <= k < |scored| && scored[k] == r;
        assert kept[k] in kept;
      }
    }
    PositiveKeeps(scored);
    Positive(scored)
  }

  /** Conversely, every kept verse whose window scores above 0 is a candidate. */
  lemma CandidatesComplete(verses: seq<Verse>, query: string, currentSurah: Option<int>, k: nat)
    requires k < |FilterSurah(verses, currentSurah)|
    requires Score(query, CombineVerses(verses, k)) > 0.0
    ensures ResultOf(FilterSurah(verses, currentSurah)[k], Score(query, CombineVerses(verses, k)))
            in Candidates(verses, query, currentSurah)
  {
    var kept := FilterSurah(verses, currentSurah);
    var scored := ScoreKept(kept, verses, query);
    assert scored[k] == ResultOf(kept[k], Score(query, CombineVerses(verses, k)));
    assert scored[k] in scored;
    PositiveKeeps(scored);
  }

  /**
   * `searchQuran(verses, query, current_surah, topK)`. Every result scored
   * above 0, results come best first, there are at most `topK` of them, they
   * all belong to the requested surah, and each is one of the candidates.
   */
  function SearchQuran(verses: seq<Verse>, query: string, currentSurah: Option<int>, topK: int := DefaultTopK)
    : (results: seq<SearchResult>)
    ensures forall r :: r in results ==> r.score > 0.0
    ensures Sorted(results)
    ensures topK >= 0 ==> |results| == if topK <= |Candidates(verses, query, currentSurah)| then topK
                                       else |Candidates(verses, query, currentSurah)|
    ensures topK < 0 ==> |results| == if |Candidates(verses, query, currentSurah)| + topK >= 0
                                      then |Candidates(verses, query, currentSurah)| + topK else 0
    ensures Truthy(currentSurah) ==> forall r :: r in results ==> r.surah == currentSurah.value
    ensures verses == [] ==> results == []
    ensures multiset(results) <= multiset(Candidates(verses, query, currentSurah))
  {
    var candidates := Candidates(verses, query, currentSurah);
    var sorted := SortByScore(candidates);
    MembersOfSubMultiset(sorted, candidates);
    Slice(sorted, topK)
  }

  /** The top `topK` really are the best: every candidate left out scored no higher than any result. */
  lemma TopKAreBest(verses: seq<Verse>, query: string, currentSurah: Option<int>, topK: int)
    ensures forall c, r ::
              (c in Candidates(verses, query, currentSurah) && c !in SearchQuran(verses, query, currentSurah, topK) &&
               r in SearchQuran(verses, query, currentSurah, topK)) ==> c.score <= r.score
  {
    var candidates := Candidates(verses, query, currentSurah);
    var sorted := SortByScore(candidates);
    var results := SearchQuran(verses, query, currentSurah, topK);
    assert results == Slice(sorted, topK);
    forall c, r | c in candidates && c !in results && r in results ensures c.score <= r.score {
      assert c in multiset(sorted);
      var j :| 0 <= j < |sorted| && sorted[j] == c;
      var i :| 0 <= i < |results| && results[i] == r;
      assert sorted[i] == r;
      assert results == sorted[..|results|];
      OutsidePrefix(sorted, |results|, j);
    }
  }

  /** An element missing from a prefix sits at or beyond the prefix's end. */
  lemma OutsidePrefix(rs: seq<SearchResult>, n: nat, j: nat)
    requires n <= |rs| && j < |rs| && rs[j] !in rs[..n]
    ensures j >= n
  {
    assert forall k :: 0 <= k < n ==> rs[..n][k] == rs[k];
  }

  /** Keeping a prefix keeps a prefix of every score class. */
  lemma {:induction false} WithScorePrefix(a: seq<SearchResult>, b: seq<SearchResult>, s: real)
    requires a <= b
    ensures WithScore(a, s) <= WithScore(b, s)
  {
    if a != [] {
      assert a[1..] <= b[1..];
      WithScorePrefix(a[1..], b[1..], s);
    }
  }

  /**
   * Ties keep filtered-input order: for every score, the results with that
   * score are the first candidates with that score, in corpus order.
   */
  lemma SearchIsStable(verses: seq<Verse>, query: string, currentSurah: Option<int>, topK: int, s: real)
    ensures WithScore(SearchQuran(verses, query, currentSurah, topK), s)
            <= WithScore(Candidates(verses, query, currentSurah), s)
  {
    var candidates := Candidates(verses, query, currentSurah);
    var sorted := SortByScore(candidates);
    SortIsStable(candidates, s);
    WithScorePrefix(Slice(sorted, topK), sorted, s);
  }

  /** When there are no more than `topK` candidates, all of them are returned. */
  lemma FewCandidatesAllReturned(verses: seq<Verse>, query: string, currentSurah: Option<int>, topK: int)
    requires |Candidates(verses, query, currentSurah)| <= topK
    ensures multiset(SearchQuran(verses, query, currentSurah, topK)) == multiset(Candidates(verses, query, currentSurah))
  {
    var candidates := Candidates(verses, query, currentSurah);
    var sorted := SortByScore(candidates);
    assert |sorted| == |candidates| by {
      assert |multiset(sorted)| == |multiset(candidates)|;
    }
    assert Slice(sorted, topK) == sorted;
  }

  /**
   * Without a surah filter every result is a verse of the corpus scored
   * against its own window.
   */
  lemma UnfilteredOwnWindow(verses: seq<Verse>, query: string, currentSurah: Option<int>, topK: int)
    requires !Truthy(currentSurah)
    ensures forall r :: r in SearchQuran(verses, query, currentSurah, topK) ==>
              exists i :: 0 <= i < |verses| && r == ResultOf(verses[i], Score(query, CombineVerses(verses, i)))
  {
    var results := SearchQuran(verses, query, currentSurah, topK);
    var candidates := Candidates(verses, query, currentSurah);
    var scored := ScoreKept(verses, verses, query);
    assert FilterSurah(verses, currentSurah) == verses;
    assert candidates == Positive(scored);
    PositiveKeeps(scored);
    MembersOfSubMultiset(results, candidates);
    ScoreKeptOwnWindow(verses, query);
  }

  /** Scoring the whole corpus gives every verse the score of its own window. */
  lemma ScoreKeptOwnWindow(verses: seq<Verse>, query: string)
    ensures forall r :: r in ScoreKept(verses, verses, query) ==>
              exists i :: 0 <= i < |verses| && r == ResultOf(verses[i], Score(query, CombineVerses(verses, i)))
  {
    var scored := ScoreKept(verses, verses, query);
    forall r | r in scored
      ensures exists i :: 0 <= i < |verses| && r == ResultOf(verses[i], Score(query, CombineVerses(verses, i)))
    {
      var i :| 0 <= i < |scored| && scored[i] == r;
    }
  }

  /**
   * Without a surah filter the last verse is always a candidate, scoring at
   * least 0.7, whatever the query: its window ends in a space.
   */
  lemma LastVerseAlwaysCandidate(verses: seq<Verse>, query: string, currentSurah: Option<int>)
    requires |verses| > 0 && !Truthy(currentSurah)
    ensures var last := |verses| - 1;
            var score := Score(query, CombineVerses(verses, last));
            score >= 0.7 && ResultOf(verses[last], score) in Candidates(verses, query, currentSurah)
  {
    var last := |verses| - 1;
    LastWindowAlwaysScores(verses, query);
    var scored := ScoreKept(verses, verses, query);
    assert FilterSurah(verses, currentSurah) == verses;
    assert scored[last] in scored;
    PositiveKeeps(scored);
  }

  /**
   * Consequently an unfiltered search of a non-empty corpus with a positive
   * `topK` never comes back empty, whatever the query.
   */
  lemma UnfilteredSearchNeverEmpty(verses: seq<Verse>, query: string, currentSurah: Option<int>, topK: int)
    requires |verses| > 0 && !Truthy(currentSurah) && topK > 0
    ensures |SearchQuran(verses, query, currentSurah, topK)| > 0
  {
    var candidates := Candidates(verses, query, currentSurah);
    LastVerseAlwaysCandidate(verses, query, currentSurah);
    var sorted := SortByScore(candidates);
    assert |sorted| == |candidates| by {
      assert |multiset(sorted)| == |multiset(candidates)|;
    }
  }

  /**
   * The scoring step as evidently intended: each kept verse is scored
   * against its OWN window, the one at its position in the unfiltered corpus.
   */
  function ScoreOwnWindows(verses: seq<Verse>, query: string, currentSurah: Option<int>, from: nat)
    : (scored: seq<SearchResult>)
    requires from <= |verses|
    ensures forall r :: r in scored ==>
              exists i :: from <= i < |verses| && Keeps(currentSurah, verses[i]) &&
                          r == ResultOf(verses[i], Score(query, CombineVerses(verses, i)))
    decreases |verses| - from
  {
    if from == |verses| then []
    else
      var own := ResultOf(verses[from], Score(query, CombineVerses(verses, from)));
      (if Keeps(currentSurah, verses[from]) then [own] else []) + ScoreOwnWindows(verses, query, currentSurah, from + 1)
  }

  /**
   * `searchQuran` with each verse scored against its own window. Every
   * result is a kept verse of the corpus with the score of its own window.
   */
  function SearchQuranOwnWindow(verses: seq<Verse>, query: string, currentSurah: Option<int>, topK: int := DefaultTopK)
    : (results: seq<SearchResult>)
    ensures Sorted(results)
    ensures topK >= 0 ==> |results| <= topK
    ensures forall r :: r in results ==>
              r.score > 0.0 &&
              exists i :: 0 <= i < |verses| && Keeps(currentSurah, verses[i]) &&
                          r == ResultOf(verses[i], Score(query, CombineVerses(verses, i)))
  {
    var candidates := Positive(ScoreOwnWindows(verses, query, currentSurah, 0));
    PositiveKeeps(ScoreOwnWindows(verses, query, currentSurah, 0));
    var results := Slice(SortByScore(candidates), topK);
    MembersOfSubMultiset(results, candidates);
    results
  }

  /**
   * With a surah filter, `searchQuran` scores the verse at filtered position
   * `k` against the window of corpus position `k`. Corpus: "a" (surah 1) then
   * "b" (surah 2); query "a" restricted to surah 2. Verse 2:1 is reported
   * with the exact-match score 4/3 of the window "a b", although its own
   * window "b " does not contain the query and scores below 1.
   */
  lemma FilteredWindowMismatch(verses: seq<Verse>)
    requires verses == [Verse(1, 1, "a"), Verse(2, 1, "b")]
    ensures SearchQuran(verses, "a", Some(2)) == [SearchResult(2, 1, "b", 1.0 + 1.0 / 3.0)]
    ensures Score("a", CombineVerses(verses, 1)) < 1.0
    ensures SearchQuranOwnWindow(verses, "a", Some(2)) != SearchQuran(verses, "a", Some(2))
  {
    FilteredSearchScoresFirstWindow(verses);
    OwnWindowScoresBelowOne(verses);
    OwnWindowOmits(verses);
  }

  /** Corrected: only verse 2:1 passes the filter, and its own window scores below 1. */
  lemma OwnWindowOmits(verses: seq<Verse>)
    requires verses == [Verse(1, 1, "a"), Verse(2, 1, "b")]
    ensures forall r :: r in SearchQuranOwnWindow(verses, "a", Some(2)) ==> r.score < 1.0
  {
    OwnWindowScoresBelowOne(verses);
    var own := SearchQuranOwnWindow(verses, "a", Some(2));
    forall r | r in own ensures r.score < 1.0 {
      var i :| 0 <= i < |verses| && Keeps(Some(2), verses[i]) &&
               r == ResultOf(verses[i], Score("a", CombineVerses(verses, i)));
      assert i == 1;
    }
  }

  /** As written: the only kept verse, 2:1, is scored on window 0, "a b", which contains "a". */
  lemma FilteredSearchScoresFirstWindow(verses: seq<Verse>)
    requires verses == [Verse(1, 1, "a"), Verse(2, 1, "b")]
    ensures SearchQuran(verses, "a", Some(2)) == [SearchResult(2, 1, "b", 1.0 + 1.0 / 3.0)]
  {
    var v2 := Verse(2, 1, "b");
    assert FilterSurah(verses[1..], Some(2)) == [v2];
    assert FilterSurah(verses, Some(2)) == [v2];
    assert CombineVerses(verses, 0) == "a b";
    assert "a" <= "a b";
    assert Score("a", "a b") == 1.0 + 1.0 / 3.0;
    var scored := ScoreKept([v2], verses, "a");
    assert scored == [SearchResult(2, 1, "b", 1.0 + 1.0 / 3.0)];
    assert Positive(scored[1..]) == [];
    var candidates := Positive(scored);
    assert candidates == scored;
    assert SortByScore(candidates[1..]) == [];
    assert SortByScore(candidates) == candidates;
  }

  /** Intended: verse 2:1's own window is "b ", which does not contain "a", so it scores below 1. */
  lemma OwnWindowScoresBelowOne(verses: seq<Verse>)
    requires verses == [Verse(1, 1, "a"), Verse(2, 1, "b")]
    ensures Score("a", CombineVerses(verses, 1)) < 1.0
  {
    var own := CombineVerses(verses, 1);
    assert own == "b ";
    assert !Contains([], "a");
    assert !Contains(" ", "a");
    assert !Contains(own, "a");
    SplitNoWs("a");
    TallyShape(Split("a"), Split(own));
    LastWindowAlwaysScores(verses, "a");
    if TallyOf(Split("a"), Split(own)).matched > 0 {
      OverlapScore("a", own);
    }
  }
}
