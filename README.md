# Lexical verse search of follow-quran, in Dafny

follow-quran listens to a recitation, transcribes each speech segment, and
searches the Quran for the verses the segment matches. This project models
the lexical search in `src/lib/utils/search.ts` and the padding helper in
`src/lib/utils/strings.ts`, and proves what they do:

- `phraseMatchScore(query, text)` scores a transcript fragment against a
  window of verse text. If the window contains the whole fragment, the score
  is `1 + |query|/|text|`. Otherwise both are split on white space. Each query
  word looks for the first text word that contains it or is contained in it.
  The score is `0.7·matched/|queryWords| + 0.2·(consecutive matches) +
  0.1·min(1, |query|/|text|)`, or 0 when no query word matched.
- `combineVerses(verses, i)` builds the window: verse `i`, a space, verse `i+1`.
- `searchQuran(verses, query, current_surah, topK)` filters by surah, scores
  every window, keeps positive scores, sorts best first and keeps `topK`.
- `lpad(str, len, pad)` left-pads a string.

The records of the source become datatypes: `Search.Verse` is a verse
(surah, ayah, text) and `Search.SearchResult` is a verse with its score
(src/lib/utils/search.ts:1-9). The optional `current_surah` is an `Option<int>`.

Files and modules:

- `strings.dfy`, module `Strings`: `lpad` and `String.prototype.repeat`.
- `words.dfy`, module `Words`: the string primitives the scorer uses.
  These are ECMAScript's `\s` class, `includes`, `split(/\s+/)` (with the
  empty words it leaves at a leading or trailing white-space run) and
  `findIndex`.
- `scoring.dfy`, module `Scoring`: the score as a function `Score` and
  `phraseMatchScore` as a method with its loop over the query words. The
  method is proved equal to `Score`, and the lemmas state what `Score` promises.
- `search.dfy`, module `Search`: verses, windows, the `searchQuran` pipeline
  (surah filter, scoring, positive filter, a stable descending sort, `slice`)
  and the lemmas about its results.

Scores are exact rationals (`real`). The source computes them in IEEE doubles.

Three behaviours of the code are easy to miss, and the model keeps them:

- Every text includes the empty string, so the empty query scores exactly 1
  rather than 0 (`Scoring.EmptyQueryScore`). A search for the empty query
  therefore returns verses rather than nothing.
- With a surah filter, the verse at filtered position `k` is scored against
  the window at corpus position `k`, not against its own window (see
  Findings).
- An exact match does not always beat a non-exact one, because the
  consecutive bonus is unbounded. `Scoring.ExactMatchCanLose` shows one
  case: against `"ab cd ef"`, the query `"a"`, which the text contains,
  scores 9/8. The query `"a c e"`, which it does not contain, scores
  1.1625. In general the model claims only the bounds in
  `Scoring.ScoreBounds` and `Scoring.OverlapScore`.

## Model

| member | source | states |
|---|---|---|
| `Strings.Repeat` | src/lib/utils/strings.ts:2 | `pad.repeat(n)` has `n·|pad|` characters; with a one-character pad, every character is that pad |
| `Strings.RepeatBlock` | src/lib/utils/strings.ts:2 | for every `i < n`, the characters `i·|p|` up to `(i+1)·|p|` of `p.repeat(n)` are exactly `p`, whatever the length of `p` |
| `Strings.RepeatSnoc` | src/lib/utils/strings.ts:2 | one more repetition is the old result followed by the pad |
| `Strings.Lpad` | src/lib/utils/strings.ts:1-3 | a string of length at least `len` comes back unchanged; otherwise the length is `|str| + (len−|str|)·|pad|`; `str` is always a suffix; with a one-character pad the length is exactly `max(len, |str|)` and the prefix is all pad |
| `Strings.LpadBlock` | src/lib/utils/strings.ts:2 | when padding happens, the prefix before `str` is `len − |str|` whole copies of `pad`, block `i` being `pad` itself, for a pad of any length |
| `Strings.LpadReachesLength` | src/lib/utils/strings.ts:2 | with a non-empty pad the result is at least `len` and at least `|str|` long |
| `Strings.LpadIdempotent` | src/lib/utils/strings.ts:2 | with a non-empty pad, padding twice equals padding once |
| `Strings.LpadEmptyPad` | src/lib/utils/strings.ts:2 | an empty pad returns `str` for every `len` |
| `Words.IsWs` | src/lib/utils/search.ts:29 | the `\s` of `/\s+/`: ECMAScript's WhiteSpace and LineTerminator code points (tab, line feed, vertical tab, form feed, carriage return, space, no-break space, the Unicode space separators, line and paragraph separators, byte-order mark) |
| `Words.Contains` | src/lib/utils/search.ts:31 | `includes`: a string only contains strings no longer than itself |
| `Words.ContainsAtOffset` | src/lib/utils/search.ts:31 | `Contains(t, q)` holds iff `q` is a prefix of `t[i..]` for some offset `i` (both directions) |
| `Words.ContainsEmpty` | src/lib/utils/search.ts:31 | every string includes the empty string |
| `Words.Split` | src/lib/utils/search.ts:29 | `split(/\s+/)` always yields at least one word |
| `Words.WordLengthMaximal` | src/lib/utils/search.ts:29 | the first word has no white space and stops at white space or the end of the string |
| `Words.WordLengthNoWs` | src/lib/utils/search.ts:29 | a string without white space is one whole word |
| `Words.WordEndsBy` | src/lib/utils/search.ts:29 | the first word ends no later than any white-space character |
| `Words.RunLengthMaximal` | src/lib/utils/search.ts:29 | the separator run is all white space and stops at a word character or the end |
| `Words.RemainderStartsWord` | src/lib/utils/search.ts:29 | after a maximal separator run, the rest, when non-empty, starts with a non-empty word |
| `Words.SplitFirstWord` | src/lib/utils/search.ts:29 | the first word is the longest white-space-free prefix |
| `Words.SplitWordsNoWs` | src/lib/utils/search.ts:29 | no word contains white space |
| `Words.SplitInteriorNonEmpty` | src/lib/utils/search.ts:29 | only the first and the last word can be empty |
| `Words.SplitAtSpace` | src/lib/utils/search.ts:29 | a white-space-free word, one space and a string starting with a word character split into that word followed by the split of the rest |
| `Words.SplitThreeWords` | src/lib/utils/search.ts:29 | three white-space-free words joined by single spaces (the last two non-empty) split back into exactly those three words |
| `Words.WordLengthStopsAtWs` | src/lib/utils/search.ts:29 | a white-space-free prefix followed by white space is exactly the first word |
| `Words.Separators` | src/lib/utils/search.ts:29 | the runs `split(/\s+/)` removes number one fewer than the words |
| `Words.SeparatorsAreRuns` | src/lib/utils/search.ts:29 | every removed run is non-empty and all white space |
| `Words.SplitJoin` | src/lib/utils/search.ts:29 | round trip: the words interleaved with the removed runs give back the original string |
| `Words.SplitNoWs` | src/lib/utils/search.ts:35 | a string without white space is a single word |
| `Words.SplitLeadingWs` | src/lib/utils/search.ts:35 | leading white space leaves an empty first word |
| `Words.SplitTrailingWs` | src/lib/utils/search.ts:35 | trailing white space leaves an empty last word |
| `Words.Matches` | src/lib/utils/search.ts:41 | the `findIndex` callback: a text word matches a query word when either includes the other |
| `Words.EmptyWordMatches` | src/lib/utils/search.ts:41 | the empty text word matches every query word (`qWord.includes("")`) |
| `Words.FindIndex` | src/lib/utils/search.ts:41 | `findIndex` gives −1 iff no text word matches; otherwise it gives a matching index with no match before it |
| `Scoring.Score` | src/lib/utils/search.ts:28-55 | the value `phraseMatchScore` returns for a non-empty text: `1 + |query|/|text|` when the text contains the query, else 0 when no query word matched, else `0.7·matched/|queryWords| + 0.2·bonuses + 0.1·min(1, |query|/|text|)`; the lemmas below state its properties |
| `Scoring.Step` | src/lib/utils/search.ts:41-46 | one iteration of the loop: no change when `findIndex` gives −1, else one more match, one more bonus when the index follows the last match, and the index remembered |
| `Scoring.TallyOf` | src/lib/utils/search.ts:36-47 | the loop's state after the first query words, starting from 0 matches, 0 bonus and −2 as the last index |
| `Scoring.TallyOfSnoc` | src/lib/utils/search.ts:40-47 | the state after `i + 1` query words is one `Step` from the state after `i`, with `findIndex`'s answer for word `i` |
| `Scoring.MinBounds` | src/lib/utils/search.ts:52 | `Math.min` as `Scoring.Min`: the result is at most both arguments and is one of them |
| `Scoring.PhraseMatchScore` | src/lib/utils/search.ts:28-55 | the loop over the query words computes exactly `Score(query, text)` |
| `Scoring.TallyShape` | src/lib/utils/search.ts:36-46 | matched ≤ number of query words; no match iff `lastMatchIdx` is still −2, and then the bonus is 0; after a match the bonus count is below the match count (the first match never earns it) and the last index is a text position |
| `Scoring.NoneMatched` | src/lib/utils/search.ts:40-47 | the match count is 0 iff no query word has a matching text word |
| `Scoring.AllMatched` | src/lib/utils/search.ts:40-47 | the match count equals the number of query words iff every query word has a matching text word |
| `Scoring.ExactMatchScore` | src/lib/utils/search.ts:31-33 | a query contained in the text scores `1 + |query|/|text|`, which lies in [1, 2] and is above 1 iff the query is non-empty |
| `Scoring.EmptyQueryScore` | src/lib/utils/search.ts:29-33 | the empty query scores exactly 1 |
| `Scoring.ZeroScore` | src/lib/utils/search.ts:31-49 | the score is 0 iff the text does not contain the query and no query word matches any text word |
| `Scoring.OverlapScore` | src/lib/utils/search.ts:40-54 | with at least one word match: bonus count ≤ matched − 1, and `0 < 0.7·matched/|queryWords| < score ≤ 0.8 + 0.2·bonus count` |
| `Scoring.ScoreBounds` | src/lib/utils/search.ts:31-54 | every score is ≥ 0 and is ≤ 2 or ≤ 0.6 + 0.2·(number of query words) |
| `Scoring.TrailingWsMatchesAll` | src/lib/utils/search.ts:35-54 | against a text ending in white space every query word matches and the score is ≥ 0.7 |
| `Scoring.ExactMatchCanLose` | src/lib/utils/search.ts:31-54 | against `"ab cd ef"`, the contained query `"a"` scores 9/8 while the non-contained `"a c e"` scores 1.1625, so an exact match can rank below a word overlap |
| `Search.CombineVerses` | src/lib/utils/search.ts:57-62 | the window is verse `i`'s text, then a space, then verse `i+1`'s text, or nothing for the last verse |
| `Search.LastWindowEndsInSpace` | src/lib/utils/search.ts:59-61 | the last verse's window ends in a space |
| `Search.LastWindowAlwaysScores` | src/lib/utils/search.ts:57-61 | every query scores ≥ 0.7 against the last verse's window |
| `Search.Truthy` | src/lib/utils/search.ts:18 | JavaScript truthiness of `current_surah`: given and not 0 |
| `Search.Keeps` | src/lib/utils/search.ts:18 | the filter callback: every verse when the surah is falsy, else the verses of that surah |
| `Search.FilterSurah` | src/lib/utils/search.ts:18 | keeps exactly the verses of the requested surah; a 0 or absent surah keeps the list unchanged |
| `Search.FilterSurahAppend` | src/lib/utils/search.ts:18 | filtering distributes over concatenation, so kept verses keep their corpus order and their repeats |
| `Search.ScoreKept` | src/lib/utils/search.ts:19-22 | one result per kept verse, carrying that verse's surah, ayah and text, and scored against the window at the same position `k` of the unfiltered corpus |
| `Search.Positive` | src/lib/utils/search.ts:23 | `filter(r => r.score > 0)` on the scored list |
| `Search.PositiveKeeps` | src/lib/utils/search.ts:23 | keeps exactly the results with score > 0, each at most as often as in the input |
| `Search.PositiveAppend` | src/lib/utils/search.ts:23 | the positive filter distributes over concatenation, so it keeps order and repeats |
| `Search.PositiveWithScore` | src/lib/utils/search.ts:23 | for every positive score, the results with that score pass unchanged and in order |
| `Search.Insert` | src/lib/utils/search.ts:24 | inserting adds exactly one element to the multiset |
| `Search.InsertSorted` | src/lib/utils/search.ts:24 | inserting into a descending list keeps it descending |
| `Search.SortByScore` | src/lib/utils/search.ts:24 | the sorted list is descending by score and is a permutation of the input |
| `Search.InsertWithScore` | src/lib/utils/search.ts:24 | an inserted element comes before the elements that tie with it |
| `Search.SortIsStable` | src/lib/utils/search.ts:24 | for every score, the elements with that score keep their input order |
| `Search.Slice` | src/lib/utils/search.ts:25 | `slice(0, topK)` is a prefix of length `min(topK, n)`, or `max(0, n + topK)` for a negative `topK`, and keeps sortedness |
| `Search.MembersOfSubMultiset` | src/lib/utils/search.ts:24-25 | everything kept by sorting and slicing was in the input |
| `Search.Candidates` | src/lib/utils/search.ts:17-23 | every candidate has score > 0 and belongs to the requested surah; an empty corpus has none |
| `Search.CandidatesComplete` | src/lib/utils/search.ts:18-23 | conversely, every kept verse whose window scores above 0 is a candidate, with that score |
| `Search.SearchQuran` | src/lib/utils/search.ts:11-26 | results have score > 0, are sorted non-increasing, belong to the requested surah, come from the candidates, and are empty for an empty corpus; there are exactly `min(topK, n)` of them for `n` candidates, or `max(0, n + topK)` for a negative `topK` |
| `Search.TopKAreBest` | src/lib/utils/search.ts:24-25 | every candidate left out scores no higher than any result |
| `Search.WithScorePrefix` | src/lib/utils/search.ts:25 | a prefix keeps a prefix of every score class |
| `Search.SearchIsStable` | src/lib/utils/search.ts:24-25 | for every score, the results with that score are the first candidates with that score, in filtered-input order |
| `Search.FewCandidatesAllReturned` | src/lib/utils/search.ts:25 | with at most `topK` candidates, the results are a permutation of all candidates |
| `Search.UnfilteredOwnWindow` | src/lib/utils/search.ts:18-21 | without a surah filter, every result is a corpus verse scored against its own window |
| `Search.ScoreKeptOwnWindow` | src/lib/utils/search.ts:19-22 | scoring the whole, unfiltered corpus gives each verse the score of its own window |
| `Search.LastVerseAlwaysCandidate` | src/lib/utils/search.ts:18-23 | without a surah filter the last verse is a candidate for every query, with score ≥ 0.7 |
| `Search.UnfilteredSearchNeverEmpty` | src/lib/utils/search.ts:17-25 | without a surah filter, a non-empty corpus and `topK > 0` never give an empty result |
| `Search.ScoreOwnWindows` | src/lib/utils/search.ts:19-22 | corrected scoring step: every result is a kept verse scored against its own window |
| `Search.SearchQuranOwnWindow` | src/lib/utils/search.ts:17-25 | corrected search: sorted, at most `topK`, and every result is a kept verse with score > 0 scored against its own window |
| `Search.FilteredWindowMismatch` | src/lib/utils/search.ts:18-21 | a concrete filtered search reports verse 2:1 with the score of another verse's window, and this differs from the corrected search |
| `Search.OwnWindowOmits` | src/lib/utils/search.ts:18-21 | corrected, the same search gives only scores below 1, so it cannot report the 4/3 |
| `Search.FilteredSearchScoresFirstWindow` | src/lib/utils/search.ts:17-25 | as written, the filtered search of the two-verse corpus reports verse 2:1 with 4/3, the exact-match score of window 0, "a b" |
| `Search.OwnWindowScoresBelowOne` | src/lib/utils/search.ts:28-55 | verse 2:1's own window "b " does not contain "a" and scores below 1 |

## Findings

| source | as written | input that shows it | evidently intended | confidence | as-written member | corrected member |
|---|---|---|---|---|---|---|
| src/lib/utils/search.ts:18-21 | with a surah filter, `map`'s `index` is the position in the filtered list, but `combineVerses` uses it as a position in the unfiltered `verses` | verses `[(1,1,"a"), (2,1,"b")]`, query `"a"`, surah 2: verse 2:1 is reported with score 4/3 from the window `"a b"`; its own window `"b "` scores below 1 | score each kept verse against the window at its own corpus position | high; not executed | `Search.FilteredWindowMismatch` | `Search.SearchQuranOwnWindow` |

## Left out

- src/lib/worker.ts is not part of this model. It holds model download and caching, Whisper inference, the message loop, and the `processing` gate. These are I/O, foreign library calls and concurrency.
- src/lib/worker.ts also has an embedding search (`searchQuran`, `dotProduct`), which is not modelled. It is floating-point arithmetic over opaque embeddings.
- src/lib/stores/transcriber.svelte.ts, src/lib/stores/worker.ts, src/lib/audio-processor.ts and src/lib/generator.ts are not part of this model. They are UI state, audio buffers, worker construction and a build script.
- No chapter-tracking state machine (switch counters, thresholds, look-ahead) exists in these files, so none is modelled.
- Scores are exact rationals. IEEE-754 rounding of `0.7`, `0.2`, `0.1` and of the divisions is not modelled, and the results are not claimed to be bit-exact with the source.
- `current_surah` is an optional integer; a `NaN` surah, which is also falsy, is not modelled. `topK` and `len` are integers; fractional values are not modelled.
- String lengths count Unicode scalar values. JavaScript counts UTF-16 code units, so the two differ only for characters outside the Basic Multilingual Plane.
- `Scoring.Score` and `Scoring.PhraseMatchScore` require a non-empty text. The source accepts `""`: `phraseMatchScore("x", "")` is 0.8 and `phraseMatchScore("", "")` is `NaN`. Every caller passes a `combineVerses` window, which is never empty (`Search.CombineVerses`).
- `combineVerses` with an index outside the array throws in the source. The model requires an index in range, which is all that `searchQuran` ever passes.
