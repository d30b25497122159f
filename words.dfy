/**
 * The string primitives the verse search relies on: ECMAScript's `\s`
 * character class, `String.prototype.includes`, `split(/\s+/)` and the
 * `findIndex` search over the text's words (src/lib/utils/search.ts).
 */
module Words {

  /** ECMAScript's `\s`: the WhiteSpace and LineTerminator code points. */
  predicate IsWs(c: char) {
    c == '\t' || c == '\n' || c == '\U{000B}' || c == '\U{000C}' || c == '\r' ||
    c == ' ' || c == '\U{00A0}' || c == '\U{1680}' || ('\U{2000}' <= c <= '\U{200A}') ||
    c == '\U{2028}' || c == '\U{2029}' || c == '\U{202F}' || c == '\U{205F}' ||
    c == '\U{3000}' || c == '\U{FEFF}'
  }

  predicate NoWs(s: string) {
    forall k :: 0 <= k < |s| ==> !IsWs(s[k])
  }

  /** `t.includes(q)`: `q` occurs in `t` at some offset. */
  function Contains(t: string, q: string): (b: bool)
    ensures b ==> |q| <= |t|
    decreases |t|
  {
    q <= t || (|t| > 0 && Contains(t[1..], q))
  }

  /** `Contains` agrees with the definition by an explicit offset, in both directions. */
  lemma {:induction false} ContainsAtOffset(t: string, q: string)
    ensures Contains(t, q) <==> exists i :: 0 <= i <= |t| && q <= t[i..]
    decreases |t|
  {
    if q <= t {
      assert q <= t[0..];
    } else {
      assert t[0..] == t;
      if |t| > 0 {
        ContainsAtOffset(t[1..], q);
        forall i | 1 <= i <= |t| ensures t[1..][i - 1..] == t[i..] {
        }
      }
    }
  }

  /** The empty string occurs in every string. */
  lemma ContainsEmpty(t: string)
    ensures Contains(t, [])
  {
  }

  /** Length of the longest prefix of `s` free of white space. */
  function WordLength(s: string): (n: nat)
    ensures n <= |s|
  {
    if s == [] || IsWs(s[0]) then 0 else 1 + WordLength(s[1..])
  }

  /** The prefix `WordLength` measures has no white space and stops at white space or the end. */
  lemma {:induction false} WordLengthMaximal(s: string)
    ensures NoWs(s[..WordLength(s)])
    ensures WordLength(s) < |s| ==> IsWs(s[WordLength(s)])
  {
    if s != [] && !IsWs(s[0]) {
      WordLengthMaximal(s[1..]);
      var n := WordLength(s[1..]);
      assert s[..n + 1] == [s[0]] + s[1..][..n];
    }
  }

  /** A string without white space is one whole word. */
  lemma {:induction false} WordLengthNoWs(s: string)
    requires NoWs(s)
    ensures WordLength(s) == |s|
  {
    if s != [] {
      WordLengthNoWs(s[1..]);
    }
  }

  /** A word ends no later than the first white space. */
  lemma {:induction false} WordEndsBy(s: string, k: nat)
    requires k < |s| && IsWs(s[k])
    ensures WordLength(s) <= k
  {
    if !IsWs(s[0]) {
      assert s[1..][k - 1] == s[k];
      WordEndsBy(s[1..], k - 1);
    }
  }

  /** Length of the longest prefix of `s` made of white space only. */
  function RunLength(s: string): (n: nat)
    ensures n <= |s|
    ensures |s| > 0 && IsWs(s[0]) ==> n > 0
  {
    if s == [] || !IsWs(s[0]) then 0 else 1 + RunLength(s[1..])
  }

  /** The run `RunLength` measures is all white space and stops at a word or the end. */
  lemma {:induction false} RunLengthMaximal(s: string)
    ensures forall k :: 0 <= k < RunLength(s) ==> IsWs(s[k])
    ensures RunLength(s) < |s| ==> !IsWs(s[RunLength(s)])
  {
    if s != [] && IsWs(s[0]) {
      RunLengthMaximal(s[1..]);
      assert forall k :: 1 <= k <= |s[1..]| ==> s[k] == s[1..][k - 1];
    }
  }

  /** What follows the first word of `s` and the white-space run after it. */
  function Remainder(s: string): (r: string)
    requires WordLength(s) < |s|
    ensures |r| < |s|
  {
    var n := WordLength(s);
    s[n + RunLength(s[n..])..]
  }

  /** The remainder is a suffix of `s`, so it ends where `s` ends. */
  lemma RemainderLast(s: string)
    requires WordLength(s) < |s| && Remainder(s) != []
    ensures Remainder(s)[|Remainder(s)| - 1] == s[|s| - 1]
  {
  }

  /** The remainder, when there is one, starts with a word, because the run before it is maximal. */
  lemma RemainderStartsWord(s: string)
    requires WordLength(s) < |s| && Remainder(s) != []
    ensures WordLength(Remainder(s)) > 0
  {
    var n := WordLength(s);
    RunLengthMaximal(s[n..]);
    assert Remainder(s)[0] == s[n..][RunLength(s[n..])];
  }

  /**
   * `s.split(/\s+/)`: the pieces between maximal runs of white space. A run
   * at the very start or end still separates, so it leaves an empty piece
   * there; the empty string splits into one empty piece.
   */
  function Split(s: string): (words: seq<string>)
    ensures |words| >= 1
    decreases |s|
  {
    var n := WordLength(s);
    if n == |s| then [s] else [s[..n]] + Split(Remainder(s))
  }

  /** The first word of `Split(s)` is the longest white-space-free prefix of `s`. */
  lemma SplitFirstWord(s: string)
    ensures Split(s)[0] == s[..WordLength(s)]
  {
  }

  /** No word of `Split(s)` contains white space. */
  lemma {:induction false} SplitWordsNoWs(s: string)
    ensures forall k :: 0 <= k < |Split(s)| ==> NoWs(Split(s)[k])
    decreases |s|
  {
    WordLengthMaximal(s);
    if WordLength(s) < |s| {
      var rest := Split(Remainder(s));
      var words := Split(s);
      SplitWordsNoWs(Remainder(s));
      forall k | 0 < k < |words| ensures NoWs(words[k]) {
        assert words[k] == rest[k - 1];
      }
    }
  }

  /** Only the first and the last word of `Split(s)` can be empty. */
  lemma {:induction false} SplitInteriorNonEmpty(s: string)
    ensures forall k :: 0 < k < |Split(s)| - 1 ==> Split(s)[k] != []
    decreases |s|
  {
    if WordLength(s) < |s| {
      var rest := Split(Remainder(s));
      var words := Split(s);
      SplitInteriorNonEmpty(Remainder(s));
      if Remainder(s) != [] {
        RemainderStartsWord(s);
        SplitFirstWord(Remainder(s));
      }
      forall k | 0 < k < |words| - 1 ensures words[k] != [] {
        assert words[k] == rest[k - 1];
      }
    }
  }

  /** A white-space-free word followed by one space and a word character: `Split` cuts at that space. */
  lemma {:induction false} SplitAtSpace(w: string, rest: string)
    requires NoWs(w) && |rest| > 0 && !IsWs(rest[0])
    ensures Split(w + " " + rest) == [w] + Split(rest)
  {
    var s := w + " " + rest;
    WordLengthNoWs(w);
    WordLengthStopsAtWs(w, " " + rest);
    assert s == w + (" " + rest);
    assert s[..|w|] == w && s[|w|..] == " " + rest;
    assert (" " + rest)[1..] == rest;
    assert RunLength(" " + rest) == 1;
    assert Remainder(s) == rest;
    SplitStep(s);
  }

  /** Three words joined by single spaces split back into those three words. */
  lemma SplitThreeWords(a: string, b: string, c: string)
    requires NoWs(a) && NoWs(b) && NoWs(c) && |b| > 0 && |c| > 0
    ensures Split(a + " " + (b + " " + c)) == [a, b, c]
  {
    SplitNoWs(c);
    SplitAtSpace(b, c);
    SplitAtSpace(a, b + " " + c);
  }

  /** White space right after a white-space-free prefix ends the first word there. */
  lemma {:induction false} WordLengthStopsAtWs(w: string, rest: string)
    requires NoWs(w) && |rest| > 0 && IsWs(rest[0])
    ensures WordLength(w + rest) == |w|
  {
    if w != [] {
      assert (w + rest)[1..] == w[1..] + rest;
      WordLengthStopsAtWs(w[1..], rest);
    } else {
      assert w + rest == rest;
    }
  }

  /** A string with no white space is one word. */
  lemma SplitNoWs(s: string)
    requires NoWs(s)
    ensures Split(s) == [s]
  {
    WordLengthNoWs(s);
  }

  /** Leading white space leaves an empty first word. */
  lemma SplitLeadingWs(s: string)
    requires |s| > 0 && IsWs(s[0])
    ensures Split(s)[0] == []
  {
  }

  /** Trailing white space leaves an empty last word. */
  lemma {:induction false} SplitTrailingWs(s: string)
    requires |s| > 0 && IsWs(s[|s| - 1])
    ensures Split(s)[|Split(s)| - 1] == []
    decreases |s|
  {
    WordEndsBy(s, |s| - 1);
    var rest := Remainder(s);
    var restWords := Split(rest);
    var words := Split(s);
    LastOfCons(s[..WordLength(s)], restWords);
    assert words[|words| - 1] == restWords[|restWords| - 1];
    if |rest| > 0 {
      RemainderLast(s);
      SplitTrailingWs(rest);
    } else {
      assert restWords == [[]];
    }
  }

  /** The white-space run right after the first word of `s`. */
  function Run(s: string): string
    requires WordLength(s) < |s|
  {
    var n := WordLength(s);
    s[n .. n + RunLength(s[n..])]
  }

  /** The white-space runs `Split(s)` removes, one between each two consecutive words. */
  function Separators(s: string): (seps: seq<string>)
    ensures |seps| == |Split(s)| - 1
    decreases |s|
  {
    var n := WordLength(s);
    if n == |s| then [] else [Run(s)] + Separators(Remainder(s))
  }

  /** The words interleaved with the separators, word first and word last. */
  function Join(words: seq<string>, seps: seq<string>): string
    requires |words| >= 1 && |seps| == |words| - 1
  {
    if |words| == 1 then words[0] else words[0] + seps[0] + Join(words[1..], seps[1..])
  }

  /** Nothing is lost: rejoining the words with the runs between them gives back `s`. */
  lemma {:induction false} SplitJoin(s: string)
    ensures Join(Split(s), Separators(s)) == s
    decreases |s|
  {
    var n := WordLength(s);
    if n < |s| {
      var m := n + RunLength(s[n..]);
      var rest := Remainder(s);
      assert rest == s[m..] && Run(s) == s[n..m];
      SplitStep(s);
      SeparatorsStep(s);
      calc {
        Join(Split(s), Separators(s));
        Join([s[..n]] + Split(rest), [s[n..m]] + Separators(rest));
        { JoinCons(s[..n], s[n..m], Split(rest), Separators(rest)); }
        s[..n] + s[n..m] + Join(Split(rest), Separators(rest));
        { SplitJoin(rest); }
        s[..n] + s[n..m] + s[m..];
        { ThreeParts(s, n, m); }
        s;
      }
    }
  }

  /** One step of `Split` past the first word and the run after it. */
  lemma SplitStep(s: string)
    requires WordLength(s) < |s|
    ensures Split(s) == [s[..WordLength(s)]] + Split(Remainder(s))
  {
  }

  /** One step of `Separators`: the first run, then the runs of the remainder. */
  lemma SeparatorsStep(s: string)
    requires WordLength(s) < |s|
    ensures Separators(s) == [Run(s)] + Separators(Remainder(s))
  {
  }

  lemma JoinCons(w: string, p: string, words: seq<string>, seps: seq<string>)
    requires |words| >= 1 && |seps| == |words| - 1
    ensures Join([w] + words, [p] + seps) == w + p + Join(words, seps)
  {
    assert ([w] + words)[1..] == words;
    assert ([p] + seps)[1..] == seps;
  }

  lemma ThreeParts(s: string, n: nat, m: nat)
    requires n <= m <= |s|
    ensures s[..n] + s[n..m] + s[m..] == s
  {
  }

  /** Every separator is a non-empty run of white space only. */
  lemma {:induction false} SeparatorsAreRuns(s: string)
    ensures forall k :: 0 <= k < |Separators(s)| ==> |Separators(s)[k]| > 0 && forall c :: c in Separators(s)[k] ==> IsWs(c)
    decreases |s|
  {
    var n := WordLength(s);
    if n < |s| {
      var seps := Separators(s);
      WordLengthMaximal(s);
      RunLengthMaximal(s[n..]);
      SeparatorsAreRuns(Remainder(s));
      forall k | 0 < k < |seps| ensures seps[k] == Separators(Remainder(s))[k - 1] {
      }
      forall c | c in seps[0] ensures IsWs(c) {
        var j :| 0 <= j < |seps[0]| && seps[0][j] == c;
        assert c == s[n..][j];
      }
    }
  }

  lemma LastOfCons<T>(x: T, ys: seq<T>)
    requires |ys| > 0
    ensures ([x] + ys)[|ys|] == ys[|ys| - 1]
  {
  }

  /** `tWord.includes(qWord) || qWord.includes(tWord)`, the test applied to each text word. */
  predicate Matches(tWord: string, qWord: string) {
    Contains(tWord, qWord) || Contains(qWord, tWord)
  }

  /** The empty word matches every word, since every word includes it. */
  lemma EmptyWordMatches(qWord: string)
    ensures Matches([], qWord)
  {
  }

  /** Some text word matches `qWord`. */
  ghost predicate HasMatch(tWords: seq<string>, qWord: string) {
    exists j :: 0 <= j < |tWords| && Matches(tWords[j], qWord)
  }

  /** `tWords.findIndex(tWord => Matches(tWord, qWord))`: the first matching index, or -1. */
  function FindIndex(tWords: seq<string>, qWord: string): (idx: int)
    ensures -1 <= idx < |tWords|
    ensures idx == -1 <==> !HasMatch(tWords, qWord)
    ensures idx >= 0 ==> Matches(tWords[idx], qWord)
    ensures forall j :: 0 <= j < idx ==> !Matches(tWords[j], qWord)
  {
    if tWords == [] then -1
    else if Matches(tWords[0], qWord) then 0
    else
      var idx := FindIndex(tWords[1..], qWord);
      assert forall j :: 0 < j < |tWords| ==> tWords[j] == tWords[1..][j - 1];
      if idx == -1 then -1 else idx + 1
  }
}
