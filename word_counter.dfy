/**
 * Word frequencies over the `text` fields of a set of entries: every
 * maximal run of word characters of the lower-cased text counts once, and
 * the most common words come out by count descending, then word ascending.
 */
module WordCounter {
  import opened Wrappers
  import opened Text
  import opened Dicts

  // ---------------------------------------------------------------------
  // Tokens
  // ---------------------------------------------------------------------

  function NotWordChar(c: char): bool { !IsWordChar(c) }

  function WordCharFn(c: char): bool { IsWordChar(c) }

  /** `re.findall(r'\b\w+\b', s)`: the maximal runs of word characters, left to right. */
  function Tokens(s: string): (ws: seq<string>)
    ensures forall k :: 0 <= k < |ws| ==> ws[k] != [] && forall i :: 0 <= i < |ws[k]| ==> IsWordChar(ws[k][i])
    decreases |s|
  {
    if s == [] then []
    else if !IsWordChar(s[0]) then Tokens(s[1..])
    else
      var e := Span(s, 0, WordCharFn);
      [s[..e]] + Tokens(s[e..])
  }

  /** The word characters of `s`, in order. */
  function WordChars(s: string): string {
    if s == [] then []
    else if IsWordChar(s[0]) then [s[0]] + WordChars(s[1..])
    else WordChars(s[1..])
  }

  function Concat(ws: seq<string>): string {
    if ws == [] then [] else ws[0] + Concat(ws[1..])
  }

  /** The word characters of a string made only of them. */
  lemma {:induction false} WordCharsOfRun(s: string, e: nat)
    requires e <= |s| && forall i :: 0 <= i < e ==> IsWordChar(s[i])
    ensures WordChars(s) == s[..e] + WordChars(s[e..])
    decreases e
  {
    if e > 0 {
      WordCharsOfRun(s[1..], e - 1);
      assert s[1..][e - 1..] == s[e..];
      assert s[..e] == [s[0]] + s[1..][..e - 1];
    }
  }

  /** The tokens, put together, are exactly the word characters: nothing lost, nothing added. */
  lemma {:induction false} TokensCoverWordChars(s: string)
    ensures Concat(Tokens(s)) == WordChars(s)
    decreases |s|
  {
    if s != [] {
      if !IsWordChar(s[0]) {
        TokensCoverWordChars(s[1..]);
      } else {
        var e := Span(s, 0, WordCharFn);
        TokensCoverWordChars(s[e..]);
        WordCharsOfRun(s, e);
        var ws := [s[..e]] + Tokens(s[e..]);
        assert ws[1..] == Tokens(s[e..]);
      }
    }
  }

  /** A run of word characters alone is one token, whole. */
  lemma TokensOfWord(w: string)
    requires w != [] && forall i :: 0 <= i < |w| ==> IsWordChar(w[i])
    ensures Tokens(w) == [w]
  {
    SpanStops(w, 0, |w|, WordCharFn);
    assert w[..|w|] == w;
    assert w[|w|..] == [];
  }

  /**
   * A non-word character always separates tokens: the tokens of
   * `x + [c] + y` are those of `x` followed by those of `y`, so no token
   * runs across `c` and none is split elsewhere.
   */
  lemma {:induction false} TokensSplit(x: string, c: char, y: string)
    requires !IsWordChar(c)
    ensures Tokens(x + [c] + y) == Tokens(x) + Tokens(y)
    decreases |x|
  {
    var s := x + [c] + y;
    if x == [] {
      assert s[0] == c && s[1..] == y;
    } else if !IsWordChar(x[0]) {
      assert s[0] == x[0];
      assert s[1..] == x[1..] + [c] + y;
      TokensSplit(x[1..], c, y);
    } else {
      var e := Span(x, 0, WordCharFn);
      TokensSplit(x[e..], c, y);
      TokensAfterRun(x, c, y, e);
    }
  }

  /** The step of `TokensSplit` for a text that starts with a run of `e` word characters. */
  lemma TokensAfterRun(x: string, c: char, y: string, e: nat)
    requires !IsWordChar(c) && x != [] && IsWordChar(x[0]) && e == Span(x, 0, WordCharFn)
    requires Tokens(x[e..] + [c] + y) == Tokens(x[e..]) + Tokens(y)
    ensures Tokens(x + [c] + y) == Tokens(x) + Tokens(y)
  {
    var s := x + [c] + y;
    RunAcross(x, c, y, e);
    assert s[0] == x[0];
    assert Tokens(s) == [x[..e]] + Tokens(x[e..] + [c] + y) by {
      assert s[..e] == x[..e];
      assert s[e..] == x[e..] + [c] + y;
    }
  }

  /** The run of word characters that starts `x` ends at the same place in `x + [c] + y`. */
  lemma RunAcross(x: string, c: char, y: string, e: nat)
    requires !IsWordChar(c) && e == Span(x, 0, WordCharFn)
    ensures Span(x + [c] + y, 0, WordCharFn) == e
  {
    var s := x + [c] + y;
    forall j | 0 <= j < e ensures WordCharFn(s[j]) {
      assert s[j] == x[j];
    }
    if e < |x| { assert s[e] == x[e]; } else { assert s[e] == c; }
    SpanStops(s, 0, e, WordCharFn);
  }

  /** The tokens of every entry that has a `text`, lower-cased, in entry order. */
  function AllTokens(entries: seq<Option<string>>): seq<string> {
    if entries == [] then []
    else
      var last := entries[|entries| - 1];
      AllTokens(entries[..|entries| - 1]) + (if last.Some? then Tokens(Lower(last.value)) else [])
  }

  // ---------------------------------------------------------------------
  // Counting
  // ---------------------------------------------------------------------

  /** `word_counts[w] += 1` on a `defaultdict(int)`. */
  function Bump(d: Dict<string, nat>, w: string): Dict<string, nat> {
    Put(d, w, (if w in d.values then d.values[w] else 0) + 1)
  }

  /** The counts `d` after bumping for each word in turn. */
  function BumpAll(d: Dict<string, nat>, ws: seq<string>): Dict<string, nat> {
    if ws == [] then d else Bump(BumpAll(d, ws[..|ws| - 1]), ws[|ws| - 1])
  }

  /** The counts after bumping for each word in turn, from empty. */
  function CountsOf(ws: seq<string>): Dict<string, nat> {
    BumpAll(Empty(), ws)
  }

  lemma BumpAllSnoc(d: Dict<string, nat>, ws: seq<string>, w: string)
    ensures BumpAll(d, ws + [w]) == Bump(BumpAll(d, ws), w)
  {
    assert (ws + [w])[..|ws|] == ws;
  }

  /** Bumping for `a` and then for `b` is bumping for `a + b`. */
  lemma {:induction false} BumpAllAppend(d: Dict<string, nat>, a: seq<string>, b: seq<string>)
    ensures BumpAll(d, a + b) == BumpAll(BumpAll(d, a), b)
    decreases |b|
  {
    if b == [] {
      assert a + b == a;
    } else {
      var init := b[..|b| - 1];
      BumpAllAppend(d, a, init);
      assert (a + b)[..|a + b| - 1] == a + init;
    }
  }

  /**
   * The counts are the multiplicities: a word is counted exactly when it
   * occurs, and its count is the number of its occurrences.
   */
  lemma {:induction false} CountsAreMultiplicities(ws: seq<string>)
    ensures Valid(CountsOf(ws))
    ensures forall w :: w in CountsOf(ws).values <==> w in multiset(ws)
    ensures forall w :: w in CountsOf(ws).values ==> CountsOf(ws).values[w] == multiset(ws)[w]
    decreases |ws|
  {
    if ws != [] {
      var init := ws[..|ws| - 1];
      var w := ws[|ws| - 1];
      CountsAreMultiplicities(init);
      PutValid(CountsOf(init), w, (if w in CountsOf(init).values then CountsOf(init).values[w] else 0) + 1);
      assert ws == init + [w];
      assert multiset(ws) == multiset(init) + multiset{w};
    }
  }

  // ---------------------------------------------------------------------
  // Ordering
  // ---------------------------------------------------------------------

  /** Python's `<` on strings: lexicographic by character code. */
  predicate StrLess(a: string, b: string)
    decreases |a|
  {
    if a == [] then b != []
    else if b == [] then false
    else if a[0] < b[0] then true
    else if a[0] == b[0] then StrLess(a[1..], b[1..])
    else false
  }

  lemma {:induction false} StrLessIrreflexive(a: string)
    ensures !StrLess(a, a)
    decreases |a|
  {
    if a != [] { StrLessIrreflexive(a[1..]); }
  }

  lemma {:induction false} StrLessTransitive(a: string, b: string, c: string)
    requires StrLess(a, b) && StrLess(b, c)
    ensures StrLess(a, c)
    decreases |a|
  {
    if a != [] && b != [] && c != [] && a[0] == b[0] && b[0] == c[0] {
      StrLessTransitive(a[1..], b[1..], c[1..]);
    }
  }

  lemma {:induction false} StrLessTotal(a: string, b: string)
    ensures a == b || StrLess(a, b) || StrLess(b, a)
    decreases |a|
  {
    if a != [] && b != [] && a[0] == b[0] {
      StrLessTotal(a[1..], b[1..]);
      if a[1..] == b[1..] {
        assert a == [a[0]] + a[1..] && b == [b[0]] + b[1..];
      }
    }
  }

  /** The sort key `(-count, word)`: `a` comes strictly before `b`. */
  predicate Before(a: (string, nat), b: (string, nat)) {
    a.1 > b.1 || (a.1 == b.1 && StrLess(a.0, b.0))
  }

  /** Sorted by the key: no element comes strictly before an earlier one. */
  predicate Sorted(s: seq<(string, nat)>) {
    forall i, j :: 0 <= i < j < |s| ==> !Before(s[j], s[i])
  }

  /** `x` goes before the first element it does not follow. */
  function Insert(x: (string, nat), s: seq<(string, nat)>): (r: seq<(string, nat)>)
    ensures multiset(r) == multiset(s) + multiset{x}
  {
    if s == [] then [x]
    else if !Before(s[0], x) then [x] + s
    else
      assert s == [s[0]] + s[1..];
      [s[0]] + Insert(x, s[1..])
  }

  /** The first element of `s` is the least: nothing in `s` comes before it. */
  lemma HeadLeast(s: seq<(string, nat)>, i: nat)
    requires Sorted(s) && 0 < i < |s|
    ensures !Before(s[i], s[0])
  {
  }

  /** The key order is a strict total order on pairs. */
  lemma BeforeOrder(a: (string, nat), b: (string, nat), c: (string, nat))
    ensures !Before(a, a)
    ensures a == b || Before(a, b) || Before(b, a)
    ensures Before(a, b) && Before(b, c) ==> Before(a, c)
  {
    StrLessIrreflexive(a.0);
    StrLessTotal(a.0, b.0);
    if a.1 == b.1 && a.0 == b.0 { assert a == b; }
    if Before(a, b) && Before(b, c) && a.1 == b.1 && b.1 == c.1 {
      StrLessTransitive(a.0, b.0, c.0);
    }
  }

  lemma {:induction false} InsertSorted(x: (string, nat), s: seq<(string, nat)>)
    requires Sorted(s)
    ensures Sorted(Insert(x, s))
    decreases |s|
  {
    if s != [] {
      if !Before(s[0], x) {
        var r := [x] + s;
        forall i, j | 0 <= i < j < |r| ensures !Before(r[j], r[i]) {
          if i == 0 && j > 1 {
            HeadLeast(s, j - 1);
            BeforeOrder(s[0], s[j - 1], x);
          }
        }
      } else {
        InsertSorted(x, s[1..]);
        var t := Insert(x, s[1..]);
        var r := [s[0]] + t;
        forall i, j | 0 <= i < j < |r| ensures !Before(r[j], r[i]) {
          if i == 0 {
            var y := t[j - 1];
            assert y in multiset(t);
            assert y in multiset(s[1..]) || y == x;
            if y == x {
              BeforeOrder(s[0], x, s[0]);
            } else {
              var k :| 0 <= k < |s[1..]| && s[1..][k] == y;
              assert s[k + 1] == y;
            }
          }
        }
      }
    }
  }

  /** Python's `sorted(items, key=lambda x: (-x[1], x[0]))`, as insertion sort. */
  function SortByCount(s: seq<(string, nat)>): (r: seq<(string, nat)>)
    ensures multiset(r) == multiset(s)
  {
    if s == [] then [] else
      assert s == [s[0]] + s[1..];
      Insert(s[0], SortByCount(s[1..]))
  }

  lemma {:induction false} SortByCountSorted(s: seq<(string, nat)>)
    ensures Sorted(SortByCount(s))
    decreases |s|
  {
    if s != [] {
      SortByCountSorted(s[1..]);
      InsertSorted(s[0], SortByCount(s[1..]));
    }
  }

  /** Python's `s[:n]`, a negative `n` counting from the end. */
  function Take<T>(s: seq<T>, n: int): (r: seq<T>)
    ensures 0 <= n ==> |r| == if n < |s| then n else |s|
    ensures n < 0 ==> |r| == if |s| + n < 0 then 0 else |s| + n
    ensures r == s[..|r|]
  {
    if 0 <= n then (if n < |s| then s[..n] else s)
    else if |s| + n < 0 then []
    else s[..|s| + n]
  }

  /** The `(word, count)` pairs of a dictionary, in its order. */
  function Items(d: Dict<string, nat>): (r: seq<(string, nat)>)
    requires Valid(d)
    ensures |r| == |d.keys|
    ensures forall i :: 0 <= i < |r| ==> r[i] == (d.keys[i], d.values[d.keys[i]])
  {
    seq(|d.keys|, i requires 0 <= i < |d.keys| => (d.keys[i], d.values[d.keys[i]]))
  }

  /** `get_most_common(n)`: no word appears twice in the ranking. */
  function MostCommon(d: Dict<string, nat>, n: int): (r: seq<(string, nat)>)
    requires Valid(d)
    ensures forall i, j :: 0 <= i < j < |r| ==> r[i].0 != r[j].0
  {
    var s := SortByCount(Items(d));
    WordsOnce(d, s);
    Take(s, n)
  }

  /** An element of a sequence without repeats occurs in it at most once. */
  lemma {:induction false} DistinctOnce<T>(t: seq<T>, x: T)
    requires Distinct(t)
    ensures multiset(t)[x] <= 1
  {
    if t != [] {
      assert t == [t[0]] + t[1..];
      DistinctOnce(t[1..], x);
      if t[0] == x {
        assert x !in t[1..];
      }
    }
  }

  /** Any reordering of a dictionary's items holds each word once. */
  lemma WordsOnce(d: Dict<string, nat>, s: seq<(string, nat)>)
    requires Valid(d) && multiset(s) == multiset(Items(d))
    ensures forall i, j :: 0 <= i < j < |s| ==> s[i].0 != s[j].0
  {
    var items := Items(d);
    assert Distinct(items) by {
      forall i, j | 0 <= i < j < |items| ensures items[i] != items[j] {
        assert items[i].0 == d.keys[i] && items[j].0 == d.keys[j];
      }
    }
    forall i, j | 0 <= i < j < |s| ensures s[i].0 != s[j].0 {
      if s[i].0 == s[j].0 {
        assert s[i] in multiset(items) && s[j] in multiset(items);
        var a :| 0 <= a < |items| && items[a] == s[i];
        var b :| 0 <= b < |items| && items[b] == s[j];
        assert s[i] == s[j];
        var x := s[i];
        assert s == s[..j] + s[j..];
        assert x in s[..j];
        assert x == s[j..][0];
        assert multiset(s)[x] == multiset(s[..j])[x] + multiset(s[j..])[x];
        DistinctOnce(items, x);
      }
    }
  }

  /**
   * The most common words: sorted by count descending then word ascending,
   * `min(n, distinct words)` of them for `n >= 0`, each a `(word, count)`
   * entry of the counts, no word twice, and no left-out word ahead of a
   * kept one.
   */
  lemma MostCommonFacts(d: Dict<string, nat>, n: int)
    requires Valid(d)
    ensures Sorted(MostCommon(d, n))
    ensures forall i, j :: 0 <= i < j < |MostCommon(d, n)| ==> MostCommon(d, n)[i].0 != MostCommon(d, n)[j].0
    ensures 0 <= n ==> |MostCommon(d, n)| == if n < |d.keys| then n else |d.keys|
    ensures forall p :: p in MostCommon(d, n) ==> p.0 in d.values && d.values[p.0] == p.1
    ensures forall i, j :: 0 <= i < |MostCommon(d, n)| && 0 <= j < |Items(d)| && Items(d)[j] !in MostCommon(d, n) ==>
      !Before(Items(d)[j], MostCommon(d, n)[i])
  {
    SortByCountSorted(Items(d));
    assert MostCommon(d, n) == SortByCount(Items(d))[..|MostCommon(d, n)|];
    MostCommonEntries(d, n);
    MostCommonTop(d, n);
  }

  /** Every kept pair is an entry of the counts. */
  lemma MostCommonEntries(d: Dict<string, nat>, n: int)
    requires Valid(d)
    ensures forall p :: p in MostCommon(d, n) ==> p.0 in d.values && d.values[p.0] == p.1
  {
    var s := SortByCount(Items(d));
    SortByCountSorted(Items(d));
    var r := MostCommon(d, n);
    assert r == s[..|r|];
    forall p | p in r ensures p.0 in d.values && d.values[p.0] == p.1 {
      assert p in multiset(s);
      assert p in multiset(Items(d));
    }
  }

  /** No pair left out comes before a kept one. */
  lemma MostCommonTop(d: Dict<string, nat>, n: int)
    requires Valid(d)
    ensures forall i, j :: 0 <= i < |MostCommon(d, n)| && 0 <= j < |Items(d)| && Items(d)[j] !in MostCommon(d, n) ==>
      !Before(Items(d)[j], MostCommon(d, n)[i])
  {
    var s := SortByCount(Items(d));
    SortByCountSorted(Items(d));
    var r := MostCommon(d, n);
    assert r == s[..|r|];
    forall i, j | 0 <= i < |r| && 0 <= j < |Items(d)| && Items(d)[j] !in r
      ensures !Before(Items(d)[j], r[i])
    {
      var x := Items(d)[j];
      assert x in multiset(Items(d));
      assert x in multiset(s);
      var k :| 0 <= k < |s| && s[k] == x;
    }
  }

  // ---------------------------------------------------------------------
  // The counter object
  // ---------------------------------------------------------------------

  datatype WordCount = WordCount(count: nat)

  class Counter {
    var wordCounts: Dict<string, nat>

    /** The counts hold each word once, as a Python dictionary does. */
    predicate Valid()
      reads this
    {
      Dicts.Valid(wordCounts)
    }

    constructor()
      ensures wordCounts == Empty()
      ensures Valid()
    {
      wordCounts := Empty();
    }

    /**
     * `count_words`: the counts are cleared and then bumped for every token
     * of every entry with a text; the result maps each counted word to
     * `{'count': n}`.
     */
    method CountWords(entries: seq<Option<string>>) returns (r: map<string, WordCount>)
      modifies this
      ensures wordCounts == CountsOf(AllTokens(entries))
      ensures r.Keys == wordCounts.values.Keys
      ensures forall w :: w in r ==> r[w].count == wordCounts.values[w] && r[w].count >= 1
      ensures Valid()
    {
      wordCounts := Empty();
      var i := 0;
      while i < |entries|
        invariant 0 <= i <= |entries|
        invariant wordCounts == CountsOf(AllTokens(entries[..i]))
      {
        assert entries[..i + 1][..i] == entries[..i];
        var e := entries[i];
        if e.Some? {
          var words := Tokens(Lower(e.value));
          CountTokens(words);
          BumpAllAppend(Empty(), AllTokens(entries[..i]), words);
          assert entries[..i + 1][i] == e;
          assert AllTokens(entries[..i + 1]) == AllTokens(entries[..i]) + words;
          assert wordCounts == CountsOf(AllTokens(entries[..i + 1]));
        } else {
          assert AllTokens(entries[..i + 1]) == AllTokens(entries[..i]) + [];
          assert AllTokens(entries[..i]) + [] == AllTokens(entries[..i]);
          assert wordCounts == CountsOf(AllTokens(entries[..i + 1]));
        }
        i := i + 1;
      }
      assert entries[..i] == entries;
      CountsAreMultiplicities(AllTokens(entries));
      r := map w | w in wordCounts.values :: WordCount(wordCounts.values[w]);
    }

    /** The inner loop of `count_words`: one bump per token. */
    method CountTokens(words: seq<string>)
      modifies this
      ensures wordCounts == BumpAll(old(wordCounts), words)
    {
      var j := 0;
      while j < |words|
        invariant 0 <= j <= |words|
        invariant wordCounts == BumpAll(old(wordCounts), words[..j])
      {
        BumpAllSnoc(old(wordCounts), words[..j], words[j]);
        assert words[..j + 1] == words[..j] + [words[j]];
        var w := words[j];
        wordCounts := Put(wordCounts, w, (if w in wordCounts.values then wordCounts.values[w] else 0) + 1);
        j := j + 1;
      }
      assert words[..j] == words;
    }

    /** `get_word_counts`: a copy of the current counts. */
    method GetWordCounts() returns (r: map<string, nat>)
      ensures r == wordCounts.values
    {
      return wordCounts.values;
    }

    /** `get_most_common(n=10)`: ten words unless told otherwise. */
    method GetMostCommon(n: int := 10) returns (r: seq<(string, nat)>)
      requires Valid()
      ensures r == MostCommon(wordCounts, n)
    {
      return Take(SortByCount(Items(wordCounts)), n);
    }
  }

  /** What one `count_words` call leaves does not depend on any earlier call. */
  lemma CountsDependOnArgumentOnly(entries: seq<Option<string>>)
    ensures Valid(CountsOf(AllTokens(entries)))
    ensures forall w :: w in CountsOf(AllTokens(entries)).values ==>
      CountsOf(AllTokens(entries)).values[w] == multiset(AllTokens(entries))[w] >= 1
    ensures entries == [] ==> CountsOf(AllTokens(entries)).values == map[]
  {
    CountsAreMultiplicities(AllTokens(entries));
  }

  /** Entries without a `text` add nothing to the tokens. */
  lemma NoTextAddsNothing(entries: seq<Option<string>>)
    ensures AllTokens(entries + [None]) == AllTokens(entries)
  {
    assert (entries + [None])[..|entries|] == entries;
  }
}
