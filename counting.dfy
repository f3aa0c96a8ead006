/** `collections.Counter(words).most_common(n)`: the `n` most frequent words
    with their counts, more frequent first and, among equal counts, in the
    order in which the words first occurred. */
module Counting {

  /** One entry of a Counter: a word, how often it occurs, and the index of
      its first occurrence, which fixes the entry's place in the Counter's
      insertion order. */
  datatype Tally = Tally(word: string, count: nat, first: nat)

  /** One `(word, count)` pair of `most_common`. */
  datatype Ranked = Ranked(word: string, count: nat)

  predicate IsFirstOccurrence(words: seq<string>, w: string, k: int) {
    0 <= k < |words| && words[k] == w && w !in words[..k]
  }

  function FirstIndex(words: seq<string>, w: string): (k: nat)
    requires w in words
    ensures IsFirstOccurrence(words, w, k)
    decreases |words|
  {
    if words[0] == w then 0
    else
      var k := FirstIndex(words[1..], w);
      assert words[..k + 1] == [words[0]] + words[1..][..k];
      k + 1
  }

  lemma FirstOccurrenceUnique(words: seq<string>, w: string, a: int, b: int)
    requires IsFirstOccurrence(words, w, a) && IsFirstOccurrence(words, w, b)
    ensures a == b
  {
  }

  /** The position of the entry for `w`, or -1 when there is none. */
  function Find(items: seq<Tally>, w: string): (k: int)
    ensures -1 <= k < |items|
    ensures 0 <= k ==> items[k].word == w
    ensures k == -1 ==> forall i :: 0 <= i < |items| ==> items[i].word != w
    decreases |items|
  {
    if items == [] then -1
    else if items[|items| - 1].word == w then |items| - 1
    else Find(items[..|items| - 1], w)
  }

  /** `items` lists the entries of `Counter(words)` in insertion order: one
      per distinct word, at its first occurrence, with its number of
      occurrences, ordered by first occurrence. */
  ghost predicate IsCounter(words: seq<string>, items: seq<Tally>) {
    && (forall i :: 0 <= i < |items| ==>
          IsFirstOccurrence(words, items[i].word, items[i].first) && items[i].count == multiset(words)[items[i].word])
    && (forall i, j :: 0 <= i < j < |items| ==> items[i].first < items[j].first && items[i].word != items[j].word)
    && (forall w :: w in words ==> exists i :: 0 <= i < |items| && items[i].word == w)
  }

  /** The entries of `Counter(words)` in insertion order, built as Counter
      builds them: the first occurrence of a word adds an entry with count
      1, every later one adds 1 to that entry's count. */
  function CounterOf(words: seq<string>): (items: seq<Tally>)
    ensures forall i :: 0 <= i < |items| ==>
      IsFirstOccurrence(words, items[i].word, items[i].first) && items[i].count == multiset(words)[items[i].word]
    ensures forall i, j :: 0 <= i < j < |items| ==> items[i].first < items[j].first && items[i].word != items[j].word
    ensures forall w :: w in words ==> exists i :: 0 <= i < |items| && items[i].word == w
    decreases |words|
  {
    if words == [] then []
    else
      var prefix := words[..|words| - 1];
      var w := words[|words| - 1];
      assert words == prefix + [w];
      var prev := CounterOf(prefix);
      var k := Find(prev, w);
      if k >= 0 then
        var items := prev[k := prev[k].(count := prev[k].count + 1)];
        CounterBump(prefix, w, prev, k);
        items
      else
        CounterAdd(prefix, w, prev);
        prev + [Tally(w, 1, |prefix|)]
  }

  lemma CounterPrefix(prefix: seq<string>, w: string, prev: seq<Tally>)
    requires IsCounter(prefix, prev)
    ensures multiset(prefix + [w]) == multiset(prefix) + multiset{w}
    ensures forall i :: 0 <= i < |prev| ==> IsFirstOccurrence(prefix + [w], prev[i].word, prev[i].first)
  {
    var words := prefix + [w];
    assert words[..|prefix|] == prefix;
    forall i | 0 <= i < |prev|
      ensures IsFirstOccurrence(words, prev[i].word, prev[i].first)
    {
      assert words[..prev[i].first] == prefix[..prev[i].first];
    }
  }

  /** A later occurrence of a word adds one to its entry. */
  lemma CounterBump(prefix: seq<string>, w: string, prev: seq<Tally>, k: nat)
    requires IsCounter(prefix, prev)
    requires k < |prev| && prev[k].word == w
    ensures IsCounter(prefix + [w], prev[k := prev[k].(count := prev[k].count + 1)])
  {
    CounterPrefix(prefix, w, prev);
    var items := prev[k := prev[k].(count := prev[k].count + 1)];
    assert forall i :: 0 <= i < |items| && i != k ==> items[i] == prev[i] && prev[i].word != w;
    forall v | v in prefix + [w]
      ensures exists i :: 0 <= i < |items| && items[i].word == v
    {
      if v == w {
        assert items[k].word == v;
      } else {
        assert v in prefix;
        var i :| 0 <= i < |prev| && prev[i].word == v;
        assert items[i].word == v;
      }
    }
  }

  /** The first occurrence of a word adds an entry for it at the end. */
  lemma CounterAdd(prefix: seq<string>, w: string, prev: seq<Tally>)
    requires IsCounter(prefix, prev)
    requires forall i :: 0 <= i < |prev| ==> prev[i].word != w
    ensures IsCounter(prefix + [w], prev + [Tally(w, 1, |prefix|)])
  {
    CounterPrefix(prefix, w, prev);
    var words := prefix + [w];
    var items := prev + [Tally(w, 1, |prefix|)];
    assert w !in prefix;
    assert words[..|prefix|] == prefix;
    assert IsFirstOccurrence(words, w, |prefix|);
    forall v | v in words
      ensures exists i :: 0 <= i < |items| && items[i].word == v
    {
      if v == w {
        assert items[|prev|].word == v;
      } else {
        assert v in prefix;
        var i :| 0 <= i < |prev| && prev[i].word == v;
        assert items[i].word == v;
      }
    }
  }

  /** Whether entry `a` comes before entry `b` in `most_common`: a higher
      count, or the same count and an earlier first occurrence. */
  predicate Outranks(a: Tally, b: Tally) {
    a.count > b.count || (a.count == b.count && a.first < b.first)
  }

  predicate DistinctFirsts(items: seq<Tally>) {
    forall i, j :: 0 <= i < j < |items| ==> items[i].first != items[j].first
  }

  /** The position of the entry that outranks every other one. */
  function BestIndex(items: seq<Tally>): (k: nat)
    requires items != [] && DistinctFirsts(items)
    ensures k < |items|
    ensures forall i :: 0 <= i < |items| && i != k ==> Outranks(items[k], items[i])
    decreases |items|
  {
    if |items| == 1 then 0
    else
      var k := BestIndex(items[..|items| - 1]);
      if Outranks(items[|items| - 1], items[k]) then |items| - 1 else k
  }

  lemma RemoveAt(items: seq<Tally>, k: nat)
    requires k < |items| && DistinctFirsts(items)
    ensures DistinctFirsts(items[..k] + items[k + 1..])
    ensures forall x :: x in items[..k] + items[k + 1..] <==> x in items && x != items[k]
    ensures |items[..k] + items[k + 1..]| == |items| - 1
  {
    var rest := items[..k] + items[k + 1..];
    assert forall i :: 0 <= i < |rest| ==> rest[i] == items[if i < k then i else i + 1];
    forall x | x in items && x != items[k]
      ensures x in rest
    {
      var i :| 0 <= i < |items| && items[i] == x;
      assert rest[if i < k then i else i - 1] == x;
    }
  }

  /** `heapq.nlargest(n, items)` under `Outranks`, which is what
      `most_common(n)` computes: `n` times, the best remaining entry. */
  function Largest(items: seq<Tally>, n: nat): (top: seq<Tally>)
    requires DistinctFirsts(items)
    ensures |top| <= n
    ensures forall i :: 0 <= i < |top| ==> top[i] in items
    ensures forall i, j :: 0 <= i < j < |top| ==> Outranks(top[i], top[j])
    ensures forall x :: x in items && x !in top ==> |top| == n && forall i :: 0 <= i < |top| ==> Outranks(top[i], x)
    decreases n
  {
    if n == 0 || items == [] then []
    else
      var k := BestIndex(items);
      var rest := items[..k] + items[k + 1..];
      RemoveAt(items, k);
      var tail := Largest(rest, n - 1);
      assert forall i :: 0 < i <= |tail| ==> ([items[k]] + tail)[i] == tail[i - 1];
      [items[k]] + tail
  }

  /** Whether `a` precedes `b` in `Counter(words).most_common()`. */
  predicate Ahead(words: seq<string>, a: string, b: string)
    requires a in words && b in words
  {
    var ca, cb := multiset(words)[a], multiset(words)[b];
    ca > cb || (ca == cb && FirstIndex(words, a) < FirstIndex(words, b))
  }

  /** `Counter(words).most_common(n)`. At most `n` pairs, each a word of
      `words` with its number of occurrences; ordered by `Ahead`; and a word
      is left out only when `n` pairs are already there, all ahead of it. */
  function MostCommon(words: seq<string>, n: nat): (ranking: seq<Ranked>)
    ensures |ranking| <= n
    ensures forall i :: 0 <= i < |ranking| ==>
      ranking[i].word in words && ranking[i].count == multiset(words)[ranking[i].word] && ranking[i].count >= 1
    ensures forall i, j :: 0 <= i < j < |ranking| ==>
      ranking[i].word != ranking[j].word && Ahead(words, ranking[i].word, ranking[j].word)
    ensures forall w :: w in words && (forall i :: 0 <= i < |ranking| ==> ranking[i].word != w) ==>
      |ranking| == n && forall i :: 0 <= i < |ranking| ==> Ahead(words, ranking[i].word, w)
  {
    var items := CounterOf(words);
    var top := Largest(items, n);
    var ranking := seq(|top|, i requires 0 <= i < |top| => Ranked(top[i].word, top[i].count));
    RankedEntries(words, items, top, ranking);
    RankedInOrder(words, items, top, ranking);
    RankedMaximal(words, items, top, n, ranking);
    ranking
  }

  /** An entry of the Counter sits at its word's first occurrence and
      carries the word's number of occurrences. */
  lemma CounterEntry(words: seq<string>, x: Tally)
    requires x in CounterOf(words)
    ensures x.word in words && x.first == FirstIndex(words, x.word) && x.count == multiset(words)[x.word]
  {
    var items := CounterOf(words);
    var j :| 0 <= j < |items| && items[j] == x;
    FirstOccurrenceUnique(words, x.word, x.first, FirstIndex(words, x.word));
  }

  lemma RankedEntries(words: seq<string>, items: seq<Tally>, top: seq<Tally>, ranking: seq<Ranked>)
    requires items == CounterOf(words) && forall i :: 0 <= i < |top| ==> top[i] in items
    requires |ranking| == |top| && forall i :: 0 <= i < |top| ==> ranking[i] == Ranked(top[i].word, top[i].count)
    ensures forall i :: 0 <= i < |ranking| ==>
      ranking[i].word in words && ranking[i].count == multiset(words)[ranking[i].word] && ranking[i].count >= 1
  {
    forall i | 0 <= i < |ranking|
      ensures ranking[i].word in words && ranking[i].count == multiset(words)[ranking[i].word]
    {
      CounterEntry(words, top[i]);
    }
  }

  lemma RankedInOrder(words: seq<string>, items: seq<Tally>, top: seq<Tally>, ranking: seq<Ranked>)
    requires items == CounterOf(words) && forall i :: 0 <= i < |top| ==> top[i] in items
    requires forall i, j :: 0 <= i < j < |top| ==> Outranks(top[i], top[j])
    requires |ranking| == |top| && forall i :: 0 <= i < |top| ==> ranking[i] == Ranked(top[i].word, top[i].count)
    ensures forall i, j :: 0 <= i < j < |ranking| ==>
      ranking[i].word in words && ranking[j].word in words &&
      ranking[i].word != ranking[j].word && Ahead(words, ranking[i].word, ranking[j].word)
  {
    forall i, j | 0 <= i < j < |ranking|
      ensures ranking[i].word in words && ranking[j].word in words
      ensures ranking[i].word != ranking[j].word && Ahead(words, ranking[i].word, ranking[j].word)
    {
      CounterEntry(words, top[i]);
      CounterEntry(words, top[j]);
      assert Outranks(top[i], top[j]);
    }
  }

  lemma RankedMaximal(words: seq<string>, items: seq<Tally>, top: seq<Tally>, n: nat, ranking: seq<Ranked>)
    requires items == CounterOf(words) && forall i :: 0 <= i < |top| ==> top[i] in items
    requires forall x :: x in items && x !in top ==> |top| == n && forall i :: 0 <= i < |top| ==> Outranks(top[i], x)
    requires |ranking| == |top| && forall i :: 0 <= i < |top| ==> ranking[i] == Ranked(top[i].word, top[i].count)
    ensures forall w :: w in words && (forall i :: 0 <= i < |ranking| ==> ranking[i].word != w) ==>
      |ranking| == n && forall i :: 0 <= i < |ranking| ==> ranking[i].word in words && Ahead(words, ranking[i].word, w)
  {
    forall w | w in words && (forall i :: 0 <= i < |ranking| ==> ranking[i].word != w)
      ensures |ranking| == n && forall i :: 0 <= i < |ranking| ==> ranking[i].word in words && Ahead(words, ranking[i].word, w)
    {
      var j :| 0 <= j < |items| && items[j].word == w;
      var x := items[j];
      CounterEntry(words, x);
      forall i | 0 <= i < |top|
        ensures top[i] != x
      {
        assert ranking[i].word != w;
      }
      assert x !in top;
      forall i | 0 <= i < |ranking|
        ensures ranking[i].word in words && Ahead(words, ranking[i].word, w)
      {
        CounterEntry(words, top[i]);
        assert Outranks(top[i], x);
      }
    }
  }
}
