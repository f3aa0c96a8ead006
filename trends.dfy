/** The keyword-extraction engine `get_trends_for_genre`: scrape the titles
    of a list of subreddits, clean and deduplicate them, tokenise and filter
    them, index every kept word to the titles it came from, and rank the ten
    most common words. */
module Trends {
  import opened Text
  import opened Counting

  /** The engine's fixed stop-word set. */
  const STOP_WORDS: set<string> := {
    "the", "and", "a", "to", "of", "in", "i", "is", "that", "it", "for", "my", "on", "with",
    "this", "was", "have", "but", "be", "are", "just", "me", "from", "at", "so", "not",
    "story", "part", "update", "series", "final", "like", "one", "up", "out", "what", "when",
    "all", "do", "no", "found", "about", "how", "an", "they", "we", "she", "he", "by",
    "looking", "help", "question", "advice", "anyone", "else", "has", "scary", "horror",
    "dating", "relationship", "confession", "reddit", "people", "know", "want", "time", "would"
  }

  /** How many words the ranking holds at most (`most_common(10)`). */
  const TOP_COUNT: nat := 10

  const MOD_POST_MARKER: string := "[Mod Post]"
  const ANNOUNCEMENT_MARKER: string := "[Announcement]"

  /** A token is kept when it is not a stop word and is longer than three
      characters. */
  predicate IsKeyword(w: string) {
    w !in STOP_WORDS && |w| > 3
  }

  // ---------------------------------------------------------------------
  // Cleaning and tokenising one title
  // ---------------------------------------------------------------------

  /** A fetched title with the "[Mod Post]" markers, then the
      "[Announcement]" markers, replaced by nothing. */
  function Clean(title: string): (clean: string)
    ensures |clean| <= |title|
  {
    RemoveAll(RemoveAll(title, MOD_POST_MARKER), ANNOUNCEMENT_MARKER)
  }

  /** Cleaning changes exactly the titles that hold a marker. */
  lemma CleanUnchanged(title: string)
    ensures Clean(title) == title <==> !Contains(title, MOD_POST_MARKER) && !Contains(title, ANNOUNCEMENT_MARKER)
  {
    var once := RemoveAll(title, MOD_POST_MARKER);
    RemoveAllChanges(title, MOD_POST_MARKER);
    RemoveAllChanges(once, ANNOUNCEMENT_MARKER);
    if !Contains(title, MOD_POST_MARKER) {
      RemoveAllChanges(title, ANNOUNCEMENT_MARKER);
    }
  }

  /** A title holding one "[Mod Post]" and no other marker loses exactly
      that marker. */
  lemma CleanModPost(a: string, b: string)
    requires !Contains(a, MOD_POST_MARKER) && !Contains(b, MOD_POST_MARKER)
    requires !Contains(a + b, ANNOUNCEMENT_MARKER)
    ensures Clean(a + MOD_POST_MARKER + b) == a + b
  {
    NoMatchBefore(a, MOD_POST_MARKER, b);
    RemoveAllLeftmost(a, MOD_POST_MARKER, b);
    RemoveAllChanges(b, MOD_POST_MARKER);
    RemoveAllChanges(a + b, ANNOUNCEMENT_MARKER);
  }

  /** A title holding one "[Announcement]" and no other marker loses
      exactly that marker. */
  lemma CleanAnnouncement(a: string, b: string)
    requires !Contains(a + ANNOUNCEMENT_MARKER + b, MOD_POST_MARKER)
    requires !Contains(a, ANNOUNCEMENT_MARKER) && !Contains(b, ANNOUNCEMENT_MARKER)
    ensures Clean(a + ANNOUNCEMENT_MARKER + b) == a + b
  {
    RemoveAllChanges(a + ANNOUNCEMENT_MARKER + b, MOD_POST_MARKER);
    NoMatchBefore(a, ANNOUNCEMENT_MARKER, b);
    RemoveAllLeftmost(a, ANNOUNCEMENT_MARKER, b);
    RemoveAllChanges(b, ANNOUNCEMENT_MARKER);
  }

  /** The lower-cased title with every punctuation character deleted. */
  function Normalize(title: string): (clean: string)
    ensures forall c :: c in clean ==> !IsUpper(c) && !IsPunctuation(c)
  {
    StripPunctuation(Lower(title))
  }

  /** A token as the engine produces it: non-empty, without spaces,
      capitals or punctuation. */
  predicate IsToken(w: string) {
    w != [] && forall c :: c in w ==> !IsSpace(c) && !IsUpper(c) && !IsPunctuation(c)
  }

  /** The tokens of one title: its normalised form split on whitespace. */
  function Tokens(title: string): (tokens: seq<string>) {
    Split(Normalize(title))
  }

  /** Every token is non-empty and holds no space, capital or punctuation. */
  lemma TokensWellFormed(title: string)
    ensures forall w :: w in Tokens(title) ==> IsToken(w)
  {
    var clean := Normalize(title);
    forall w | w in Tokens(title)
      ensures IsToken(w)
    {
      assert forall c :: c in w ==> c in clean;
    }
  }

  /** Normalising is idempotent. */
  lemma NormalizeIdempotent(title: string)
    ensures Normalize(Normalize(title)) == Normalize(title)
  {
    var clean := Normalize(title);
    assert Lower(clean) == clean;
    StripPunctuationIdentity(clean);
  }

  /** Tokenising the normalised form of a title gives the title's tokens
      again. */
  lemma TokenizeIdempotent(title: string)
    ensures Tokens(Normalize(title)) == Tokens(title)
  {
    NormalizeIdempotent(title);
  }

  /** The tokens joined by single spaces tokenise back to themselves. */
  lemma TokensRoundTrip(title: string)
    ensures Split(Join(Tokens(title))) == Tokens(title)
  {
    TokensWellFormed(title);
    SplitJoin(Tokens(title));
  }

  /** The tokens that pass the filter, in order. */
  function KeepKeywords(tokens: seq<string>): (kept: seq<string>)
    decreases |tokens|
  {
    if tokens == [] then []
    else
      var last := tokens[|tokens| - 1];
      KeepKeywords(tokens[..|tokens| - 1]) + (if IsKeyword(last) then [last] else [])
  }

  lemma KeepKeywordsSnoc(tokens: seq<string>, w: string)
    ensures KeepKeywords(tokens + [w]) == KeepKeywords(tokens) + if IsKeyword(w) then [w] else []
  {
    assert (tokens + [w])[..|tokens|] == tokens;
  }

  /** The filter keeps every keyword as often as it occurs, and nothing else. */
  lemma {:induction false} KeepKeywordsContents(tokens: seq<string>)
    ensures forall w :: multiset(KeepKeywords(tokens))[w] == if IsKeyword(w) then multiset(tokens)[w] else 0
    ensures forall w :: w in KeepKeywords(tokens) <==> IsKeyword(w) && w in tokens
    decreases |tokens|
  {
    if tokens != [] {
      var init := tokens[..|tokens| - 1];
      assert tokens == init + [tokens[|tokens| - 1]];
      KeepKeywordsContents(init);
    }
  }

  /** The words one title contributes. */
  function Keywords(title: string): (kept: seq<string>) {
    KeepKeywords(Tokens(title))
  }

  lemma KeywordsContents(title: string)
    ensures forall w :: w in Keywords(title) <==> IsKeyword(w) && w in Tokens(title)
  {
    KeepKeywordsContents(Tokens(title));
  }

  // ---------------------------------------------------------------------
  // Scraping
  // ---------------------------------------------------------------------

  /** What reading one feed URL yields: the titles of the entries read, in
      order, and whether an exception (from the fetch, the parse, or an entry
      without a title) ended the reading. */
  datatype Feed = Feed(titles: seq<string>, raised: bool)

  const FEED_PREFIX: string := "https://www.reddit.com/r/"

  /** The URL of a subreddit's "hot" RSS feed. */
  function HotFeedUrl(sub: string): (url: string) {
    FEED_PREFIX + sub + "/hot.rss"
  }

  /** The URL of a subreddit's "top of the week" RSS feed. */
  function TopWeekFeedUrl(sub: string): (url: string) {
    FEED_PREFIX + sub + "/top/.rss?t=week"
  }

  /** Distinct subreddits read distinct URLs, and a hot-feed URL is never
      a top-of-the-week URL. */
  lemma FeedUrlsDistinct(a: string, b: string)
    ensures HotFeedUrl(a) == HotFeedUrl(b) ==> a == b
    ensures TopWeekFeedUrl(a) == TopWeekFeedUrl(b) ==> a == b
    ensures HotFeedUrl(a) != TopWeekFeedUrl(b)
  {
    var n := |FEED_PREFIX|;
    assert HotFeedUrl(a)[n..n + |a|] == a && TopWeekFeedUrl(a)[n..n + |a|] == a;
    assert HotFeedUrl(b)[n..n + |b|] == b && TopWeekFeedUrl(b)[n..n + |b|] == b;
    var hot := HotFeedUrl(a);
    var top := TopWeekFeedUrl(b);
    assert hot[|hot| - 1] == 's' && top[|top| - 1] == 'k';
  }

  /** The raw titles read for one subreddit, in order: the hot feed's, then
      the top-of-the-week feed's unless reading the hot feed raised, since
      one `try` covers both. */
  function SubredditTitles(sub: string, fetch: string -> Feed): (raw: seq<string>) {
    var hot := fetch(HotFeedUrl(sub));
    if hot.raised then hot.titles else hot.titles + fetch(TopWeekFeedUrl(sub)).titles
  }

  /** The set of cleaned forms of `raw`. */
  function CleanedSet(raw: seq<string>): (titles: set<string>)
    decreases |raw|
  {
    if raw == [] then {} else CleanedSet(raw[..|raw| - 1]) + {Clean(raw[|raw| - 1])}
  }

  lemma {:induction false} CleanedSetMembers(raw: seq<string>, t: string)
    ensures t in CleanedSet(raw) <==> exists r :: r in raw && Clean(r) == t
    decreases |raw|
  {
    if raw != [] {
      var init := raw[..|raw| - 1];
      assert raw == init + [raw[|raw| - 1]];
      CleanedSetMembers(init, t);
    }
  }

  /** The deduplicated set of cleaned titles read for `subs`. */
  function ScrapedTitles(subs: seq<string>, fetch: string -> Feed): (titles: set<string>)
    decreases |subs|
  {
    if subs == [] then {}
    else ScrapedTitles(subs[..|subs| - 1], fetch) + CleanedSet(SubredditTitles(subs[|subs| - 1], fetch))
  }

  /** `t` is the cleaned form of a raw title read for one of `subs`. */
  ghost predicate ReadFor(subs: seq<string>, fetch: string -> Feed, t: string) {
    exists i, r :: 0 <= i < |subs| && r in SubredditTitles(subs[i], fetch) && Clean(r) == t
  }

  lemma ReadForSnoc(init: seq<string>, last: string, fetch: string -> Feed, t: string)
    ensures ReadFor(init + [last], fetch, t) <==>
      ReadFor(init, fetch, t) || exists r :: r in SubredditTitles(last, fetch) && Clean(r) == t
  {
    var subs := init + [last];
    if ReadFor(subs, fetch, t) {
      var i, r :| 0 <= i < |subs| && r in SubredditTitles(subs[i], fetch) && Clean(r) == t;
      if i < |init| {
        assert init[i] == subs[i];
      }
    }
    if ReadFor(init, fetch, t) {
      var i, r :| 0 <= i < |init| && r in SubredditTitles(init[i], fetch) && Clean(r) == t;
      assert subs[i] == init[i];
    }
    if exists r :: r in SubredditTitles(last, fetch) && Clean(r) == t {
      var r :| r in SubredditTitles(last, fetch) && Clean(r) == t;
      assert subs[|init|] == last;
    }
  }

  lemma ScrapedTitlesSnoc(init: seq<string>, last: string, fetch: string -> Feed)
    ensures ScrapedTitles(init + [last], fetch) == ScrapedTitles(init, fetch) + CleanedSet(SubredditTitles(last, fetch))
  {
    assert (init + [last])[..|init|] == init;
  }

  /** A title is scraped exactly when it is the cleaned form of a raw title
      read for one of the subreddits. */
  lemma {:induction false} ScrapedTitlesMembers(subs: seq<string>, fetch: string -> Feed, t: string)
    ensures t in ScrapedTitles(subs, fetch) <==> ReadFor(subs, fetch, t)
    decreases |subs|
  {
    if subs != [] {
      var init := subs[..|subs| - 1];
      var last := subs[|subs| - 1];
      assert subs == init + [last];
      ScrapedTitlesSnoc(init, last, fetch);
      ScrapedTitlesMembers(init, fetch, t);
      CleanedSetMembers(SubredditTitles(last, fetch), t);
      ReadForSnoc(init, last, fetch, t);
    }
  }

  /** When no feed read yields a title, nothing is scraped. */
  lemma NoEntriesNoTitles(subs: seq<string>, fetch: string -> Feed)
    requires forall i :: 0 <= i < |subs| ==> SubredditTitles(subs[i], fetch) == []
    ensures ScrapedTitles(subs, fetch) == {}
  {
    forall t | t in ScrapedTitles(subs, fetch)
      ensures false
    {
      ScrapedTitlesMembers(subs, fetch, t);
    }
  }

  /** Cleaning the raw titles of two reads gives the union of the two sets. */
  lemma {:induction false} CleanedSetAppend(a: seq<string>, b: seq<string>)
    ensures CleanedSet(a + b) == CleanedSet(a) + CleanedSet(b)
    decreases |b|
  {
    if b == [] {
      assert a + b == a;
    } else {
      var init := b[..|b| - 1];
      assert (a + b)[..|a + b| - 1] == a + init;
      CleanedSetAppend(a, init);
    }
  }

  /** The loop over the entries of one feed: the cleaned title of each
      entry is added to the title set. */
  method AddEntries(entries: seq<string>, allTitles: set<string>) returns (allTitles': set<string>)
    ensures allTitles' == allTitles + CleanedSet(entries)
  {
    allTitles' := allTitles;
    for e := 0 to |entries|
      invariant allTitles' == allTitles + CleanedSet(entries[..e])
    {
      var clean := Clean(entries[e]);
      allTitles' := allTitles' + {clean};
      assert entries[..e + 1][..e] == entries[..e];
    }
    assert entries[..|entries|] == entries;
  }

  /** The scrape loop: for each subreddit, read its hot feed and then, if no
      exception was raised, its top-of-the-week feed, adding the cleaned
      title of every entry read to the title set. */
  method Scrape(subreddits: seq<string>, fetch: string -> Feed) returns (allTitles: set<string>)
    ensures allTitles == ScrapedTitles(subreddits, fetch)
  {
    allTitles := {};
    for i := 0 to |subreddits|
      invariant allTitles == ScrapedTitles(subreddits[..i], fetch)
    {
      var sub := subreddits[i];
      ghost var before := allTitles;
      var urls := [HotFeedUrl(sub), TopWeekFeedUrl(sub)];
      ghost var read: seq<string> := [];
      var u := 0;
      var raised := false;
      while u < |urls| && !raised
        invariant 0 <= u <= 2
        invariant allTitles == before + CleanedSet(read)
        invariant u == 0 ==> read == [] && !raised
        invariant u == 1 ==> read == fetch(HotFeedUrl(sub)).titles && raised == fetch(HotFeedUrl(sub)).raised
        invariant u == 2 ==> read == SubredditTitles(sub, fetch)
      {
        var feed := fetch(urls[u]);
        allTitles := AddEntries(feed.titles, allTitles);
        CleanedSetAppend(read, feed.titles);
        read := read + feed.titles;
        if u == 0 {
          assert read == feed.titles;
        }
        raised := feed.raised;
        u := u + 1;
      }
      assert subreddits[..i + 1][..i] == subreddits[..i];
    }
    assert subreddits[..|subreddits|] == subreddits;
  }

  // ---------------------------------------------------------------------
  // Indexing
  // ---------------------------------------------------------------------

  predicate Distinct(order: seq<string>) {
    forall i, j :: 0 <= i < j < |order| ==> order[i] != order[j]
  }

  /** `order` lists every title of `titles` once: one order in which the
      loop over the title set can meet them. */
  ghost predicate IsEnumeration(order: seq<string>, titles: set<string>) {
    Distinct(order) && forall t :: t in order <==> t in titles
  }

  /** The `words` list after the loop has met the titles of `order`. */
  function WordsOf(order: seq<string>): (words: seq<string>)
    decreases |order|
  {
    if order == [] then [] else WordsOf(order[..|order| - 1]) + Keywords(order[|order| - 1])
  }

  /** A word is in `words` exactly when some title met contributes it. */
  lemma {:induction false} WordsOfMembers(order: seq<string>)
    ensures forall w :: w in WordsOf(order) <==> exists t :: t in order && w in Keywords(t)
    decreases |order|
  {
    if order != [] {
      var init := order[..|order| - 1];
      assert order == init + [order[|order| - 1]];
      WordsOfMembers(init);
    }
  }

  /** The list `index` holds for `w`, or the empty list when `w` is not a key. */
  function Lookup(index: map<string, seq<string>>, w: string): (titles: seq<string>) {
    if w in index then index[w] else []
  }

  /** `title` appended to the list of `w`, which is created if absent. */
  function Append(index: map<string, seq<string>>, w: string, title: string): (index': map<string, seq<string>>) {
    index[w := Lookup(index, w) + [title]]
  }

  /** `title` appended to the list of each word of `ws` in turn. */
  function AddAll(index: map<string, seq<string>>, ws: seq<string>, title: string): (index': map<string, seq<string>>)
    decreases |ws|
  {
    if ws == [] then index
    else Append(AddAll(index, ws[..|ws| - 1], title), ws[|ws| - 1], title)
  }

  lemma AddAllSnoc(index: map<string, seq<string>>, ws: seq<string>, w: string, title: string)
    ensures AddAll(index, ws + [w], title) == Append(AddAll(index, ws, title), w, title)
  {
    assert (ws + [w])[..|ws|] == ws;
  }

  /** `word_to_titles` after the loop has met the titles of `order`. */
  function IndexOf(order: seq<string>): (index: map<string, seq<string>>)
    decreases |order|
  {
    if order == [] then map[]
    else
      var last := order[|order| - 1];
      AddAll(IndexOf(order[..|order| - 1]), Keywords(last), last)
  }

  function Repeat(t: string, k: nat): (r: seq<string>)
    ensures |r| == k
    decreases k
  {
    if k == 0 then [] else Repeat(t, k - 1) + [t]
  }

  lemma {:induction false} RepeatContents(t: string, k: nat)
    ensures forall x :: x in Repeat(t, k) ==> x == t
    ensures forall x :: multiset(Repeat(t, k))[x] == if x == t then k else 0
    decreases k
  {
    if k > 0 {
      RepeatContents(t, k - 1);
    }
  }

  /** Appending adds `title` to the list of `w` and to no other list. */
  lemma AppendLookup(index: map<string, seq<string>>, w: string, title: string, v: string)
    ensures v in Append(index, w, title) <==> v in index || v == w
    ensures Lookup(Append(index, w, title), v) == Lookup(index, v) + if v == w then [title] else []
  {
    if v != w {
      assert Lookup(index, v) + [] == Lookup(index, v);
    }
  }

  lemma AddAllStepKeys(index: map<string, seq<string>>, init: seq<string>, v: string, title: string, w: string)
    requires w in AddAll(index, init, title) <==> w in index || w in init
    ensures w in AddAll(index, init + [v], title) <==> w in index || w in init + [v]
  {
    AddAllSnoc(index, init, v, title);
    AppendLookup(AddAll(index, init, title), v, title, w);
  }

  lemma AddAllStep(index: map<string, seq<string>>, init: seq<string>, v: string, title: string, w: string)
    requires Lookup(AddAll(index, init, title), w) == Lookup(index, w) + Repeat(title, multiset(init)[w])
    ensures Lookup(AddAll(index, init + [v], title), w) == Lookup(index, w) + Repeat(title, multiset(init + [v])[w])
  {
    var before := AddAll(index, init, title);
    AddAllSnoc(index, init, v, title);
    AppendLookup(before, v, title, w);
    var k := multiset(init)[w];
    if w == v {
      assert multiset(init + [v])[w] == k + 1;
      assert Lookup(index, w) + Repeat(title, k) + [title] == Lookup(index, w) + (Repeat(title, k) + [title]);
    } else {
      assert multiset(init + [v])[w] == k;
      assert Lookup(before, w) + [] == Lookup(before, w);
    }
  }

  /** Adding `ws` for `title` appends `title` to the list of each word of
      `ws` once per occurrence of the word, and creates no other key. */
  lemma {:induction false} AddAllContents(index: map<string, seq<string>>, ws: seq<string>, title: string, w: string)
    ensures w in AddAll(index, ws, title) <==> w in index || w in ws
    ensures Lookup(AddAll(index, ws, title), w) == Lookup(index, w) + Repeat(title, multiset(ws)[w])
    decreases |ws|
  {
    if ws == [] {
      assert Lookup(index, w) + [] == Lookup(index, w);
    } else {
      var init := ws[..|ws| - 1];
      assert ws == init + [ws[|ws| - 1]];
      AddAllContents(index, init, title, w);
      AddAllStepKeys(index, init, ws[|ws| - 1], title, w);
      AddAllStep(index, init, ws[|ws| - 1], title, w);
    }
  }

  /** What the index holds for `w` after the titles of `order`: as many
      entries as `words` holds copies of `w`, each a title of `order` that
      contributed `w`, and, when `order` has no repeated title, each title
      as often as it contributed `w`. */
  lemma {:induction false} IndexOfContents(order: seq<string>, w: string)
    ensures w in IndexOf(order) <==> w in WordsOf(order)
    ensures |Lookup(IndexOf(order), w)| == multiset(WordsOf(order))[w]
    ensures forall t :: t in Lookup(IndexOf(order), w) ==> t in order && w in Keywords(t)
    ensures Distinct(order) ==> forall t :: t in order ==>
      multiset(Lookup(IndexOf(order), w))[t] == multiset(Keywords(t))[w]
    decreases |order|
  {
    if order != [] {
      var init := order[..|order| - 1];
      var last := order[|order| - 1];
      assert order == init + [last];
      IndexOfContents(init, w);
      AddAllContents(IndexOf(init), Keywords(last), last, w);
      var before := Lookup(IndexOf(init), w);
      RepeatContents(last, multiset(Keywords(last))[w]);
      assert Lookup(IndexOf(order), w) == before + Repeat(last, multiset(Keywords(last))[w]);
      if Distinct(order) {
        assert last !in init;
        forall t | t in order
          ensures multiset(Lookup(IndexOf(order), w))[t] == multiset(Keywords(t))[w]
        {
          if t == last {
            assert t !in before;
          } else {
            assert t in init;
            assert Distinct(init);
          }
        }
      }
    }
  }

  /** The facts about `word_to_titles` that hold whatever order the title
      set is met in: every key is a keyword with a non-empty list; every
      listed title is one of `titles` and has the key among its tokens;
      every keyword of every title is a key; and each title appears in the
      list of `w` exactly as often as `w` occurs among its kept tokens. */
  ghost predicate IndexedFrom(titles: set<string>, index: map<string, seq<string>>) {
    && (forall w :: w in index ==> IsKeyword(w) && index[w] != [])
    && (forall w, t :: w in index && t in index[w] ==> t in titles)
    && (forall w, t :: w in index && t in index[w] ==> w in Tokens(t))
    && (forall t, w :: t in titles && w in Keywords(t) ==> w in index)
    && (forall w, t :: w in index && t in titles ==> multiset(index[w])[t] == multiset(Keywords(t))[w])
  }

  /** The facts about the ranking that hold whatever order the title set is
      met in: at most `n` pairs; each word a key of `index` whose count is
      the length of its list, at least 1; no word twice; counts
      non-increasing; and a key is left out only when `n` pairs are there,
      none with a smaller count. */
  ghost predicate RankedFrom(index: map<string, seq<string>>, ranking: seq<Ranked>, n: nat) {
    && |ranking| <= n
    && (forall i :: 0 <= i < |ranking| ==>
          ranking[i].word in index && ranking[i].count == |index[ranking[i].word]| && ranking[i].count >= 1)
    && (forall i, j :: 0 <= i < j < |ranking| ==>
          ranking[i].word != ranking[j].word && ranking[i].count >= ranking[j].count)
    && (forall w :: w in index && (forall i :: 0 <= i < |ranking| ==> ranking[i].word != w) ==>
          |ranking| == n && forall i :: 0 <= i < |ranking| ==> ranking[i].count >= |index[w]|)
  }

  lemma IndexOfIndexedFrom(order: seq<string>, titles: set<string>)
    requires IsEnumeration(order, titles)
    ensures IndexedFrom(titles, IndexOf(order))
  {
    var index := IndexOf(order);
    WordsOfMembers(order);
    forall w | w in index
      ensures IsKeyword(w) && index[w] != []
      ensures forall t :: t in index[w] ==> t in titles && w in Tokens(t)
    {
      IndexOfContents(order, w);
      var t :| t in order && w in Keywords(t);
      KeywordsContents(t);
      forall t' | t' in index[w]
        ensures t' in titles && w in Tokens(t')
      {
        KeywordsContents(t');
      }
    }
    forall w, t | w in index && t in titles
      ensures multiset(index[w])[t] == multiset(Keywords(t))[w]
    {
      IndexOfContents(order, w);
    }
    forall t, w | t in titles && w in Keywords(t)
      ensures w in index
    {
      IndexOfContents(order, w);
    }
  }

  /** Each ranked word is a key whose list is as long as its count. */
  lemma RankedWordsAreKeys(order: seq<string>, n: nat)
    ensures forall i :: 0 <= i < |MostCommon(WordsOf(order), n)| ==>
      var r := MostCommon(WordsOf(order), n)[i];
      r.word in IndexOf(order) && r.count == |IndexOf(order)[r.word]|
  {
    var ranking := MostCommon(WordsOf(order), n);
    forall i | 0 <= i < |ranking|
      ensures ranking[i].word in IndexOf(order) && ranking[i].count == |IndexOf(order)[ranking[i].word]|
    {
      IndexOfContents(order, ranking[i].word);
    }
  }

  /** A key left out of the ranking finds it full of words at least as
      frequent. */
  lemma UnrankedKeysAreBehind(order: seq<string>, n: nat, w: string)
    requires w in IndexOf(order)
    requires forall i :: 0 <= i < |MostCommon(WordsOf(order), n)| ==> MostCommon(WordsOf(order), n)[i].word != w
    ensures |MostCommon(WordsOf(order), n)| == n
    ensures forall i :: 0 <= i < |MostCommon(WordsOf(order), n)| ==>
      MostCommon(WordsOf(order), n)[i].count >= |IndexOf(order)[w]|
  {
    IndexOfContents(order, w);
  }

  /** Ranked words are distinct and their counts do not increase. */
  lemma RankedCountsDescend(words: seq<string>, n: nat)
    ensures forall i, j :: 0 <= i < j < |MostCommon(words, n)| ==>
      MostCommon(words, n)[i].word != MostCommon(words, n)[j].word &&
      MostCommon(words, n)[i].count >= MostCommon(words, n)[j].count
  {
  }

  lemma UnrankedKeys(index: map<string, seq<string>>, ranking: seq<Ranked>, order: seq<string>, n: nat)
    requires index == IndexOf(order) && ranking == MostCommon(WordsOf(order), n)
    ensures forall w :: w in index && (forall i :: 0 <= i < |ranking| ==> ranking[i].word != w) ==>
      |ranking| == n && forall i :: 0 <= i < |ranking| ==> ranking[i].count >= |index[w]|
  {
    forall w | w in index && (forall i :: 0 <= i < |ranking| ==> ranking[i].word != w)
      ensures |ranking| == n && forall i :: 0 <= i < |ranking| ==> ranking[i].count >= |index[w]|
    {
      UnrankedKeysAreBehind(order, n, w);
    }
  }

  lemma MostCommonRankedFrom(order: seq<string>, n: nat)
    ensures RankedFrom(IndexOf(order), MostCommon(WordsOf(order), n), n)
  {
    RankedWordsAreKeys(order, n);
    RankedCountsDescend(WordsOf(order), n);
    UnrankedKeys(IndexOf(order), MostCommon(WordsOf(order), n), order, n);
  }

  /** With no title there is nothing to index or rank. */
  lemma NoTitlesNoTrends(titles: set<string>, index: map<string, seq<string>>, ranking: seq<Ranked>, n: nat)
    requires IndexedFrom(titles, index) && RankedFrom(index, ranking, n)
    ensures titles == {} ==> index == map[] && ranking == []
  {
    if ranking != [] {
      assert ranking[0].word in index;
    }
    if index != map[] {
      var w :| w in index;
      assert index[w][0] in index[w];
      assert index[w][0] in titles;
    }
  }

  /** One kept token: `w` appended to `words`, and `title` to the list of
      `w`, which is created empty first when `w` is not yet a key. */
  method AddWord(w: string, title: string, words: seq<string>, wordToTitles: map<string, seq<string>>)
    returns (words': seq<string>, wordToTitles': map<string, seq<string>>)
    ensures words' == words + [w]
    ensures wordToTitles' == Append(wordToTitles, w, title)
    ensures w in wordToTitles' && wordToTitles'[w] == Lookup(wordToTitles, w) + [title]
    ensures forall v :: v != w ==> (v in wordToTitles' <==> v in wordToTitles)
    ensures forall v :: v != w && v in wordToTitles ==> wordToTitles'[v] == wordToTitles[v]
  {
    words' := words + [w];
    wordToTitles' := wordToTitles;
    if w !in wordToTitles' {
      wordToTitles' := wordToTitles'[w := []];
    }
    wordToTitles' := wordToTitles'[w := wordToTitles'[w] + [title]];
  }

  /** The inner loop of the analysis for the tokens of one title: each
      token that passes the filter is added with `AddWord`. */
  method AddTokens(tokens: seq<string>, title: string, words: seq<string>, wordToTitles: map<string, seq<string>>)
    returns (words': seq<string>, wordToTitles': map<string, seq<string>>)
    ensures words' == words + KeepKeywords(tokens)
    ensures wordToTitles' == AddAll(wordToTitles, KeepKeywords(tokens), title)
  {
    words', wordToTitles' := words, wordToTitles;
    ghost var kept: seq<string> := [];
    for j := 0 to |tokens|
      invariant kept == KeepKeywords(tokens[..j])
      invariant words' == words + kept
      invariant wordToTitles' == AddAll(wordToTitles, kept, title)
    {
      var w := tokens[j];
      assert tokens[..j + 1] == tokens[..j] + [w];
      KeepKeywordsSnoc(tokens[..j], w);
      if IsKeyword(w) {
        words', wordToTitles' := AddWord(w, title, words', wordToTitles');
        ghost var keptBefore := kept;
        kept := kept + [w];
        AddAllSnoc(wordToTitles, keptBefore, w, title);
      }
    }
    assert tokens[..|tokens|] == tokens;
  }

  /** The analysis loop: meet the titles of the set in some order, add the
      kept tokens of each, then rank `words`. */
  method Analyze(allTitles: set<string>)
    returns (ranking: seq<Ranked>, wordToTitles: map<string, seq<string>>, ghost order: seq<string>)
    ensures IsEnumeration(order, allTitles)
    ensures wordToTitles == IndexOf(order)
    ensures ranking == MostCommon(WordsOf(order), TOP_COUNT)
    ensures IndexedFrom(allTitles, wordToTitles)
    ensures RankedFrom(wordToTitles, ranking, TOP_COUNT)
  {
    var words: seq<string> := [];
    wordToTitles := map[];
    order := [];
    var remaining := allTitles;
    while remaining != {}
      invariant Distinct(order)
      invariant forall t :: t in order <==> t in allTitles && t !in remaining
      invariant remaining <= allTitles
      invariant words == WordsOf(order)
      invariant wordToTitles == IndexOf(order)
      decreases |remaining|
    {
      var title :| title in remaining;
      var tokens := Tokens(title);
      words, wordToTitles := AddTokens(tokens, title, words, wordToTitles);
      ghost var met := order;
      order := order + [title];
      assert order[..|order| - 1] == met;
      remaining := remaining - {title};
    }
    ranking := MostCommon(words, TOP_COUNT);
    IndexOfIndexedFrom(order, allTitles);
    MostCommonRankedFrom(order, TOP_COUNT);
  }

  /** `get_trends_for_genre(subreddits)`, with `fetch` standing for reading
      a feed URL: the ten most common keywords with their counts, and the
      map from each keyword to the titles it came from. */
  method GetTrendsForGenre(subreddits: seq<string>, fetch: string -> Feed)
    returns (ranking: seq<Ranked>, wordToTitles: map<string, seq<string>>)
    ensures IndexedFrom(ScrapedTitles(subreddits, fetch), wordToTitles)
    ensures RankedFrom(wordToTitles, ranking, TOP_COUNT)
    ensures exists order ::
      && IsEnumeration(order, ScrapedTitles(subreddits, fetch))
      && wordToTitles == IndexOf(order)
      && ranking == MostCommon(WordsOf(order), TOP_COUNT)
    ensures ScrapedTitles(subreddits, fetch) == {} ==> ranking == [] && wordToTitles == map[]
    ensures forall w :: w in wordToTitles ==> w !in STOP_WORDS && |w| > 3
    ensures forall i :: 0 <= i < |ranking| ==> ranking[i].word !in STOP_WORDS && |ranking[i].word| > 3
  {
    var allTitles := Scrape(subreddits, fetch);
    ghost var order;
    ranking, wordToTitles, order := Analyze(allTitles);
    NoTitlesNoTrends(allTitles, wordToTitles, ranking, TOP_COUNT);
  }
}
