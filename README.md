# Trend engine model

This project models the keyword-extraction engine of the trend dashboard, the
function `get_trends_for_genre(subreddits)` in `app.py`. The function has three
steps:

1. **Scraping.** For each subreddit it reads the "hot" RSS feed and the
   "top of the week" RSS feed. It strips the markers `[Mod Post]` and
   `[Announcement]` from every entry title and adds the cleaned title to a
   set.
2. **Tokenising and filtering.** For each distinct title it lower-cases the
   title, deletes every `string.punctuation` character and splits the result
   on whitespace. A token is kept when it is not one of 67 stop words and is
   longer than three characters.
3. **Indexing and ranking.** Each kept token is appended to a `words` list,
   and the title is appended to the token's list in `word_to_titles`. The
   result is `Counter(words).most_common(10)` together with `word_to_titles`.

The model has three modules.

- `Text` (`text.dfy`) models the Python string built-ins the engine uses:
  - `str.lower` on ASCII letters;
  - deleting punctuation with `str.translate`;
  - `str.split()` with no separator;
  - `str.replace(marker, "")`.
- `Counting` (`counting.dfy`) models `collections.Counter` and
  `most_common(n)`. It keeps one entry per word in first-occurrence order.
  It selects entries by count, highest first; equal counts keep their
  first-occurrence order.
- `Trends` (`trends.dfy`) models the engine. Its parts:
  - the stop words and the cleaning and tokenising of a title;
  - the scrape loop, as the method `Scrape`;
  - the analysis loop, as the methods `Analyze`, `AddTokens` and `AddWord`;
  - the whole function, as `GetTrendsForGenre`.

  The loops of the source are loops here. Each is proved against a
  specification function:
  - `ScrapedTitles` for the title set;
  - `WordsOf` for the `words` list;
  - `IndexOf` for `word_to_titles`;
  - `MostCommon` for the ranking.

  The properties of the result are then proved about those functions.

The feed read is a parameter `fetch: string -> Feed`. A `Feed` holds the
titles of the entries read before any exception, and a flag that says
whether an exception ended the read.

The order in which Python iterates the title set is not fixed. `Analyze`
therefore picks the next title with a nondeterministic choice and records the
order in a ghost sequence. `IndexedFrom` and `RankedFrom` state the facts that
hold whatever that order is.

## Model

| member | source | states |
|---|---|---|
| Text.ToLower | app.py:39 | a capital A–Z becomes the letter 32 code points higher; any other character is kept; no capital comes out |
| Text.Lower | app.py:39 | `title.lower()` keeps the length, lowers every capital at its own position, keeps every other character, and leaves no capital |
| Text.StripPunctuation | app.py:39 | the translated string holds no punctuation character and only characters of the input |
| Text.StripPunctuationCounts | app.py:39 | deleting punctuation keeps every other character exactly as often as it occurs and removes every punctuation character |
| Text.StripPunctuationIdentity | app.py:39 | deleting punctuation leaves a string unchanged exactly when it holds no punctuation |
| Text.StripPunctuationAppend | app.py:39 | deleting punctuation from two joined strings gives the two results joined, so the kept characters keep their order |
| Text.StripPunctuationChar | app.py:39 | a single character is deleted exactly when it is punctuation; with `StripPunctuationAppend` this fixes every result |
| Text.Split | app.py:40 | every token of `split()` is non-empty, holds no whitespace, and is made of characters of the input |
| Text.SplitKeepsText | app.py:40 | the tokens, concatenated, give the input with its whitespace removed, so no character is lost or reordered |
| Text.SplitJoin | app.py:40 | splitting the space-join of non-empty whitespace-free words gives the same words back |
| Text.SplitAtSpace | app.py:40 | `split()` breaks at every whitespace character: the tokens of `a`, a whitespace character, then `b` are the tokens of `a` followed by the tokens of `b` |
| Text.SplitWord | app.py:40 | a non-empty run without whitespace splits into itself alone; with `SplitAtSpace` and the empty case this fixes every result |
| Text.ContainsTail | app.py:21 | where the marker does not start at position 0, it occurs in the string exactly when it occurs after the first character |
| Text.RemoveAll | app.py:21 | `replace(marker, "")` never makes a string longer |
| Text.RemoveAllChanges | app.py:21 | `replace(marker, "")` leaves a string unchanged exactly when the marker does not occur in it, and otherwise makes it strictly shorter |
| Text.RemoveAllLeftmost | app.py:21 | `replace(marker, "")` keeps the text before the leftmost occurrence, deletes that occurrence, and treats the rest the same way |
| Trends.Clean | app.py:21 | a cleaned title is never longer than the raw title |
| Trends.CleanUnchanged | app.py:21 | cleaning changes a title exactly when it contains `[Mod Post]` or `[Announcement]` |
| Trends.CleanModPost | app.py:21 | a title holding one `[Mod Post]` and no other marker comes out as the title without it |
| Trends.CleanAnnouncement | app.py:21 | a title holding one `[Announcement]` and no other marker comes out as the title without it |
| Trends.Normalize | app.py:39 | the lower-cased, punctuation-free title holds no capital and no punctuation |
| Trends.NormalizeIdempotent | app.py:39 | normalising a normalised title changes nothing |
| Trends.TokensWellFormed | app.py:39-40 | every token is non-empty and holds no whitespace, no capital and no punctuation |
| Trends.TokenizeIdempotent | app.py:39-40 | tokenising the normalised title gives the same tokens as tokenising the title |
| Trends.TokensRoundTrip | app.py:39-40 | joining the tokens with single spaces and tokenising again gives the same tokens |
| Trends.Tokens | app.py:39-40 | the split of the normalised title; `TokensWellFormed`, `TokenizeIdempotent` and `TokensRoundTrip` state its properties |
| Trends.IsKeyword | app.py:28-41 | a token is kept when it is not one of the 67 stop words of `STOP_WORDS` and is longer than 3 |
| Trends.KeepKeywords | app.py:40-41 | the kept tokens in their order; `KeepKeywordsContents` states which and how often |
| Trends.Keywords | app.py:39-41 | the kept tokens of one title; `KeywordsContents` states which |
| Trends.KeepKeywordsContents | app.py:41 | the filter keeps each token that is not a stop word and is longer than 3, as often as it occurs; it keeps nothing else |
| Trends.KeywordsContents | app.py:39-41 | a word is contributed by a title exactly when it passes the filter and is one of the title's tokens |
| Trends.HotFeedUrl | app.py:17 | the hot-feed URL of a subreddit |
| Trends.TopWeekFeedUrl | app.py:17 | the top-of-the-week feed URL of a subreddit |
| Trends.FeedUrlsDistinct | app.py:17 | different subreddits give different URLs, and no hot-feed URL is a top-of-the-week URL |
| Trends.SubredditTitles | app.py:15-24 | the raw titles read for one subreddit: the hot feed's, then the top-week feed's only when the hot feed raised nothing, since one `try` covers both |
| Trends.CleanedSet | app.py:20-22 | the set of cleaned forms of some raw titles; `CleanedSetMembers` states its members |
| Trends.ScrapedTitles | app.py:14-24 | the title set after the scrape loop; `ScrapedTitlesMembers` states its members and `Scrape` is proved equal to it |
| Trends.CleanedSetMembers | app.py:20-22 | a title is in the set built from some raw titles exactly when it is the cleaned form of one of them |
| Trends.CleanedSetAppend | app.py:18-22 | reading two feeds one after the other adds the union of their cleaned title sets |
| Trends.ReadForSnoc | app.py:14-22 | a title comes from the subreddits plus one more exactly when it comes from the first ones or from the added one |
| Trends.ScrapedTitlesMembers | app.py:14-24 | a title is scraped exactly when it is the cleaned form of a raw title read for one of the subreddits |
| Trends.NoEntriesNoTitles | app.py:11-24 | when no feed read yields an entry, and in particular when there is no subreddit, the title set is empty |
| Trends.AddEntries | app.py:20-22 | the entry loop adds exactly the cleaned titles of the feed's entries to the set |
| Trends.Scrape | app.py:11-24 | the scrape loop builds exactly the scraped title set, with an exception in the hot feed skipping the top-week feed |
| Trends.WordsOf | app.py:37-42 | `words` after the loop has met some titles in order; `WordsOfMembers` states its members and `AddTokens` and `Analyze` are proved against it |
| Trends.WordsOfMembers | app.py:38-42 | a word is in `words` exactly when some title met so far contributes it |
| Trends.AddAllSnoc | app.py:42-44 | adding one more word for a title is one more append to that word's list |
| Trends.AppendLookup | app.py:43-44 | appending a title to the list of a word creates the key if absent and changes no other list |
| Trends.AddAll | app.py:42-44 | the index after the title is appended to the list of each kept token in turn; `AddAllContents` states the result |
| Trends.AddAllStepKeys | app.py:43 | after one more word, the keys are the old keys plus the words added |
| Trends.AddAllStep | app.py:44 | after one more word, each list is the old list plus the title once per occurrence of its word |
| Trends.RepeatContents | app.py:44 | a title appended `k` times occurs `k` times, and nothing else occurs |
| Trends.AddAllContents | app.py:42-44 | adding the words of one title appends the title to each word's list once per occurrence, and creates only those keys |
| Trends.IndexOf | app.py:37-44 | `word_to_titles` after the loop has met some titles in order; `IndexOfContents` states each list and `Analyze` is proved equal to it |
| Trends.IndexOfContents | app.py:37-44 | each word's list is as long as the word's count in `words`; it lists only titles that contributed the word; for distinct titles, each title appears as often as it contributed the word |
| Trends.IndexOfIndexedFrom | app.py:37-44 | for titles met in any order, the keys are keywords with non-empty lists, every listed title is a member of the set and has the key among its tokens, every keyword of every title is a key, and each title appears in the key's list as often as the key occurs among its kept tokens |
| Trends.RankedWordsAreKeys | app.py:42-46 | every ranked word is a key of `word_to_titles`, and its count is the length of its list |
| Trends.UnrankedKeysAreBehind | app.py:42-46 | a key missing from the ranking means the ranking is full and every ranked count is at least the key's list length |
| Trends.UnrankedKeys | app.py:42-46 | the same holds for every key missing from the ranking |
| Trends.MostCommonRankedFrom | app.py:42-46 | the ranking has at most `n` pairs; every ranked word is a key whose count is its list length and is at least 1; the words are distinct and the counts do not increase; and a key is left out only when the ranking is full of words at least as frequent |
| Trends.NoTitlesNoTrends | app.py:37-46 | with no title, both the index and the ranking are empty |
| Trends.AddWord | app.py:42-44 | one kept token is appended to `words`, and the title is appended to that token's list, which is created empty first if absent; every other list is left as it was |
| Trends.AddTokens | app.py:40-44 | the token loop appends exactly the kept tokens to `words`, and the title once per kept token to the token's list |
| Trends.Analyze | app.py:27-46 | the analysis loop meets every title once, in some order; it leaves `word_to_titles` and the ranking as specified for that order, and both satisfy the order-independent index and ranking facts |
| Trends.GetTrendsForGenre | app.py:10-46 | the result indexes and ranks the scraped title set. No key or ranked word is a stop word, and each is longer than 3. With no scraped title, both results are empty |
| Counting.FirstIndex | app.py:46 | the position of the first occurrence of a word |
| Counting.FirstOccurrenceUnique | app.py:46 | a word has only one first occurrence |
| Counting.Find | app.py:46 | the Counter entry for a word, or none when the word has no entry |
| Counting.CounterOf | app.py:46 | `Counter(words)` has one entry per distinct word, at the word's first occurrence, with its number of occurrences, in first-occurrence order |
| Counting.BestIndex | app.py:46 | the entry that outranks every other entry: a higher count, or an equal count and an earlier first occurrence |
| Counting.RemoveAt | app.py:46 | removing one entry keeps all the others |
| Counting.Largest | app.py:46 | the selection holds at most `n` entries in strictly decreasing rank; an entry is left out only when `n` entries are chosen, all ranked above it |
| Counting.MostCommon | app.py:46 | `most_common(n)` has at most `n` pairs; each pair is a word of `words` with its number of occurrences (at least 1); the words are distinct, in order of count with ties by first occurrence; and a word is left out only when `n` pairs are there, all ahead of it |
| Counting.CounterEntry | app.py:46 | each Counter entry carries its word's first occurrence and count |
| Counting.RankedEntries | app.py:46 | each ranked pair carries a word of `words` and that word's count |
| Counting.RankedInOrder | app.py:46 | the ranked pairs are distinct words in order of count, with ties by first occurrence |
| Counting.RankedMaximal | app.py:46 | a word missing from the ranking finds it full of words ahead of it |

## Left out

- The Streamlit page (app.py:1-7 and 48-80) is not modelled. This includes the page settings, the buttons, the columns and the display slices `[:5]` and `[:2]`. The page only presents the engine's results. The lookups `h_context[word]` and `r_context[word]` are safe because every ranked word is a key (`Trends.RankedWordsAreKeys`).
- Reading a feed (`feedparser.parse` and `entry.title`) is network I/O through a library. It is the parameter `fetch`. Which exceptions can occur, and when, is not modelled. A `Feed` only records the titles read before an exception and whether one happened.
- One `try` covers both URLs of a subreddit (app.py:15-24). So an exception while reading the hot feed skips the top-week feed, and titles added before the exception are kept. The model does the same.
- `app.py` has no supply-gap scorer, no result cache, no `totalItems` result, and no check that the subreddit list is non-empty. An empty list gives an empty title set, an empty ranking and an empty index.
- `fetch` is a function of the URL, so a subreddit listed twice is read identically both times, whereas `app.py` parses the feed again and may get different entries. The scraped set is a union, so a second read of the same entries adds nothing.
- Text.Lower: only the ASCII capitals A–Z are lowered, whereas Python's `str.lower` also lowers non-ASCII letters. Full Unicode case mapping is a large table and is not modelled.
- The order in which Python iterates a `set` is not modelled. `Analyze` accepts any order. The ranking's tie-break ("first occurrence in `words`") is therefore relative to the order actually taken, and `RankedFrom` states only facts that hold for every order.
- The insertion order of the keys of the `word_to_titles` dictionary is not modelled, because it is a Dafny `map`. The order of each word's title list is modelled.
- Counting.MostCommon: the model ranks by count with ties broken by first occurrence. That is what CPython's `most_common(n)` does through `heapq.nlargest`, whose stability is a property of the library, not of the language.
