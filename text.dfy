/** The Python string built-ins the trend engine relies on: `str.lower`
    (on ASCII letters), removal of `string.punctuation` with `str.translate`,
    `str.split()` without a separator, and `str.replace(marker, "")`. */
module Text {

  /** An ASCII capital letter; `str.lower` is modelled on these only. */
  predicate IsUpper(c: char) {
    'A' <= c <= 'Z'
  }

  function ToLower(c: char): (d: char)
    ensures !IsUpper(d)
    ensures IsUpper(c) ==> d as int == c as int + 32
    ensures !IsUpper(c) ==> d == c
  {
    if IsUpper(c) then (c as int + 32) as char else c
  }

  /** `s.lower()`: every capital letter becomes its small letter, every
      other character stays where it is. */
  function Lower(s: string): (r: string)
    ensures |r| == |s|
    ensures forall c :: c in r ==> !IsUpper(c)
    ensures forall i :: 0 <= i < |s| && IsUpper(s[i]) ==> r[i] as int == s[i] as int + 32
    ensures forall i :: 0 <= i < |s| && !IsUpper(s[i]) ==> r[i] == s[i]
  {
    seq(|s|, i requires 0 <= i < |s| => ToLower(s[i]))
  }

  /** One of the 32 characters of `string.punctuation`, the four ASCII
      ranges ! to /, : to @, [ to the backquote, and { to ~. */
  predicate IsPunctuation(c: char) {
    ('!' <= c <= '/') || (':' <= c <= '@') || ('[' <= c <= '`') || ('{' <= c <= '~')
  }

  /** `s.translate(str.maketrans('', '', string.punctuation))`: deletes every
      punctuation character and keeps every other one, as often as it occurs. */
  function StripPunctuation(s: string): (r: string)
    ensures forall c :: c in r ==> !IsPunctuation(c) && c in s
    decreases |s|
  {
    if s == [] then []
    else
      assert forall c :: c in s[1..] ==> c in s;
      (if IsPunctuation(s[0]) then [] else [s[0]]) + StripPunctuation(s[1..])
  }

  /** Stripping keeps every other character exactly as often as it occurs. */
  lemma {:induction false} StripPunctuationCounts(s: string)
    ensures forall c :: multiset(StripPunctuation(s))[c] == if IsPunctuation(c) then 0 else multiset(s)[c]
    decreases |s|
  {
    if s != [] {
      StripPunctuationCounts(s[1..]);
      assert s == [s[0]] + s[1..];
    }
  }

  /** Stripping changes a string exactly when it holds punctuation. */
  lemma {:induction false} StripPunctuationIdentity(s: string)
    ensures StripPunctuation(s) == s <==> forall c :: c in s ==> !IsPunctuation(c)
    decreases |s|
  {
    if s != [] && forall c :: c in s ==> !IsPunctuation(c) {
      assert s[0] in s;
      assert forall c :: c in s[1..] ==> c in s;
      StripPunctuationIdentity(s[1..]);
      assert s == [s[0]] + s[1..];
    }
  }

  /** Stripping works character by character, so the kept characters keep
      their order: together with the one-character case it fixes the
      result. */
  lemma {:induction false} StripPunctuationAppend(a: string, b: string)
    ensures StripPunctuation(a + b) == StripPunctuation(a) + StripPunctuation(b)
    decreases |a|
  {
    if a == [] {
      assert a + b == b;
    } else {
      assert (a + b)[0] == a[0] && (a + b)[1..] == a[1..] + b;
      StripPunctuationAppend(a[1..], b);
    }
  }

  /** A single character is deleted exactly when it is punctuation. */
  lemma StripPunctuationChar(c: char)
    ensures StripPunctuation([c]) == if IsPunctuation(c) then [] else [c]
  {
    assert [c][1..] == [];
  }

  /** A character on which `str.split()` splits: what `str.isspace` accepts. */
  predicate IsSpace(c: char) {
    ('\t' <= c <= '\r') || ('\U{1C}' <= c <= '\U{1F}') || c == ' ' || c == '\U{85}' || c == '\U{A0}'
    || c == '\U{1680}' || ('\U{2000}' <= c <= '\U{200A}') || c == '\U{2028}' || c == '\U{2029}'
    || c == '\U{202F}' || c == '\U{205F}' || c == '\U{3000}'
  }

  /** Splitting that has already gathered `word`, a run of non-space
      characters not yet emitted, and has `s` left to read. */
  function SplitFrom(s: string, word: string): (tokens: seq<string>)
    requires forall c :: c in word ==> !IsSpace(c)
    ensures forall t :: t in tokens ==> t != [] && forall c :: c in t ==> !IsSpace(c) && (c in word || c in s)
    decreases |s|
  {
    if s == [] then
      (if word == [] then [] else [word])
    else
      var rest := s[1..];
      assert forall c :: c in rest ==> c in s;
      if IsSpace(s[0]) then
        (if word == [] then [] else [word]) + SplitFrom(rest, [])
      else
        SplitFrom(rest, word + [s[0]])
  }

  /** `s.split()`: the maximal runs of non-space characters, in order. */
  function Split(s: string): (tokens: seq<string>)
    ensures forall t :: t in tokens ==> t != [] && forall c :: c in t ==> !IsSpace(c) && c in s
  {
    SplitFrom(s, [])
  }

  function Concat(tokens: seq<string>): (s: string)
    decreases |tokens|
  {
    if tokens == [] then [] else tokens[0] + Concat(tokens[1..])
  }

  function RemoveSpaces(s: string): (r: string)
    decreases |s|
  {
    if s == [] then [] else (if IsSpace(s[0]) then [] else [s[0]]) + RemoveSpaces(s[1..])
  }

  /** `" ".join(tokens)`. */
  function Join(tokens: seq<string>): (s: string)
    decreases |tokens|
  {
    if tokens == [] then []
    else if |tokens| == 1 then tokens[0]
    else tokens[0] + " " + Join(tokens[1..])
  }

  lemma {:induction false} ConcatAppend(a: seq<string>, b: seq<string>)
    ensures Concat(a + b) == Concat(a) + Concat(b)
    decreases |a|
  {
    if a != [] {
      assert (a + b)[0] == a[0] && (a + b)[1..] == a[1..] + b;
      ConcatAppend(a[1..], b);
      assert Concat(a + b) == a[0] + (Concat(a[1..]) + Concat(b));
    } else {
      assert a + b == b;
    }
  }

  lemma {:induction false} SplitFromKeepsText(s: string, word: string)
    requires forall c :: c in word ==> !IsSpace(c)
    ensures Concat(SplitFrom(s, word)) == word + RemoveSpaces(s)
    decreases |s|
  {
    if s == [] {
    } else if IsSpace(s[0]) {
      var head := if word == [] then [] else [word];
      SplitFromKeepsText(s[1..], []);
      ConcatAppend(head, SplitFrom(s[1..], []));
      assert Concat(head) == word;
    } else {
      SplitFromKeepsText(s[1..], word + [s[0]]);
    }
  }

  /** Splitting loses no character but the spaces, and keeps their order. */
  lemma SplitKeepsText(s: string)
    ensures Concat(Split(s)) == RemoveSpaces(s)
  {
    SplitFromKeepsText(s, []);
  }

  lemma {:induction false} SplitFromWord(w: string, rest: string, word: string)
    requires forall c :: c in word ==> !IsSpace(c)
    requires forall c :: c in w ==> !IsSpace(c)
    ensures SplitFrom(w + rest, word) == SplitFrom(rest, word + w)
    decreases |w|
  {
    if w != [] {
      assert (w + rest)[0] == w[0] && (w + rest)[1..] == w[1..] + rest;
      assert forall c :: c in w[1..] ==> c in w;
      SplitFromWord(w[1..], rest, word + [w[0]]);
      assert word + [w[0]] + w[1..] == word + w;
    } else {
      assert w + rest == rest && word + w == word;
    }
  }

  /** Splitting a space-joined list of non-empty, space-free words gives
      the words back. */
  lemma {:induction false} SplitJoin(tokens: seq<string>)
    requires forall t :: t in tokens ==> t != [] && forall c :: c in t ==> !IsSpace(c)
    ensures Split(Join(tokens)) == tokens
    decreases |tokens|
  {
    if |tokens| == 1 {
      assert tokens[0] in tokens;
      SplitFromWord(tokens[0], [], []);
      assert tokens[0] + [] == tokens[0] && [] + tokens[0] == tokens[0];
    } else if |tokens| > 1 {
      var rest := tokens[1..];
      assert forall t :: t in rest ==> t in tokens;
      assert tokens[0] in tokens;
      SplitJoin(rest);
      assert tokens[0] + " " + Join(rest) == tokens[0] + (" " + Join(rest));
      SplitFromWord(tokens[0], " " + Join(rest), []);
      assert (" " + Join(rest))[1..] == Join(rest);
      assert [] + tokens[0] == tokens[0];
      assert tokens == [tokens[0]] + rest;
    }
  }

  /** Every whitespace character ends the word gathered so far and starts
      a new one. */
  lemma {:induction false} SplitFromAtSpace(a: string, c: char, b: string, word: string)
    requires forall x :: x in word ==> !IsSpace(x)
    requires IsSpace(c)
    ensures SplitFrom(a + [c] + b, word) == SplitFrom(a, word) + SplitFrom(b, [])
    decreases |a|
  {
    var s := a + [c] + b;
    if a == [] {
      assert s[0] == c && s[1..] == b;
    } else {
      assert s[0] == a[0] && s[1..] == a[1..] + [c] + b;
      if IsSpace(a[0]) {
        SplitFromAtSpace(a[1..], c, b, []);
        var head := if word == [] then [] else [word];
        assert SplitFrom(s, word) == head + (SplitFrom(a[1..], []) + SplitFrom(b, []));
      } else {
        SplitFromAtSpace(a[1..], c, b, word + [a[0]]);
      }
    }
  }

  /** `split()` breaks at every whitespace character: the tokens of
      `a + [c] + b` are those of `a` followed by those of `b`. */
  lemma SplitAtSpace(a: string, c: char, b: string)
    requires IsSpace(c)
    ensures Split(a + [c] + b) == Split(a) + Split(b)
  {
    SplitFromAtSpace(a, c, b, []);
  }

  /** A non-empty run without whitespace is a single token; with
      `SplitAtSpace` and `Split([]) == []` this fixes every result. */
  lemma SplitWord(w: string)
    requires w != [] && forall c :: c in w ==> !IsSpace(c)
    ensures Split(w) == [w]
  {
    SplitFromWord(w, [], []);
    assert w + [] == w && [] + w == w;
  }

  /** An occurrence of `pat` in `s` starting at index `i`. */
  predicate MatchAt(s: string, pat: string, i: int) {
    0 <= i && i + |pat| <= |s| && s[i..i + |pat|] == pat
  }

  predicate Contains(s: string, pat: string) {
    exists i :: 0 <= i <= |s| - |pat| && MatchAt(s, pat, i)
  }

  /** `s.replace(pat, "")`: one scan from the left that deletes each
      non-overlapping occurrence of `pat`; what the deletions bring together
      is not scanned again. */
  function RemoveAll(s: string, pat: string): (r: string)
    requires pat != []
    ensures |r| <= |s|
    decreases |s|
  {
    if |s| < |pat| then s
    else if s[..|pat|] == pat then RemoveAll(s[|pat|..], pat)
    else [s[0]] + RemoveAll(s[1..], pat)
  }

  /** Past a position where `pat` does not start, `pat` occurs in `s`
      exactly when it occurs in the rest. */
  lemma ContainsTail(s: string, pat: string)
    requires pat != [] && |s| >= |pat| && s[..|pat|] != pat
    ensures Contains(s, pat) <==> Contains(s[1..], pat)
  {
    assert s[0..|pat|] == s[..|pat|];
    if Contains(s, pat) {
      var i :| 0 <= i <= |s| - |pat| && MatchAt(s, pat, i);
      assert i >= 1;
      assert s[1..][i - 1..i - 1 + |pat|] == s[i..i + |pat|];
      assert MatchAt(s[1..], pat, i - 1);
    }
    if Contains(s[1..], pat) {
      var i :| 0 <= i <= |s[1..]| - |pat| && MatchAt(s[1..], pat, i);
      assert s[1..][i..i + |pat|] == s[i + 1..i + 1 + |pat|];
      assert MatchAt(s, pat, i + 1);
    }
  }

  /** Removal leaves a string unchanged exactly when the pattern does not
      occur in it, and otherwise makes it strictly shorter. */
  lemma {:induction false} RemoveAllChanges(s: string, pat: string)
    requires pat != []
    ensures RemoveAll(s, pat) == s <==> !Contains(s, pat)
    ensures Contains(s, pat) <==> |RemoveAll(s, pat)| < |s|
    decreases |s|
  {
    if |s| < |pat| {
      assert !Contains(s, pat);
    } else if s[..|pat|] == pat {
      assert MatchAt(s, pat, 0);
    } else {
      RemoveAllChanges(s[1..], pat);
      ContainsTail(s, pat);
      assert s == [s[0]] + s[1..];
    }
  }

  /** An occurrence one position further into `s` is an occurrence in
      `s[1..]`. */
  lemma MatchShift(s: string, pat: string, i: nat)
    requires s != []
    ensures MatchAt(s[1..], pat, i) <==> MatchAt(s, pat, i + 1)
  {
    if i + |pat| <= |s[1..]| {
      assert s[1..][i..i + |pat|] == s[i + 1..i + 1 + |pat|];
    }
  }

  /** Where `pat` does not start at position 0, the first character is
      kept and the scan moves on by one. */
  lemma RemoveAllSkip(s: string, pat: string)
    requires pat != [] && |s| >= |pat| && !MatchAt(s, pat, 0)
    ensures RemoveAll(s, pat) == [s[0]] + RemoveAll(s[1..], pat)
  {
    assert s[0..|pat|] == s[..|pat|];
  }

  /** Removal deletes the leftmost occurrence and carries on after it:
      the text before it is kept and the rest is scanned on its own. */
  lemma {:induction false} RemoveAllLeftmost(a: string, pat: string, b: string)
    requires pat != []
    requires forall i :: 0 <= i < |a| ==> !MatchAt(a + pat + b, pat, i)
    ensures RemoveAll(a + pat + b, pat) == a + RemoveAll(b, pat)
    decreases |a|
  {
    var s := a + pat + b;
    if a == [] {
      assert s[..|pat|] == pat && s[|pat|..] == b;
    } else {
      var t := a[1..] + pat + b;
      assert s == [a[0]] + t;
      forall i | 0 <= i < |a[1..]|
        ensures !MatchAt(t, pat, i)
      {
        MatchShift(s, pat, i);
      }
      RemoveAllLeftmost(a[1..], pat, b);
      RemoveAllSkip(s, pat);
      assert s[1..] == t;
      assert a == [a[0]] + a[1..];
    }
  }

  /** A pattern whose first character does not recur in it cannot start
      inside a pattern-free text and run on into a copy of itself. */
  lemma NoMatchBefore(a: string, pat: string, b: string)
    requires pat != [] && forall k :: 1 <= k < |pat| ==> pat[k] != pat[0]
    requires !Contains(a, pat)
    ensures forall i :: 0 <= i < |a| ==> !MatchAt(a + pat + b, pat, i)
  {
    var s := a + pat + b;
    forall i | 0 <= i < |a|
      ensures !MatchAt(s, pat, i)
    {
      if i + |pat| <= |a| {
        assert a[i..i + |pat|] == s[i..i + |pat|];
        assert !MatchAt(a, pat, i);
      } else if i + |pat| <= |s| {
        var k := |a| - i;
        assert s[|a|] == pat[0];
        assert s[i..i + |pat|][k] != pat[k];
      }
    }
  }
}
