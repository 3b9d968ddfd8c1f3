/**
 * Trending hashtags. Every tweet's text is split on single spaces; each word
 * that starts with '#' is lower-cased and counted in a frequency map. The map's
 * entries are then sorted by count, highest first, ties broken by the tag in
 * ascending string order, and the first three (or fewer) entries form the
 * trending table.
 */
module Hashtags {
  import opened Sorting

  /** A tweet as the program records it: user id, tweet id, text and date. */
  datatype Tweet = Tweet(userId: string, tweetId: string, text: string, date: string)

  /** One row of the frequency table. */
  datatype Entry = Entry(tag: string, count: int)

  // ---------------------------------------------------------------------------
  // Splitting a text into words

  /** The pieces of s between single spaces, empty pieces included. */
  function Split(s: string): (words: seq<string>)
    ensures |words| >= 1
  {
    if s == [] then [[]]
    else
      var rest := Split(s[1..]);
      if s[0] == ' ' then [[]] + rest else [[s[0]] + rest[0]] + rest[1..]
  }

  /** The words glued back together with one space between neighbours. */
  function Join(words: seq<string>): string
    requires |words| >= 1
  {
    if |words| == 1 then words[0] else words[0] + " " + Join(words[1..])
  }

  /** No word holds a space. */
  predicate SpaceFree(words: seq<string>)
  {
    forall k :: 0 <= k < |words| ==> ' ' !in words[k]
  }

  /** Splitting then joining gives the text back, and no piece holds a space. */
  lemma {:induction false} JoinSplit(s: string)
    ensures Join(Split(s)) == s
    ensures SpaceFree(Split(s))
  {
    if s != [] {
      var rest := Split(s[1..]);
      JoinSplit(s[1..]);
      if s[0] == ' ' {
        assert Split(s)[1..] == rest;
      } else {
        var words := Split(s);
        assert words[1..] == rest[1..];
        if |rest| == 1 {
          assert s == [s[0]] + rest[0];
        } else {
          assert Join(rest) == rest[0] + " " + Join(rest[1..]);
          assert s == [s[0]] + s[1..];
        }
      }
    }
  }

  /** A space-free word glued in front of s becomes part of s's first piece. */
  lemma {:induction false} SplitAfterWord(w: string, s: string)
    requires ' ' !in w
    ensures Split(w + s) == [w + Split(s)[0]] + Split(s)[1..]
  {
    if w == [] {
      assert w + s == s && w + Split(s)[0] == Split(s)[0];
    } else {
      SplitAfterWord(w[1..], s);
      assert (w + s)[0] == w[0] != ' ';
      assert (w + s)[1..] == w[1..] + s;
      assert [w[0]] + (w[1..] + Split(s)[0]) == w + Split(s)[0];
    }
  }

  /** Joining space-free words then splitting gives the words back. */
  lemma {:induction false} SplitJoin(words: seq<string>)
    requires |words| >= 1 && SpaceFree(words)
    ensures Split(Join(words)) == words
  {
    if |words| == 1 {
      SplitAfterWord(words[0], []);
      assert words[0] + [] == words[0];
    } else {
      var rest := Join(words[1..]);
      assert SpaceFree(words[1..]) by {
        forall k | 0 <= k < |words[1..]|
          ensures ' ' !in words[1..][k]
        {
          assert words[1..][k] == words[k + 1];
        }
      }
      SplitJoin(words[1..]);
      assert ' ' !in words[0];
      assert Join(words) == words[0] + (" " + rest);
      SplitAfterWord(words[0], " " + rest);
      assert (" " + rest)[1..] == rest;
      assert Split(" " + rest) == [[]] + words[1..];
      assert words[0] + [] == words[0];
    }
  }

  /** The words with the empty ones at the end removed. */
  function DropTrailingEmpty(words: seq<string>): (r: seq<string>)
    ensures |r| <= |words| && r == words[..|r|]
    ensures forall k :: |r| <= k < |words| ==> words[k] == []
  {
    if words != [] && words[|words| - 1] == [] then DropTrailingEmpty(words[..|words| - 1])
    else words
  }

  /**
   * Java's String.split(" "): the text cut at every space, with the empty words at
   * the end dropped; an empty text gives the one empty word.
   */
  function JavaSplit(s: string): seq<string>
  {
    if s == [] then [s] else DropTrailingEmpty(Split(s))
  }

  // ---------------------------------------------------------------------------
  // Hashtags

  /** Java's toLowerCase on one character, for the ASCII letters. */
  function LowerChar(c: char): char
  {
    if 'A' <= c <= 'Z' then (c as int + 32) as char else c
  }

  function Lower(s: string): (r: string)
    ensures |r| == |s|
    ensures forall k :: 0 <= k < |s| ==> r[k] == LowerChar(s[k])
  {
    if s == [] then [] else [LowerChar(s[0])] + Lower(s[1..])
  }

  /** Lower-casing leaves no ASCII capital letter and changes nothing a second time. */
  lemma LowerIsLower(s: string)
    ensures forall k :: 0 <= k < |s| ==> !('A' <= Lower(s)[k] <= 'Z')
    ensures Lower(Lower(s)) == Lower(s)
  {
  }

  predicate IsHashtagWord(w: string)
  {
    |w| > 0 && w[0] == '#'
  }

  /** The hashtags among the words, lower-cased, in order. */
  function TagsIn(words: seq<string>): seq<string>
  {
    if words == [] then []
    else
      var w := words[|words| - 1];
      TagsIn(words[..|words| - 1]) + (if IsHashtagWord(w) then [Lower(w)] else [])
  }

  /** The hashtags of one tweet's text. */
  function TextTags(text: string): seq<string>
  {
    TagsIn(JavaSplit(text))
  }

  /** The hashtags of all tweets, tweet after tweet. */
  function AllTags(tweets: seq<Tweet>): seq<string>
  {
    if tweets == [] then []
    else AllTags(tweets[..|tweets| - 1]) + TextTags(tweets[|tweets| - 1].text)
  }

  /** A counted tag starts with '#', holds no space and no ASCII capital letter. */
  predicate WellFormedTag(t: string)
  {
    && IsHashtagWord(t)
    && ' ' !in t
    && forall k :: 0 <= k < |t| ==> !('A' <= t[k] <= 'Z')
  }

  lemma {:induction false} TagsInWellFormed(words: seq<string>)
    requires SpaceFree(words)
    ensures forall t :: t in TagsIn(words) ==> WellFormedTag(t)
  {
    if words != [] {
      var w := words[|words| - 1];
      assert SpaceFree(words[..|words| - 1]);
      TagsInWellFormed(words[..|words| - 1]);
      LowerIsLower(w);
      if IsHashtagWord(w) {
        assert ' ' !in w;
        assert forall k :: 0 <= k < |w| ==> Lower(w)[k] != ' ';
      }
    }
  }

  /** Every hashtag the program counts is well formed. */
  lemma {:induction false} AllTagsWellFormed(tweets: seq<Tweet>)
    ensures forall t :: t in AllTags(tweets) ==> WellFormedTag(t)
  {
    if tweets != [] {
      AllTagsWellFormed(tweets[..|tweets| - 1]);
      var s := tweets[|tweets| - 1].text;
      JoinSplit(s);
      var words := JavaSplit(s);
      assert SpaceFree(words);
      TagsInWellFormed(words);
    }
  }

  /** The empty words Java's split drops at the end hold no hashtag. */
  lemma {:induction false} DroppedWordsHoldNoTag(words: seq<string>)
    ensures TagsIn(DropTrailingEmpty(words)) == TagsIn(words)
  {
    if words != [] && words[|words| - 1] == [] {
      DroppedWordsHoldNoTag(words[..|words| - 1]);
    }
  }

  // ---------------------------------------------------------------------------
  // Counting

  /** How often t occurs in tags. */
  function Occurrences(tags: seq<string>, t: string): nat
  {
    if tags == [] then 0
    else Occurrences(tags[..|tags| - 1], t) + (if tags[|tags| - 1] == t then 1 else 0)
  }

  lemma {:induction false} OccursIffIn(tags: seq<string>, t: string)
    ensures Occurrences(tags, t) > 0 <==> t in tags
  {
    if tags != [] {
      var init := tags[..|tags| - 1];
      OccursIffIn(init, t);
      assert tags == init + [tags[|tags| - 1]];
    }
  }

  /** freq holds exactly the tags that occur, each with its number of occurrences. */
  ghost predicate Tallies(freq: map<string, int>, tags: seq<string>)
  {
    && (forall t :: t in freq <==> t in tags)
    && (forall t :: t in freq ==> freq[t] == Occurrences(tags, t))
  }

  /** The program's update `put(tag, getOrDefault(tag, 0) + 1)` tallies one more tag. */
  lemma TallyOneMore(freq: map<string, int>, tags: seq<string>, tag: string)
    requires Tallies(freq, tags)
    ensures Tallies(freq[tag := (if tag in freq then freq[tag] else 0) + 1], tags + [tag])
  {
    var tags' := tags + [tag];
    assert tags'[..|tags'| - 1] == tags;
    OccursIffIn(tags, tag);
  }

  /** Count the hashtags among one tweet's words into freq. */
  method CountWords(freq: map<string, int>, ghost before: seq<string>, words: seq<string>)
    returns (freq': map<string, int>)
    requires Tallies(freq, before)
    ensures Tallies(freq', before + TagsIn(words))
  {
    freq' := freq;
    assert before + TagsIn(words[..0]) == before;
    for j := 0 to |words|
      invariant Tallies(freq', before + TagsIn(words[..j]))
    {
      var word := words[j];
      assert words[..j + 1][..j] == words[..j];
      if IsHashtagWord(word) {
        var hashtag := Lower(word);
        TallyOneMore(freq', before + TagsIn(words[..j]), hashtag);
        freq' := freq'[hashtag := (if hashtag in freq' then freq'[hashtag] else 0) + 1];
        assert before + TagsIn(words[..j + 1]) == before + TagsIn(words[..j]) + [hashtag];
      } else {
        assert before + TagsIn(words[..j + 1]) == before + TagsIn(words[..j]);
      }
    }
    assert words[..|words|] == words;
  }

  /** Count the hashtags of every tweet, word by word. */
  method CountHashtags(tweets: seq<Tweet>) returns (freq: map<string, int>)
    ensures Tallies(freq, AllTags(tweets))
  {
    freq := map[];
    for i := 0 to |tweets|
      invariant Tallies(freq, AllTags(tweets[..i]))
    {
      var words := JavaSplit(tweets[i].text);
      freq := CountWords(freq, AllTags(tweets[..i]), words);
      assert tweets[..i + 1][..i] == tweets[..i];
    }
    assert tweets[..|tweets|] == tweets;
  }

  // ---------------------------------------------------------------------------
  // Ranking

  /** Java's String.compareTo(a, b) < 0: the first differing character decides, by code point, else the shorter. */
  predicate StringLess(a: string, b: string)
  {
    if a == [] then b != []
    else if b == [] then false
    else if a[0] != b[0] then a[0] < b[0]
    else StringLess(a[1..], b[1..])
  }

  lemma {:induction false} StringLessIrreflexive(a: string)
    ensures !StringLess(a, a)
  {
    if a != [] {
      StringLessIrreflexive(a[1..]);
    }
  }

  lemma {:induction false} StringLessAsymmetric(a: string, b: string)
    ensures StringLess(a, b) ==> !StringLess(b, a)
  {
    if a != [] && b != [] && a[0] == b[0] {
      StringLessAsymmetric(a[1..], b[1..]);
    }
  }

  lemma {:induction false} StringLessTransitive(a: string, b: string, c: string)
    requires StringLess(a, b) && StringLess(b, c)
    ensures StringLess(a, c)
  {
    if a != [] && a[0] == b[0] && b[0] == c[0] {
      StringLessTransitive(a[1..], b[1..], c[1..]);
    }
  }

  /** Two different strings are always ordered one way or the other. */
  lemma {:induction false} StringLessTotal(a: string, b: string)
    requires a != b
    ensures StringLess(a, b) || StringLess(b, a)
  {
    if a != [] && b != [] && a[0] == b[0] {
      assert a == [a[0]] + a[1..] && b == [b[0]] + b[1..];
      StringLessTotal(a[1..], b[1..]);
    }
  }

  /** The direction in which equal counts are ordered by tag. */
  datatype TagOrder = Ascending | Descending

  predicate TagFirst(a: string, b: string, order: TagOrder)
  {
    if order == Ascending then StringLess(a, b) else StringLess(b, a)
  }

  /** a comes before b in the table: a higher count, or the same count and the tag first. */
  predicate Before(a: Entry, b: Entry, order: TagOrder)
  {
    a.count > b.count || (a.count == b.count && TagFirst(a.tag, b.tag, order))
  }

  /** The comparator handed to the sort. */
  function ByRank(order: TagOrder): (Entry, Entry) -> bool
  {
    (a: Entry, b: Entry) => Before(a, b, order)
  }

  lemma BeforeIrreflexive(a: Entry, order: TagOrder)
    ensures !Before(a, a, order)
  {
    StringLessIrreflexive(a.tag);
  }

  lemma BeforeAsymmetric(a: Entry, b: Entry, order: TagOrder)
    ensures Before(a, b, order) ==> !Before(b, a, order)
  {
    StringLessAsymmetric(a.tag, b.tag);
  }

  lemma BeforeTotal(a: Entry, b: Entry, order: TagOrder)
    requires a.tag != b.tag
    ensures Before(a, b, order) || Before(b, a, order)
  {
    StringLessTotal(a.tag, b.tag);
  }

  /** Not coming before is transitive. */
  lemma NotBeforeTransitive(a: Entry, b: Entry, c: Entry, order: TagOrder)
    requires !Before(a, b, order) && !Before(b, c, order)
    ensures !Before(a, c, order)
  {
    if a.count == b.count == c.count {
      var x, y, z := a.tag, b.tag, c.tag;
      if order == Descending {
        x, z := z, x;
      }
      // Here !StringLess(x, y) and !StringLess(y, z); show !StringLess(x, z).
      if StringLess(x, z) {
        if y != x {
          StringLessTotal(x, y);
          if y != z {
            StringLessTotal(y, z);
            StringLessTransitive(z, y, x);
          }
        }
        StringLessAsymmetric(x, z);
      }
    }
  }

  lemma ByRankIsStrictWeakOrder(order: TagOrder)
    ensures StrictWeakOrder(ByRank(order))
  {
    var lt := ByRank(order);
    forall x, y
      ensures lt(x, y) ==> !lt(y, x)
    {
      BeforeAsymmetric(x, y, order);
    }
    forall x, y, z | !lt(x, y) && !lt(y, z)
      ensures !lt(x, z)
    {
      NotBeforeTransitive(x, y, z, order);
    }
  }

  /** Some entry of s carries the tag t. */
  predicate Listed(s: seq<Entry>, t: string)
  {
    exists i :: 0 <= i < |s| && s[i].tag == t
  }

  /**
   * top is the head of the table for freq: its rows are entries of freq, in table
   * order, and every entry of freq left out comes after all of them.
   */
  ghost predicate Ranks(freq: map<string, int>, top: seq<Entry>, order: TagOrder)
  {
    && (forall i :: 0 <= i < |top| ==> top[i].tag in freq && top[i].count == freq[top[i].tag])
    && (forall i, j :: 0 <= i < j < |top| ==> Before(top[i], top[j], order))
    && (forall t, i :: t in freq && !Listed(top, t) && 0 <= i < |top| ==> Before(top[i], Entry(t, freq[t]), order))
  }

  /** The head of the table is determined by its length: there is only one. */
  lemma RanksUnique(freq: map<string, int>, s1: seq<Entry>, s2: seq<Entry>, order: TagOrder)
    requires Ranks(freq, s1, order) && Ranks(freq, s2, order) && |s1| == |s2|
    ensures s1 == s2
  {
    forall i | 0 <= i < |s1|
      ensures s1[i] == s2[i]
    {
      RanksAgreeAt(freq, s1, s2, order, i);
    }
  }

  lemma {:induction false} RanksAgreeAt(freq: map<string, int>, s1: seq<Entry>, s2: seq<Entry>, order: TagOrder, i: nat)
    requires Ranks(freq, s1, order) && Ranks(freq, s2, order) && |s1| == |s2| && i < |s1|
    ensures s1[i] == s2[i]
    decreases i
  {
    forall j | 0 <= j < i
      ensures s1[j] == s2[j]
    {
      RanksAgreeAt(freq, s1, s2, order, j);
    }
    var a, b := s1[i], s2[i];
    if a.tag != b.tag {
      RankedAfter(freq, s1, s2, order, i);
      RankedAfter(freq, s2, s1, order, i);
      BeforeAsymmetric(a, b, order);
    }
  }

  /** When two heads agree before i and differ in tag at i, s2[i] comes before s1[i]. */
  lemma RankedAfter(freq: map<string, int>, s1: seq<Entry>, s2: seq<Entry>, order: TagOrder, i: nat)
    requires Ranks(freq, s1, order) && Ranks(freq, s2, order) && |s1| == |s2| && i < |s1|
    requires forall j :: 0 <= j < i ==> s1[j] == s2[j]
    requires s1[i].tag != s2[i].tag
    ensures Before(s2[i], s1[i], order)
  {
    var a := s1[i];
    if Listed(s2, a.tag) {
      var j :| 0 <= j < |s2| && s2[j].tag == a.tag;
      assert s2[j] == a;
      if j < i {
        assert s1[j] == a;
        assert Before(s1[j], s1[i], order);
        BeforeIrreflexive(a, order);
      }
    } else {
      assert a == Entry(a.tag, freq[a.tag]);
    }
  }

  // ---------------------------------------------------------------------------
  // Listing the map's entries and taking the top three

  /** s lists the entries of freq, each exactly once, in some order. */
  ghost predicate Lists(freq: map<string, int>, s: seq<Entry>)
  {
    forall e :: multiset(s)[e] == (if e.tag in freq && e.count == freq[e.tag] then 1 else 0)
  }

  /**
   * `new ArrayList<>(freq.entrySet())`: the entries in the map's iteration order,
   * which the program does not fix and neither does the model.
   */
  method EntriesOf(freq: map<string, int>) returns (entries: seq<Entry>)
    ensures Lists(freq, entries) && |entries| == |freq|
  {
    entries := [];
    var rest := freq.Keys;
    while rest != {}
      invariant rest <= freq.Keys && |entries| + |rest| == |freq|
      invariant forall e :: multiset(entries)[e] == (if e.tag in freq && e.tag !in rest && e.count == freq[e.tag] then 1 else 0)
      decreases rest
    {
      var t :| t in rest;
      entries := entries + [Entry(t, freq[t])];
      rest := rest - {t};
    }
  }

  /** Two positions of a list of entries hold different entries. */
  lemma ListedOnce(freq: map<string, int>, s: seq<Entry>, p: nat, q: nat)
    requires Lists(freq, s) && p < q < |s|
    ensures s[p] != s[q]
  {
    var x := s[p];
    assert s == s[..q] + s[q..];
    assert multiset(s[..q])[x] >= 1 by {
      assert s[..q][p] == x;
    }
    assert s[q..][0] == s[q];
    assert multiset(s)[x] == multiset(s[..q])[x] + multiset(s[q..])[x];
  }

  /** Sorting a list of the entries by rank puts the table's head in front. */
  lemma SortedListRanks(freq: map<string, int>, s: seq<Entry>, order: TagOrder, k: nat)
    requires Lists(freq, s) && Sorted(s, ByRank(order)) && k <= |s|
    ensures Ranks(freq, s[..k], order)
  {
    forall i | 0 <= i < |s|
      ensures s[i].tag in freq && s[i].count == freq[s[i].tag]
    {
      assert s[i] in multiset(s);
    }
    forall i, j | 0 <= i < j < |s|
      ensures Before(s[i], s[j], order)
    {
      ListedOnce(freq, s, i, j);
      assert !ByRank(order)(s[j], s[i]);
      BeforeTotal(s[i], s[j], order);
    }
    var top := s[..k];
    forall t, i | t in freq && !Listed(top, t) && 0 <= i < |top|
      ensures Before(top[i], Entry(t, freq[t]), order)
    {
      var e := Entry(t, freq[t]);
      assert e in multiset(s);
      var q :| 0 <= q < |s| && s[q] == e;
    }
  }

  /**
   * Sort the entries by count, highest first, then by tag, and keep the first
   * min(3, number of tags) of them.
   */
  method TopThree(freq: map<string, int>, order: TagOrder) returns (top: seq<Entry>)
    ensures |top| == if |freq| < 3 then |freq| else 3
    ensures Ranks(freq, top, order)
  {
    var entries := EntriesOf(freq);
    var sorted := new Entry[|entries|](i requires 0 <= i < |entries| => entries[i]);
    assert sorted[..] == entries;
    InsertionSort(sorted, ByRank(order));
    SortPermutes(entries, ByRank(order));
    ByRankIsStrictWeakOrder(order);
    SortSorts(entries, ByRank(order));
    var k := if sorted.Length < 3 then sorted.Length else 3;
    top := sorted[..k];
    SortedListRanks(freq, sorted[..], order, k);
  }

  /** The program: count the hashtags of all tweets, then rank them with ties in ascending tag order. */
  method TrendingHashtags(tweets: seq<Tweet>) returns (freq: map<string, int>, top: seq<Entry>)
    ensures Tallies(freq, AllTags(tweets))
    ensures |top| == (if |freq| < 3 then |freq| else 3) && Ranks(freq, top, Ascending)
  {
    freq := CountHashtags(tweets);
    top := TopThree(freq, Ascending);
  }

  // ---------------------------------------------------------------------------
  // The statement of the exercise: February 2024 only, ties in descending tag order

  /** The tweets dated in the month `month` ("2024-02"), in order. */
  function InMonth(tweets: seq<Tweet>, month: string): (r: seq<Tweet>)
    ensures forall k :: 0 <= k < |r| ==> month <= r[k].date
    ensures forall t :: t in tweets && month <= t.date ==> t in r
    ensures forall t :: t in r ==> t in tweets
  {
    if tweets == [] then []
    else
      var last := tweets[|tweets| - 1];
      InMonth(tweets[..|tweets| - 1], month) + (if month <= last.date then [last] else [])
  }

  /** The table the exercise asks for: February 2024 only, ties in descending tag order. */
  method TrendingInFebruary(tweets: seq<Tweet>) returns (freq: map<string, int>, top: seq<Entry>)
    ensures Tallies(freq, AllTags(InMonth(tweets, "2024-02")))
    ensures |top| == (if |freq| < 3 then |freq| else 3) && Ranks(freq, top, Descending)
  {
    freq := CountHashtags(InMonth(tweets, "2024-02"));
    top := TopThree(freq, Descending);
  }

  /** A tweet from another month changes nothing in the February count. */
  lemma OtherMonthIgnored(tweets: seq<Tweet>, t: Tweet)
    requires !("2024-02" <= t.date)
    ensures AllTags(InMonth(tweets + [t], "2024-02")) == AllTags(InMonth(tweets, "2024-02"))
  {
    var all := tweets + [t];
    assert all[..|all| - 1] == tweets && all[|all| - 1] == t;
    var kept := InMonth(tweets, "2024-02");
    assert kept + [] == kept;
    assert InMonth(all, "2024-02") == kept;
  }

  /** The program counts a tweet dated in March 2024, the exercise does not. */
  lemma MarchTweetCounted()
    ensures AllTags([Tweet("1", "1", "#a", "2024-03-01")]) == ["#a"]
    ensures AllTags(InMonth([Tweet("1", "1", "#a", "2024-03-01")], "2024-02")) == []
  {
    var text := "#a";
    var tweets := [Tweet("1", "1", text, "2024-03-01")];
    assert ' ' !in text by {
      assert text[0] == '#' && text[1] == 'a';
    }
    SplitJoin([text]);
    assert JavaSplit(text) == [text];
    var lower := Lower(text);
    assert lower[0] == '#' && lower[1] == 'a';
    assert lower == text;
    assert TagsIn([text]) == TagsIn([]) + [lower];
    assert tweets[..0] == [];
    assert AllTags(tweets) == AllTags([]) + TextTags(text);
    assert !("2024-02" <= "2024-03-01") by {
      assert "2024-03-01"[6] == '3';
    }
    assert InMonth(tweets, "2024-02") == InMonth([], "2024-02") + [];
  }

  // ---------------------------------------------------------------------------
  // The recorded run

  /** The lower-cased hashtags of the seven sample tweets, two per tweet, in order. */
  const SampleTags: seq<string> :=
    ["#happyday", "#morningvibes"] + ["#happyday", "#feelgood"] + ["#worklife", "#productiveday"] +
    ["#techlife", "#innovation"] + ["#happyday", "#thankful"] + ["#techlife", "#futuretech"] +
    ["#nature", "#peaceful"]

  function Indicator(b: bool): nat
  {
    if b then 1 else 0
  }

  lemma {:induction false} OccurrencesAppend(a: seq<string>, b: seq<string>, t: string)
    ensures Occurrences(a + b, t) == Occurrences(a, t) + Occurrences(b, t)
  {
    if b == [] {
      assert a + b == a;
    } else {
      var b' := b[..|b| - 1];
      assert (a + b)[..|a + b| - 1] == a + b';
      assert (a + b)[|a + b| - 1] == b[|b| - 1];
      OccurrencesAppend(a, b', t);
    }
  }

  lemma OccurrencesPair(x: string, y: string, t: string)
    ensures Occurrences([x, y], t) == Indicator(x == t) + Indicator(y == t)
  {
    assert [x, y][..1] == [x] && [x][..0] == [];
    assert Occurrences([x], t) == Indicator(x == t);
  }

  /** How often t occurs in the sample: three times #happyday, twice #techlife, once the others. */
  function SampleCount(t: string): nat
  {
    3 * Indicator(t == "#happyday") + 2 * Indicator(t == "#techlife") +
    Indicator(t == "#morningvibes") + Indicator(t == "#feelgood") + Indicator(t == "#worklife") +
    Indicator(t == "#productiveday") + Indicator(t == "#innovation") + Indicator(t == "#thankful") +
    Indicator(t == "#futuretech") + Indicator(t == "#nature") + Indicator(t == "#peaceful")
  }

  lemma SampleOccurrences(t: string)
    ensures Occurrences(SampleTags, t) == SampleCount(t)
  {
    var p1, p2, p3 := ["#happyday", "#morningvibes"], ["#happyday", "#feelgood"], ["#worklife", "#productiveday"];
    var p4, p5, p6, p7 := ["#techlife", "#innovation"], ["#happyday", "#thankful"], ["#techlife", "#futuretech"],
      ["#nature", "#peaceful"];
    OccurrencesPair("#happyday", "#morningvibes", t);
    OccurrencesPair("#happyday", "#feelgood", t);
    OccurrencesPair("#worklife", "#productiveday", t);
    OccurrencesPair("#techlife", "#innovation", t);
    OccurrencesPair("#happyday", "#thankful", t);
    OccurrencesPair("#techlife", "#futuretech", t);
    OccurrencesPair("#nature", "#peaceful", t);
    OccurrencesAppend(p1, p2, t);
    OccurrencesAppend(p1 + p2, p3, t);
    OccurrencesAppend(p1 + p2 + p3, p4, t);
    OccurrencesAppend(p1 + p2 + p3 + p4, p5, t);
    OccurrencesAppend(p1 + p2 + p3 + p4 + p5, p6, t);
    OccurrencesAppend(p1 + p2 + p3 + p4 + p5 + p6, p7, t);
  }

  /** a comes before b in string order when they share their first k characters and a's next one is smaller. */
  lemma {:induction false} StringLessAt(a: string, b: string, k: nat)
    requires k < |a| && k < |b| && a[..k] == b[..k] && a[k] < b[k]
    ensures StringLess(a, b)
  {
    if k > 0 {
      assert a[0] == a[..k][0] == b[..k][0] == b[0];
      assert a[1..][..k - 1] == a[1..k] == b[1..k] == b[1..][..k - 1];
      StringLessAt(a[1..], b[1..], k - 1);
    }
  }

  /** Every sample tag but the three of the table occurs once and comes after #feelgood. */
  lemma AfterFeelgood(t: string)
    requires SampleCount(t) > 0 && t != "#happyday" && t != "#techlife" && t != "#feelgood"
    ensures SampleCount(t) == 1 && StringLess("#feelgood", t)
  {
    if t == "#futuretech" {
      StringLessAt("#feelgood", t, 2);
    } else {
      StringLessAt("#feelgood", t, 1);
    }
  }

  /** Every sample tag but the three of the intended table occurs once and comes before #worklife. */
  lemma BeforeWorklife(t: string)
    requires SampleCount(t) > 0 && t != "#happyday" && t != "#techlife" && t != "#worklife"
    ensures SampleCount(t) == 1 && StringLess(t, "#worklife")
  {
    StringLessAt(t, "#worklife", 1);
  }

  /**
   * A map in which a occurs three times, b twice, c once, and every other tag once
   * and after c, has a, b, c as its three-row table.
   */
  lemma TopOfCounts(freq: map<string, int>, top: seq<Entry>, order: TagOrder, a: string, b: string, c: string)
    requires Ranks(freq, top, order) && |top| == 3
    requires a in freq && freq[a] == 3 && b in freq && freq[b] == 2 && c in freq && freq[c] == 1
    requires forall t :: t in freq && t != a && t != b && t != c ==> freq[t] == 1 && TagFirst(c, t, order)
    ensures top == [Entry(a, 3), Entry(b, 2), Entry(c, 1)]
  {
    var table := [Entry(a, 3), Entry(b, 2), Entry(c, 1)];
    forall t, i | t in freq && !Listed(table, t) && 0 <= i < 3
      ensures Before(table[i], Entry(t, freq[t]), order)
    {
      assert table[0].tag != t && table[1].tag != t && table[2].tag != t;
    }
    RanksUnique(freq, top, table, order);
  }

  /** The sample's count of a tag. */
  lemma SampleTally(freq: map<string, int>, t: string)
    requires Tallies(freq, SampleTags)
    ensures t in freq <==> SampleCount(t) > 0
    ensures t in freq ==> freq[t] == SampleCount(t)
  {
    SampleOccurrences(t);
    OccursIffIn(SampleTags, t);
  }

  /** As written, the sample's table is #happyday 3, #techlife 2, #feelgood 1. */
  lemma RecordedOutput(freq: map<string, int>, top: seq<Entry>)
    requires Tallies(freq, SampleTags) && |top| == 3 && Ranks(freq, top, Ascending)
    ensures top == [Entry("#happyday", 3), Entry("#techlife", 2), Entry("#feelgood", 1)]
  {
    SampleTally(freq, "#happyday");
    SampleTally(freq, "#techlife");
    SampleTally(freq, "#feelgood");
    forall t | t in freq && t != "#happyday" && t != "#techlife" && t != "#feelgood"
      ensures freq[t] == 1 && TagFirst("#feelgood", t, Ascending)
    {
      SampleTally(freq, t);
      AfterFeelgood(t);
    }
    TopOfCounts(freq, top, Ascending, "#happyday", "#techlife", "#feelgood");
  }

  /** In the order the exercise asks for, the sample's table is #happyday 3, #techlife 2, #worklife 1. */
  lemma IntendedOutput(freq: map<string, int>, top: seq<Entry>)
    requires Tallies(freq, SampleTags) && |top| == 3 && Ranks(freq, top, Descending)
    ensures top == [Entry("#happyday", 3), Entry("#techlife", 2), Entry("#worklife", 1)]
  {
    SampleTally(freq, "#happyday");
    SampleTally(freq, "#techlife");
    SampleTally(freq, "#worklife");
    forall t | t in freq && t != "#happyday" && t != "#techlife" && t != "#worklife"
      ensures freq[t] == 1 && TagFirst("#worklife", t, Descending)
    {
      SampleTally(freq, t);
      BeforeWorklife(t);
    }
    TopOfCounts(freq, top, Descending, "#happyday", "#techlife", "#worklife");
  }
}
