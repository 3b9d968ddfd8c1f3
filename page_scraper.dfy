/**
 * The page-scraping helpers of the crawler's task: the title of an HTML page
 * (the trimmed text between the first "<title>" and the first "</title>") and
 * the absolute links of a page (every value of an href="..." attribute that
 * starts with "http"). Both are plain scans of the page text with Java's
 * String.indexOf, substring and trim.
 */
module PageScraper {
  import opened Wrappers

  // ---------------------------------------------------------------------------
  // Java's string primitives

  /** pat occurs in s starting at i. */
  predicate OccursAt(s: string, pat: string, i: int)
  {
    0 <= i && i + |pat| <= |s| && s[i..i + |pat|] == pat
  }

  /**
   * Java's s.indexOf(pat, from): the first position at or after `from` (a negative
   * `from` counts as 0) where pat occurs, or -1 when there is none.
   */
  function IndexOf(s: string, pat: string, from: int): (r: int)
    ensures r == -1 || (r >= from && r >= 0 && OccursAt(s, pat, r))
    decreases if from < 0 then |s| + 1 else |s| - from
  {
    if from < 0 then IndexOf(s, pat, 0)
    else if from + |pat| > |s| then -1
    else if OccursAt(s, pat, from) then from
    else IndexOf(s, pat, from + 1)
  }

  /** What indexOf finds is the first occurrence: none lies between `from` and it, or after `from` at all when it finds none. */
  lemma {:induction false} IndexOfIsFirst(s: string, pat: string, from: int, i: int)
    requires i >= from && OccursAt(s, pat, i)
    ensures IndexOf(s, pat, from) != -1 && IndexOf(s, pat, from) <= i
    decreases if from < 0 then |s| + 1 else |s| - from
  {
    if from < 0 {
      IndexOfIsFirst(s, pat, 0, i);
    } else if from + |pat| <= |s| && s[from..from + |pat|] != pat {
      assert i != from;
      IndexOfIsFirst(s, pat, from + 1, i);
    }
  }

  /** A character Java's trim removes: any code point up to the space. */
  predicate Blank(c: char)
  {
    c <= ' '
  }

  /** The first index at or after st that holds no blank, or |s|: Java's first trim loop. */
  function SkipLeading(s: string, st: nat): (r: nat)
    requires st <= |s|
    ensures st <= r <= |s| && (r == |s| || !Blank(s[r]))
    ensures forall k :: st <= k < r ==> Blank(s[k])
    decreases |s| - st
  {
    if st < |s| && Blank(s[st]) then SkipLeading(s, st + 1) else st
  }

  /** The end left once the blanks before len and after st are dropped: Java's second trim loop. */
  function SkipTrailing(s: string, st: nat, len: nat): (r: nat)
    requires st <= len <= |s|
    ensures st <= r <= len && (r == st || !Blank(s[r - 1]))
    ensures forall k :: r <= k < len ==> Blank(s[k])
    decreases len
  {
    if st < len && Blank(s[len - 1]) then SkipTrailing(s, st, len - 1) else len
  }

  /** Java's s.trim(): s without its leading and trailing blanks. */
  function Trim(s: string): string
  {
    var st := SkipLeading(s, 0);
    s[st..SkipTrailing(s, st, |s|)]
  }

  /** Trim keeps one slice of s, drops only blanks around it, and the slice neither starts nor ends blank. */
  lemma {:induction false} TrimIsSlice(s: string) returns (i: nat, j: nat)
    ensures i <= j <= |s| && Trim(s) == s[i..j]
    ensures forall k :: 0 <= k < i ==> Blank(s[k])
    ensures forall k :: j <= k < |s| ==> Blank(s[k])
    ensures Trim(s) == [] || (!Blank(Trim(s)[0]) && !Blank(Trim(s)[|Trim(s)| - 1]))
  {
    i := SkipLeading(s, 0);
    j := SkipTrailing(s, i, |s|);
  }

  /** Trimming twice is trimming once. */
  lemma {:induction false} TrimIdempotent(s: string)
    ensures Trim(Trim(s)) == Trim(s)
  {
    var r := Trim(s);
    var i, j := TrimIsSlice(s);
    if r != [] {
      assert SkipLeading(r, 0) == 0;
      assert SkipTrailing(r, 0, |r|) == |r|;
    }
  }

  // ---------------------------------------------------------------------------
  // The title

  const Open: string := "<title>"
  const Close: string := "</title>"
  const NoTitle: string := "No Title"

  /**
   * The page title: "No Title" when either tag is missing; otherwise the trimmed
   * text between the end of the first "<title>" and the first "</title>", where
   * substring throws when that "</title>" begins before the end of "<title>".
   */
  function ExtractTitle(content: string): (r: Result<string>)
    ensures IndexOf(content, Open, 0) == -1 || IndexOf(content, Close, 0) == -1 ==> r == Success(NoTitle)
    ensures r.Failure? ==> r.error == IndexOutOfBounds
  {
    var titleStart := IndexOf(content, Open, 0);
    var titleEnd := IndexOf(content, Close, 0);
    if titleStart != -1 && titleEnd != -1 then
      if titleStart + 7 <= titleEnd then Success(Trim(content[titleStart + 7..titleEnd]))
      else Failure(IndexOutOfBounds)
    else Success(NoTitle)
  }

  /** "</title>" cannot begin inside "<title>": none of its characters after the first is '<'. */
  lemma {:induction false} CloseNotInsideOpen(content: string, o: nat, c: nat)
    requires OccursAt(content, Open, o) && OccursAt(content, Close, c)
    ensures c < o || c >= o + 7
  {
    assert content[c] == Close[0] == '<' && content[c + 1] == Close[1] == '/';
    assert content[o + 1] == Open[1] == 't';
    forall k | o < k < o + 7
      ensures content[k] != '<'
    {
      assert content[k] == Open[k - o];
    }
  }

  /** The title lookup throws exactly when the first "</title>" comes before the first "<title>". */
  lemma {:induction false} TitleFailsIffCloseFirst(content: string)
    ensures ExtractTitle(content).Failure? <==>
      (IndexOf(content, Open, 0) != -1 && IndexOf(content, Close, 0) != -1 &&
       IndexOf(content, Close, 0) < IndexOf(content, Open, 0))
  {
    var o, c := IndexOf(content, Open, 0), IndexOf(content, Close, 0);
    if o != -1 && c != -1 {
      CloseNotInsideOpen(content, o, c);
    }
  }

  /** A slice of a slice is a slice of the whole. */
  lemma {:induction false} SliceOfSlice(s: string, a: nat, b: nat, x: nat, y: nat)
    requires a <= b <= |s| && x <= y <= b - a
    ensures s[a..b][x..y] == s[a + x..a + y]
  {
    var u, v := s[a..b][x..y], s[a + x..a + y];
    assert |u| == |v|;
    forall k | 0 <= k < |u|
      ensures u[k] == v[k]
    {
      assert u[k] == s[a..b][x + k] == s[a + x + k];
    }
  }

  /** A slice that ends at or before the first occurrence of pat holds no pat. */
  lemma {:induction false} NoneBeforeFirst(s: string, pat: string, i: nat, j: nat, t: string)
    requires |pat| > 0 && i <= j <= |s| && IndexOf(s, pat, 0) != -1 && j <= IndexOf(s, pat, 0)
    requires t == s[i..j]
    ensures forall k :: !OccursAt(t, pat, k)
  {
    forall k | OccursAt(t, pat, k)
      ensures false
    {
      SliceOfSlice(s, i, j, k, k + |pat|);
      assert s[i + k..i + k + |pat|] == pat;
      IndexOfIsFirst(s, pat, 0, i + k);
    }
  }

  /**
   * A found title is a slice of the text between the two tags with only blanks
   * cut around it, neither starts nor ends blank, and holds no "</title>".
   */
  lemma {:induction false} TitleBetweenTags(content: string)
    requires IndexOf(content, Open, 0) != -1 && IndexOf(content, Close, 0) != -1
    requires ExtractTitle(content).Success?
    ensures var o, c, t := IndexOf(content, Open, 0), IndexOf(content, Close, 0), ExtractTitle(content).value;
      var body := content[o + 7..c];
      exists i, j ::
        && 0 <= i <= j <= |body| && t == body[i..j]
        && (forall k :: 0 <= k < i ==> Blank(body[k]))
        && (forall k :: j <= k < |body| ==> Blank(body[k]))
    ensures var t := ExtractTitle(content).value;
      (t == [] || (!Blank(t[0]) && !Blank(t[|t| - 1]))) && forall k :: !OccursAt(t, Close, k)
  {
    var o, c, t := IndexOf(content, Open, 0), IndexOf(content, Close, 0), ExtractTitle(content).value;
    var body := content[o + 7..c];
    assert t == Trim(body);
    var i, j := TrimIsSlice(body);
    SliceOfSlice(content, o + 7, c, i, j);
    assert t == content[o + 7 + i..o + 7 + j] && o + 7 + j <= c;
    NoneBeforeFirst(content, Close, o + 7 + i, o + 7 + j, t);
  }

  // ---------------------------------------------------------------------------
  // The links

  const Href: string := "href=\""
  const Quote: string := "\""

  /** A link worth following: an absolute URL starting with "http". */
  predicate IsAbsolute(url: string)
  {
    "http" <= url
  }

  /** The state of the link scan: where the last closing quote was found, and the links so far. */
  datatype Scan = Scan(hrefEnd: int, urls: set<string>)

  /**
   * One pass of the scan loop: find the next href=" at or after hrefEnd and the
   * quote closing its value, and keep that value when it is absolute. None when
   * the loop's condition finds no further href=". A missing closing quote leaves
   * hrefEnd at -1, from where the next search starts over at the beginning.
   */
  function Step(content: string, s: Scan): Option<Scan>
  {
    var start := IndexOf(content, Href, s.hrefEnd);
    if start == -1 then None
    else
      var end := IndexOf(content, Quote, start + 6);
      if end == -1 then Some(Scan(-1, s.urls))
      else
        var url := content[start + 6..end];
        Some(Scan(end, if IsAbsolute(url) then s.urls + {url} else s.urls))
  }

  /** The loop body as a function value, so that the reasoning about passes does not look inside it. */
  function Loop(content: string): Scan -> Option<Scan>
  {
    (s: Scan) => Step(content, s)
  }

  /** The state after k passes of a loop with body `step`, or None when the loop has ended before. */
  function Iterate(step: Scan -> Option<Scan>, s: Scan, k: nat): Option<Scan>
    decreases k
  {
    if k == 0 then Some(s)
    else
      match step(s)
      case None => None
      case Some(t) => Iterate(step, t, k - 1)
  }

  /** The scan's initial state: hrefEnd is 0 and no link has been found. */
  const Start: Scan := Scan(0, {})

  /** The loop ends, after some number of passes, with exactly the links urls. */
  ghost predicate HaltsWith(content: string, urls: set<string>)
  {
    exists k: nat, e: int :: Iterate(Loop(content), Start, k) == Some(Scan(e, urls)) && Step(content, Scan(e, urls)).None?
  }

  /** The loop never ends: every number of passes leaves it running. */
  ghost predicate RunsForever(content: string)
  {
    forall k: nat :: Iterate(Loop(content), Start, k).Some?
  }

  lemma {:induction false} IterateSnoc(step: Scan -> Option<Scan>, s: Scan, k: nat)
    ensures Iterate(step, s, k + 1) ==
      match Iterate(step, s, k)
      case None => None
      case Some(t) => step(t)
    decreases k
  {
    if k > 0 {
      match step(s)
      case None =>
      case Some(t) => IterateSnoc(step, t, k - 1);
    }
  }

  lemma {:induction false} IterateAdd(step: Scan -> Option<Scan>, s: Scan, a: nat, b: nat)
    ensures Iterate(step, s, a + b) ==
      match Iterate(step, s, a)
      case None => None
      case Some(t) => Iterate(step, t, b)
    decreases a
  {
    if a > 0 {
      match step(s)
      case None =>
      case Some(t) => IterateAdd(step, t, a - 1, b);
    }
  }

  /** A loop that has ended stays ended: it cannot halt in two different states. */
  lemma {:induction false} HaltsOnlyOnce(step: Scan -> Option<Scan>, s: Scan, k1: nat, t1: Scan, k2: nat, t2: Scan)
    requires Iterate(step, s, k1) == Some(t1) && step(t1).None?
    requires Iterate(step, s, k2) == Some(t2) && step(t2).None?
    ensures k1 == k2 && t1 == t2
  {
    if k1 < k2 {
      IterateSnoc(step, s, k1);
      IterateAdd(step, s, k1 + 1, k2 - k1 - 1);
    } else if k2 < k1 {
      IterateSnoc(step, s, k2);
      IterateAdd(step, s, k2 + 1, k1 - k2 - 1);
    }
  }

  /** The links the loop halts with are one set, not several. */
  lemma {:induction false} HaltsOnce(content: string, u1: set<string>, u2: set<string>)
    requires HaltsWith(content, u1) && HaltsWith(content, u2)
    ensures u1 == u2
  {
    var k1: nat, e1 :| Iterate(Loop(content), Start, k1) == Some(Scan(e1, u1)) && Step(content, Scan(e1, u1)).None?;
    var k2: nat, e2 :| Iterate(Loop(content), Start, k2) == Some(Scan(e2, u2)) && Step(content, Scan(e2, u2)).None?;
    HaltsOnlyOnce(Loop(content), Start, k1, Scan(e1, u1), k2, Scan(e2, u2));
  }

  /** A state the loop comes back to after p >= 1 passes keeps it running forever. */
  lemma {:induction false} CycleRunsForever(step: Scan -> Option<Scan>, c: Scan, p: nat, k: nat)
    requires p >= 1 && Iterate(step, c, p) == Some(c)
    ensures Iterate(step, c, k).Some?
    decreases k
  {
    if k >= p {
      IterateAdd(step, c, p, k - p);
      CycleRunsForever(step, c, p, k - p);
    } else {
      IterateAdd(step, c, k, p - k);
    }
  }

  /** A loop that reaches a state it comes back to runs forever. */
  lemma {:induction false} ReachedCycleRunsForever(step: Scan -> Option<Scan>, s: Scan, n: nat, c: Scan, p: nat)
    requires Iterate(step, s, n) == Some(c) && p >= 1 && Iterate(step, c, p) == Some(c)
    ensures forall k: nat :: Iterate(step, s, k).Some?
  {
    forall k: nat
      ensures Iterate(step, s, k).Some?
    {
      if k <= n {
        IterateAdd(step, s, k, n - k);
      } else {
        IterateAdd(step, s, n, k - n);
        CycleRunsForever(step, c, p, k - n);
      }
    }
  }

  /** The links found from position `from` on, and whether every href=" met there was closed. */
  datatype Outcome = Outcome(urls: set<string>, closed: bool)

  function ScanFrom(content: string, from: nat): Outcome
    decreases |content| - from
  {
    var start := IndexOf(content, Href, from);
    if start == -1 then Outcome({}, true)
    else
      var end := IndexOf(content, Quote, start + 6);
      if end == -1 then Outcome({}, false)
      else
        var url := content[start + 6..end];
        var rest := ScanFrom(content, end);
        Outcome((if IsAbsolute(url) then {url} else {}) + rest.urls, rest.closed)
  }

  /** The quote closing an href=" found at or after `from` lies after `from` and within the page. */
  lemma {:induction false} ClosingQuoteAfter(content: string, from: int, start: int, end: int)
    requires start == IndexOf(content, Href, from) && start != -1
    requires end == IndexOf(content, Quote, start + 6) && end != -1
    ensures from < start + 6 <= end < |content|
  {
  }

  /** Scanning from a closed href=" is that link followed by the scan from its closing quote. */
  lemma {:induction false} ScanFromUnfold(content: string, from: nat, start: int, end: nat, url: string)
    requires start == IndexOf(content, Href, from) && start != -1
    requires end == IndexOf(content, Quote, start + 6) && end != -1
    requires start + 6 <= end <= |content| && url == content[start + 6..end]
    ensures ScanFrom(content, from).urls == (if IsAbsolute(url) then {url} else {}) + ScanFrom(content, end).urls
    ensures ScanFrom(content, from).closed == ScanFrom(content, end).closed
  {
  }


  /**
   * From a position whose scan meets an unclosed href=", the loop reaches hrefEnd
   * -1 after some passes, having added exactly the links met on the way.
   */
  lemma {:induction false} ScanReachesRestart(content: string, from: nat, urls: set<string>)
    requires !ScanFrom(content, from).closed
    ensures exists p: nat :: p >= 1 && Iterate(Loop(content), Scan(from, urls), p) == Some(Scan(-1, urls + ScanFrom(content, from).urls))
    decreases |content| - from
  {
    var step := Loop(content);
    var start := IndexOf(content, Href, from);
    var end := IndexOf(content, Quote, start + 6);
    assert step(Scan(from, urls)) == Step(content, Scan(from, urls));
    if end == -1 {
      assert step(Scan(from, urls)) == Some(Scan(-1, urls));
      assert Iterate(step, Scan(from, urls), 1) == Iterate(step, Scan(-1, urls), 0);
      assert urls + ScanFrom(content, from).urls == urls;
    } else {
      var url := content[start + 6..end];
      var urls' := if IsAbsolute(url) then urls + {url} else urls;
      assert step(Scan(from, urls)) == Some(Scan(end, urls'));
      ScanReachesRestart(content, end, urls');
      var p: nat :| p >= 1 && Iterate(step, Scan(end, urls'), p) == Some(Scan(-1, urls' + ScanFrom(content, end).urls));
      assert Iterate(step, Scan(from, urls), p + 1) == Iterate(step, Scan(end, urls'), p);
      assert urls' + ScanFrom(content, end).urls == urls + ScanFrom(content, from).urls;
    }
  }

  /** A pass from hrefEnd -1 is a pass from the start of the page. */
  lemma StepRestart(content: string, urls: set<string>)
    ensures Step(content, Scan(-1, urls)) == Step(content, Scan(0, urls))
  {
    assert IndexOf(content, Href, -1) == IndexOf(content, Href, 0);
  }

  /**
   * Restarting from -1 searches from the beginning again: with the links already
   * collected on the first pass, the loop comes back to hrefEnd -1 with the same
   * links, so it never ends.
   */
  lemma {:induction false} RestartRunsForever(content: string, n: nat, urls: set<string>)
    requires !ScanFrom(content, 0).closed && urls == ScanFrom(content, 0).urls
    requires Iterate(Loop(content), Start, n) == Some(Scan(-1, urls))
    ensures RunsForever(content)
  {
    var step := Loop(content);
    var c := Scan(-1, urls);
    ScanReachesRestart(content, 0, urls);
    var p: nat :| p >= 1 && Iterate(step, Scan(0, urls), p) == Some(Scan(-1, urls + urls));
    assert urls + urls == urls;
    StepRestart(content, urls);
    assert step(c) == step(Scan(0, urls));
    assert Iterate(step, c, p) == Iterate(step, Scan(0, urls), p);
    ReachedCycleRunsForever(step, Start, n, c, p);
  }

  /** The value of the href=" at s: the text up to the next quote. */
  ghost predicate HrefValue(content: string, url: string)
  {
    exists s :: OccursAt(content, Href, s) && IndexOf(content, Quote, s + 6) == s + 6 + |url|
      && content[s + 6..s + 6 + |url|] == url
  }

  /** A link the scan keeps: absolute, quote-free, and the value of some href=" of the page. */
  ghost predicate Link(content: string, url: string)
  {
    IsAbsolute(url) && '"' !in url && HrefValue(content, url)
  }

  /** The text between an href=" and the quote closing it is a link of the page when it is absolute. */
  lemma {:induction false} ClosedHrefIsLink(content: string, start: int, end: int)
    requires start >= 0 && OccursAt(content, Href, start)
    requires end == IndexOf(content, Quote, start + 6) && end != -1
    requires IsAbsolute(content[start + 6..end])
    ensures Link(content, content[start + 6..end])
  {
    var url := content[start + 6..end];
    UpToQuote(content, start + 6, end);
    assert IndexOf(content, Quote, start + 6) == start + 6 + |url|;
  }

  /** One pass of the loop over an href=" whose value is closed. */
  lemma {:induction false} PassFound(content: string, from: int, urls: set<string>, start: int, end: int)
    requires start == IndexOf(content, Href, from) && start != -1
    requires end == IndexOf(content, Quote, start + 6) && end != -1
    ensures start + 6 <= end
    ensures var url := content[start + 6..end];
      Loop(content)(Scan(from, urls)) == Some(Scan(end, if IsAbsolute(url) then urls + {url} else urls))
  {
  }

  /**
   * A pass over a closed href=" keeps the loop's bookkeeping: the state after one
   * more pass, and the links still to come from the new hrefEnd on.
   */
  lemma {:induction false} PassKeeps(content: string, n: nat, from: nat, urls: set<string>, start: int, end: int)
    requires Iterate(Loop(content), Start, n) == Some(Scan(from, urls))
    requires ScanFrom(content, 0) == Outcome(urls + ScanFrom(content, from).urls, ScanFrom(content, from).closed)
    requires start == IndexOf(content, Href, from) && start != -1
    requires end == IndexOf(content, Quote, start + 6) && end != -1
    ensures from < start + 6 <= end < |content|
    ensures var url := content[start + 6..end];
      var urls' := if IsAbsolute(url) then urls + {url} else urls;
      && Iterate(Loop(content), Start, n + 1) == Some(Scan(end, urls'))
      && ScanFrom(content, 0) == Outcome(urls' + ScanFrom(content, end).urls, ScanFrom(content, end).closed)
  {
    ClosingQuoteAfter(content, from, start, end);
    PassFound(content, from, urls, start, end);
    ScanFromUnfold(content, from, start, end, content[start + 6..end]);
    IterateSnoc(Loop(content), Start, n);
  }

  /** A pass over an href=" with no closing quote leaves the loop running forever. */
  lemma {:induction false} PassUnclosed(content: string, n: nat, from: nat, urls: set<string>, start: int)
    requires Iterate(Loop(content), Start, n) == Some(Scan(from, urls))
    requires ScanFrom(content, 0) == Outcome(urls + ScanFrom(content, from).urls, ScanFrom(content, from).closed)
    requires start == IndexOf(content, Href, from) && start != -1
    requires IndexOf(content, Quote, start + 6) == -1
    ensures RunsForever(content)
  {
    IterateSnoc(Loop(content), Start, n);
    assert Loop(content)(Scan(from, urls)) == Step(content, Scan(from, urls)) == Some(Scan(-1, urls));
    assert ScanFrom(content, from) == Outcome({}, false);
    RestartRunsForever(content, n + 1, urls);
  }

  /** When no href=" is left, the loop ends with the links it has. */
  lemma {:induction false} NoneLeftHalts(content: string, n: nat, from: int, urls: set<string>)
    requires Iterate(Loop(content), Start, n) == Some(Scan(from, urls))
    requires IndexOf(content, Href, from) == -1
    ensures HaltsWith(content, urls)
  {
    assert Step(content, Scan(from, urls)).None?;
  }

  /** The text up to the first quote after a position holds no quote. */
  lemma {:induction false} UpToQuote(content: string, from: int, end: int)
    requires 0 <= from <= end && IndexOf(content, Quote, from) == end
    ensures '"' !in content[from..end]
  {
    forall k | from <= k < end
      ensures content[k] != '"'
    {
      if content[k] == '"' {
        assert content[k..k + 1] == Quote;
        IndexOfIsFirst(content, Quote, from, k);
      }
    }
  }

  /**
   * Collect the absolute links of the page. Where the program loops forever on an
   * href=" with no closing quote, the model ends in NonTermination.
   */
  method ExtractUrls(content: string) returns (res: Result<set<string>>)
    ensures res.Success? ==> HaltsWith(content, res.value)
    ensures res.Success? ==> forall url :: url in res.value ==> Link(content, url)
    ensures res.Failure? ==> res.error == NonTermination && RunsForever(content)
  {
    var urls: set<string> := {};
    var hrefEnd := 0;
    ghost var n: nat := 0;
    var hrefStart := IndexOf(content, Href, hrefEnd);
    while hrefStart != -1
      invariant 0 <= hrefEnd <= |content|
      invariant hrefStart == IndexOf(content, Href, hrefEnd)
      invariant Iterate(Loop(content), Start, n) == Some(Scan(hrefEnd, urls))
      invariant ScanFrom(content, 0) == Outcome(urls + ScanFrom(content, hrefEnd).urls, ScanFrom(content, hrefEnd).closed)
      invariant forall url :: url in urls ==> Link(content, url)
      decreases |content| - hrefEnd
    {
      var closing := IndexOf(content, Quote, hrefStart + 6);
      if closing == -1 {
        PassUnclosed(content, n, hrefEnd, urls, hrefStart);
        return Failure(NonTermination);
      }
      PassKeeps(content, n, hrefEnd, urls, hrefStart, closing);
      var newUrl := content[hrefStart + 6..closing];
      if IsAbsolute(newUrl) {
        assert OccursAt(content, Href, hrefStart);
        ClosedHrefIsLink(content, hrefStart, closing);
        urls := urls + {newUrl};
      }
      hrefEnd := closing;
      n := n + 1;
      hrefStart := IndexOf(content, Href, hrefEnd);
    }
    NoneLeftHalts(content, n, hrefEnd, urls);
    return Success(urls);
  }

  /** The page `href="x` has an href=" whose value is never closed: the loop never ends on it. */
  lemma UnclosedHrefLoops()
    ensures RunsForever("href=\"x")
  {
    var content := "href=\"x";
    assert OccursAt(content, Href, 0) by {
      assert content[0..6] == Href;
    }
    assert IndexOf(content, Href, 0) == 0;
    assert !OccursAt(content, Quote, 6) by {
      assert content[6] == 'x';
    }
    assert IndexOf(content, Quote, 6) == -1 by {
      assert IndexOf(content, Quote, 7) == -1;
    }
    assert Iterate(Loop(content), Start, 0) == Some(Scan(0, {}));
    PassUnclosed(content, 0, 0, {}, 0);
  }

  /** Stopping at an unclosed href=" keeps exactly the links met before it, where the program goes round again. */
  lemma {:induction false} StopAtUnclosed(content: string, n: nat, from: nat, urls: set<string>, start: int)
    requires Iterate(Loop(content), Start, n) == Some(Scan(from, urls))
    requires ScanFrom(content, 0) == Outcome(urls + ScanFrom(content, from).urls, ScanFrom(content, from).closed)
    requires start == IndexOf(content, Href, from) && start != -1
    requires IndexOf(content, Quote, start + 6) == -1
    ensures urls == ScanFrom(content, 0).urls && !ScanFrom(content, 0).closed && RunsForever(content)
  {
    PassUnclosed(content, n, from, urls, start);
    assert ScanFrom(content, from) == Outcome({}, false);
    assert urls + {} == urls;
  }

  /** With no href=" left, the links collected are all the page's, and the program's loop ends with them. */
  lemma {:induction false} StopAtEnd(content: string, n: nat, from: int, urls: set<string>)
    requires from >= 0
    requires Iterate(Loop(content), Start, n) == Some(Scan(from, urls))
    requires ScanFrom(content, 0) == Outcome(urls + ScanFrom(content, from).urls, ScanFrom(content, from).closed)
    requires IndexOf(content, Href, from) == -1
    ensures urls == ScanFrom(content, 0).urls && ScanFrom(content, 0).closed && HaltsWith(content, urls)
  {
    NoneLeftHalts(content, n, from, urls);
    assert ScanFrom(content, from) == Outcome({}, true);
    assert urls + {} == urls;
  }

  /**
   * The scan as evidently meant: an href=" without a closing quote ends it, with the
   * links found before. Wherever the program's loop ends, it ends with these links;
   * where it does not, this is where it would have gone round again.
   */
  method ExtractUrlsStopping(content: string) returns (urls: set<string>)
    ensures urls == ScanFrom(content, 0).urls
    ensures forall url :: url in urls ==> Link(content, url)
    ensures ScanFrom(content, 0).closed ==> HaltsWith(content, urls)
    ensures !ScanFrom(content, 0).closed ==> RunsForever(content)
  {
    urls := {};
    var hrefEnd := 0;
    ghost var n: nat := 0;
    var hrefStart := IndexOf(content, Href, hrefEnd);
    while hrefStart != -1
      invariant 0 <= hrefEnd <= |content|
      invariant hrefStart == IndexOf(content, Href, hrefEnd)
      invariant Iterate(Loop(content), Start, n) == Some(Scan(hrefEnd, urls))
      invariant ScanFrom(content, 0) == Outcome(urls + ScanFrom(content, hrefEnd).urls, ScanFrom(content, hrefEnd).closed)
      invariant forall url :: url in urls ==> Link(content, url)
      decreases |content| - hrefEnd
    {
      var closing := IndexOf(content, Quote, hrefStart + 6);
      if closing == -1 {
        StopAtUnclosed(content, n, hrefEnd, urls, hrefStart);
        return;
      }
      PassKeeps(content, n, hrefEnd, urls, hrefStart, closing);
      var newUrl := content[hrefStart + 6..closing];
      if IsAbsolute(newUrl) {
        assert OccursAt(content, Href, hrefStart);
        ClosedHrefIsLink(content, hrefStart, closing);
        urls := urls + {newUrl};
      }
      hrefEnd := closing;
      n := n + 1;
      hrefStart := IndexOf(content, Href, hrefEnd);
    }
    StopAtEnd(content, n, hrefEnd, urls);
  }

  /** A page with no href=" has no links, and the loop ends at once. */
  lemma {:induction false} NoHrefNoLinks(content: string)
    requires IndexOf(content, Href, 0) == -1
    ensures HaltsWith(content, {})
    ensures forall urls :: HaltsWith(content, urls) ==> urls == {}
  {
    assert Iterate(Loop(content), Start, 0) == Some(Start);
    forall urls | HaltsWith(content, urls)
      ensures urls == {}
    {
      HaltsOnce(content, urls, {});
    }
  }
}
