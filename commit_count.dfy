/**
 * Per-repository commit count for the year: when the response carries a
 * `Link` header whose text matches `&page=(\d+)>; rel="last"`, the count is
 * the number in the leftmost match (one commit per page); otherwise it is the
 * length of the response body's list. Responses are inputs.
 */
module CommitCount {
  import opened Wrappers

  const PagePrefix: string := "&page="
  const LastSuffix: string := ">; rel=\"last\""

  /** What is left of one commits response: its `Link` header, when present,
      and the length of the list in its body. */
  datatype Response = Response(link: Option<string>, bodyLength: nat)

  predicate IsDigit(ch: char)
  {
    '0' <= ch <= '9'
  }

  predicate AllDigits(ds: string)
  {
    forall j :: 0 <= j < |ds| ==> IsDigit(ds[j])
  }

  /** The length of the run of digits starting at `i`. */
  function DigitRun(s: string, i: nat): (k: nat)
    requires i <= |s|
    ensures i + k <= |s|
    decreases |s| - i
  {
    if i < |s| && IsDigit(s[i]) then 1 + DigitRun(s, i + 1) else 0
  }

  /** The run is all digits and maximal: what follows it is not a digit. */
  lemma {:induction false} DigitRunSpec(s: string, i: nat)
    requires i <= |s|
    ensures AllDigits(s[i..i + DigitRun(s, i)])
    ensures i + DigitRun(s, i) == |s| || !IsDigit(s[i + DigitRun(s, i)])
    decreases |s| - i
  {
    if i < |s| && IsDigit(s[i]) {
      DigitRunSpec(s, i + 1);
      var k := DigitRun(s, i + 1);
      assert s[i..i + 1 + k] == [s[i]] + s[i + 1..i + 1 + k];
    }
  }

  /** `int(...)` of a string of decimal digits. */
  function DecimalValue(ds: string): nat
    requires AllDigits(ds)
  {
    if ds == [] then 0
    else DecimalValue(ds[..|ds| - 1]) * 10 + (ds[|ds| - 1] as int - '0' as int)
  }

  predicate OccursAt(s: string, p: nat, w: string)
  {
    p + |w| <= |s| && s[p..p + |w|] == w
  }

  /** The pattern read directly: at `p` come the prefix, then `j >= 1`
      digits, then the suffix. */
  predicate PatternAt(s: string, p: nat, j: nat)
  {
    && OccursAt(s, p, PagePrefix)
    && 1 <= j && p + 6 + j <= |s| && AllDigits(s[p + 6..p + 6 + j])
    && OccursAt(s, p + 6 + j, LastSuffix)
  }

  /** The pattern matches at `p`; the digit group is then the maximal run. */
  predicate MatchAt(s: string, p: nat)
  {
    OccursAt(s, p, PagePrefix) && 1 <= DigitRun(s, p + 6) && OccursAt(s, p + 6 + DigitRun(s, p + 6), LastSuffix)
  }

  /** A digit run followed by a non-digit is the maximal run. */
  lemma {:induction false} DigitRunExact(s: string, i: nat, n: nat)
    requires i + n < |s| && AllDigits(s[i..i + n]) && !IsDigit(s[i + n])
    ensures DigitRun(s, i) == n
    decreases n
  {
    if n > 0 {
      assert s[i..i + n][0] == s[i];
      assert s[i + 1..i + n] == s[i..i + n][1..];
      DigitRunExact(s, i + 1, n - 1);
    }
  }

  /** Since the suffix starts with a non-digit, the pattern matches at `p` with
      `j` digits exactly when `j` is the maximal run there: the group of a
      match is determined by where it starts. */
  lemma PatternAtIsMaximal(s: string, p: nat, j: nat)
    ensures PatternAt(s, p, j) <==> MatchAt(s, p) && j == DigitRun(s, p + 6)
  {
    if PatternAt(s, p, j) {
      assert s[p + 6 + j] == s[p + 6 + j..p + 6 + j + |LastSuffix|][0] == '>';
      DigitRunExact(s, p + 6, j);
    }
    if OccursAt(s, p, PagePrefix) {
      DigitRunSpec(s, p + 6);
    }
  }

  /** The digits the match at `p` captures. */
  function Group(s: string, p: nat): (g: string)
    requires MatchAt(s, p)
    ensures 1 <= |g| && AllDigits(g)
  {
    DigitRunSpec(s, p + 6);
    s[p + 6..p + 6 + DigitRun(s, p + 6)]
  }

  /** `re.search` from position `from`: the first position where the pattern matches. */
  function SearchFrom(s: string, from: nat): (r: Option<nat>)
    ensures r.Some? ==> from <= r.value && MatchAt(s, r.value)
    decreases |s| - from
  {
    if from >= |s| then None
    else if MatchAt(s, from) then Some(from)
    else SearchFrom(s, from + 1)
  }

  /** The search finds the leftmost match, and finds one whenever there is one. */
  lemma {:induction false} SearchFromLeftmost(s: string, from: nat)
    ensures SearchFrom(s, from).Some? ==> forall q: nat :: from <= q < SearchFrom(s, from).value ==> !MatchAt(s, q)
    ensures SearchFrom(s, from).None? ==> forall q: nat :: from <= q ==> !MatchAt(s, q)
    decreases |s| - from
  {
    if from >= |s| {
      forall q: nat | from <= q ensures !MatchAt(s, q) {
        assert !OccursAt(s, q, PagePrefix);
      }
    } else if !MatchAt(s, from) {
      SearchFromLeftmost(s, from + 1);
    }
  }

  /** Conversely, a match with none before it is the one the search returns. */
  lemma {:induction false} SearchFindsFirst(s: string, from: nat, p: nat)
    requires from <= p && MatchAt(s, p)
    requires forall q: nat :: from <= q < p ==> !MatchAt(s, q)
    ensures SearchFrom(s, from) == Some(p)
    decreases p - from
  {
    if from < p {
      SearchFindsFirst(s, from + 1, p);
    }
  }

  /** The number in the `rel="last"` link, if the header has one. */
  function LastPage(link: string): Option<nat>
  {
    match SearchFrom(link, 0)
    case None => None
    case Some(p) => Some(DecimalValue(Group(link, p)))
  }

  /** The commits one response stands for. */
  function CommitsFor(r: Response): nat
  {
    match r.link
    case None => r.bodyLength
    case Some(h) => LastPage(h).GetOr(r.bodyLength)
  }

  function TotalCommits(responses: seq<Response>): nat
  {
    if responses == [] then 0
    else TotalCommits(responses[..|responses| - 1]) + CommitsFor(responses[|responses| - 1])
  }

  /** `count_commits_in_year`, given each repository's response. */
  method CountCommitsInYear(responses: seq<Response>) returns (total: nat)
    ensures total == TotalCommits(responses)
  {
    total := 0;
    for i := 0 to |responses|
      invariant total == TotalCommits(responses[..i])
    {
      assert responses[..i + 1][..i] == responses[..i];
      var resp := responses[i];
      if resp.link.Some? {
        var m := SearchFrom(resp.link.value, 0);
        total := total + if m.Some? then DecimalValue(Group(resp.link.value, m.value)) else resp.bodyLength;
      } else {
        total := total + resp.bodyLength;
      }
    }
    assert responses[..|responses|] == responses;
  }

  // ---------------------------------------------------------------------------
  // Properties

  /** The page number comes from the leftmost place the pattern occurs, and
      is the whole digit group there; no match means no page number. */
  lemma LastPageSpec(link: string)
    ensures LastPage(link).Some? <==> exists p: nat, j: nat :: PatternAt(link, p, j)
    ensures LastPage(link).Some? ==>
      exists p: nat, j: nat :: PatternAt(link, p, j) && LastPage(link).value == DecimalValue(link[p + 6..p + 6 + j])
        && forall q: nat, j': nat :: q < p ==> !PatternAt(link, q, j')
  {
    SearchFromLeftmost(link, 0);
    match SearchFrom(link, 0)
    case None =>
      forall p: nat, j: nat ensures !PatternAt(link, p, j) {
        PatternAtIsMaximal(link, p, j);
      }
    case Some(p) =>
      var j := DigitRun(link, p + 6);
      PatternAtIsMaximal(link, p, j);
      forall q: nat, j': nat | q < p ensures !PatternAt(link, q, j') {
        PatternAtIsMaximal(link, q, j');
      }
  }

  /** A header with no `>; rel="last"` in it falls back to the body length,
      and so does a response without a `Link` header. */
  lemma FallbackToBody(r: Response)
    requires r.link.Some? ==> forall q :: !OccursAt(r.link.value, q, LastSuffix)
    ensures CommitsFor(r) == r.bodyLength
  {
    if r.link.Some? {
      var h := r.link.value;
      if SearchFrom(h, 0).Some? {
        assert false;
      }
    }
  }

  /** Only where the text has an `&` can a match begin. */
  lemma MatchStartsWithAmpersand(s: string, p: nat)
    ensures p < |s| && s[p] != '&' ==> !MatchAt(s, p)
  {
    if MatchAt(s, p) {
      assert s[p..p + 6][0] == PagePrefix[0];
    }
  }

  // ---------------------------------------------------------------------------
  // Whether the pattern matches at a position depends only on the text from
  // there on, so a search can skip a front part in which nothing matches.

  lemma OccursShift(u: string, v: string, q: nat, w: string)
    ensures OccursAt(u + v, |u| + q, w) <==> OccursAt(v, q, w)
  {
    if q + |w| <= |v| {
      assert (u + v)[|u| + q..|u| + q + |w|] == v[q..q + |w|];
    }
  }

  lemma {:induction false} DigitRunShift(u: string, v: string, i: nat)
    requires i <= |v|
    ensures DigitRun(u + v, |u| + i) == DigitRun(v, i)
    decreases |v| - i
  {
    if i < |v| {
      assert (u + v)[|u| + i] == v[i];
      DigitRunShift(u, v, i + 1);
    }
  }

  lemma MatchShift(u: string, v: string, q: nat)
    ensures MatchAt(u + v, |u| + q) <==> MatchAt(v, q)
    ensures MatchAt(v, q) ==> Group(u + v, |u| + q) == Group(v, q)
  {
    OccursShift(u, v, q, PagePrefix);
    if OccursAt(v, q, PagePrefix) {
      var k := DigitRun(v, q + 6);
      DigitRunShift(u, v, q + 6);
      OccursShift(u, v, q + 6 + k, LastSuffix);
      if MatchAt(v, q) {
        GroupShift(u, v, q);
      }
    }
  }

  lemma GroupShift(u: string, v: string, q: nat)
    requires MatchAt(v, q)
    ensures DigitRun(u + v, |u| + q + 6) == DigitRun(v, q + 6)
    ensures MatchAt(u + v, |u| + q) ==> Group(u + v, |u| + q) == Group(v, q)
  {
    var k := DigitRun(v, q + 6);
    DigitRunShift(u, v, q + 6);
    assert (u + v)[|u| + q + 6..|u| + q + 6 + k] == v[q + 6..q + 6 + k];
  }

  lemma SearchShiftNone(u: string, v: string)
    requires forall q: nat :: q < |u| ==> !MatchAt(u + v, q)
    requires SearchFrom(v, 0).None?
    ensures SearchFrom(u + v, 0).None?
  {
    SearchFromLeftmost(v, 0);
    forall p: nat | |u| <= p ensures !MatchAt(u + v, p) {
      MatchShift(u, v, p - |u|);
    }
  }

  /** A leftmost match of `v` stays leftmost in `u + v` when `u` starts none. */
  lemma ShiftedMatchIsFirst(u: string, v: string, p: nat)
    requires forall q: nat :: q < |u| ==> !MatchAt(u + v, q)
    requires MatchAt(v, p) && forall q: nat :: q < p ==> !MatchAt(v, q)
    ensures MatchAt(u + v, |u| + p)
    ensures forall q: nat :: q < |u| + p ==> !MatchAt(u + v, q)
  {
    MatchShift(u, v, p);
    forall q: nat | |u| <= q < |u| + p ensures !MatchAt(u + v, q) {
      MatchShift(u, v, q - |u|);
    }
  }

  lemma SearchShiftSome(u: string, v: string, p: nat)
    requires forall q: nat :: q < |u| ==> !MatchAt(u + v, q)
    requires SearchFrom(v, 0) == Some(p)
    ensures SearchFrom(u + v, 0) == Some(|u| + p)
    ensures Group(u + v, |u| + p) == Group(v, p)
  {
    SearchFromLeftmost(v, 0);
    ShiftedMatchIsFirst(u, v, p);
    SearchFindsFirst(u + v, 0, |u| + p);
    GroupShift(u, v, p);
  }

  /** When nothing matches inside `u`, the page number of `u + v` is that of `v`. */
  lemma LastPageShift(u: string, v: string)
    requires forall q: nat :: q < |u| ==> !MatchAt(u + v, q)
    ensures LastPage(u + v) == LastPage(v)
  {
    match SearchFrom(v, 0)
    case None => SearchShiftNone(u, v);
    case Some(p) => SearchShiftSome(u, v, p);
  }

  /** A front part in which `&page=` does not occur, followed by text that
      starts with `&`, holds no match start: a match would need `&page=` to
      begin in the front part, and it cannot run into the `&` that follows,
      since `&page=` has no second `&`. */
  lemma NoPrefixNoMatch(u: string, v: string)
    requires forall q: nat :: !OccursAt(u, q, PagePrefix)
    requires |v| > 0 && v[0] == '&'
    ensures forall q: nat :: q < |u| ==> !MatchAt(u + v, q)
  {
    var s := u + v;
    forall q: nat | q < |u| ensures !OccursAt(s, q, PagePrefix) {
      if q + 6 <= |s| {
        if q + 6 <= |u| {
          assert s[q..q + 6] == u[q..q + 6];
          assert !OccursAt(u, q, PagePrefix);
        } else {
          var k := |u| - q;
          assert s[q..q + 6][k] == v[0];
          assert PagePrefix[k] != '&';
        }
      }
    }
  }

  /** Such a front part does not change the page number. */
  lemma SkipNoPrefix(u: string, v: string)
    requires forall q: nat :: !OccursAt(u, q, PagePrefix)
    requires |v| > 0 && v[0] == '&'
    ensures LastPage(u + v) == LastPage(v)
  {
    NoPrefixNoMatch(u, v);
    LastPageShift(u, v);
  }

  const NextSuffix: string := ">; rel=\"next\""

  /** The `rel="next"` and `rel="last"` entries of a `Link` header, without
      their URLs. */
  function NextLink(page: string): string
  {
    PagePrefix + page + NextSuffix
  }

  function LastLink(page: string): string
  {
    PagePrefix + page + LastSuffix
  }

  /** A header in GitHub's form: `a`, the `rel="next"` entry, `b`, the
      `rel="last"` entry, where `a` and `b` stand for the URLs and separators. */
  function TwoLinks(a: string, next: string, b: string, last: string): string
  {
    a + (NextLink(next) + (b + LastLink(last)))
  }

  /** At the `&` of a `rel="next"` entry the digits are followed by the
      other suffix. */
  lemma NextEntryNotLast(page: string, v: string)
    requires 1 <= |page| && AllDigits(page)
    ensures !MatchAt(NextLink(page) + v, 0)
  {
    var h := NextLink(page) + v;
    var n := |page|;
    assert h[6..6 + n] == page;
    assert h[6 + n] == NextSuffix[0];
    DigitRunExact(h, 6, n);
    assert h[6 + n..6 + n + 13] == NextSuffix;
    assert NextSuffix[8] != LastSuffix[8];
  }

  /** A `rel="next"` entry has no other `&`. */
  lemma NextEntryOneAmpersand(page: string, v: string)
    requires AllDigits(page)
    ensures forall q: nat :: 1 <= q < |NextLink(page)| ==> !MatchAt(NextLink(page) + v, q)
  {
    var h := NextLink(page) + v;
    var n := |page|;
    forall q: nat | 1 <= q < |NextLink(page)| ensures !MatchAt(h, q) {
      if q < 6 {
        assert h[q] == PagePrefix[q];
      } else if q < 6 + n {
        assert h[q] == page[q - 6];
        assert IsDigit(page[q - 6]);
      } else {
        assert h[q] == NextSuffix[q - 6 - n];
      }
      MatchStartsWithAmpersand(h, q);
    }
  }

  /** Nothing inside a `rel="next"` entry matches. */
  lemma NextLinkSkipped(page: string, v: string)
    requires 1 <= |page| && AllDigits(page)
    ensures forall q: nat :: q < |NextLink(page)| ==> !MatchAt(NextLink(page) + v, q)
  {
    NextEntryNotLast(page, v);
    NextEntryOneAmpersand(page, v);
  }

  /** Neither does a `rel="next"` entry in front. */
  lemma SkipNextLink(page: string, v: string)
    requires 1 <= |page| && AllDigits(page)
    ensures LastPage(NextLink(page) + v) == LastPage(v)
  {
    NextLinkSkipped(page, v);
    LastPageShift(NextLink(page), v);
  }

  /** A `rel="last"` entry matches at its start and captures its digits. */
  lemma LastLinkMatches(page: string)
    requires 1 <= |page| && AllDigits(page)
    ensures MatchAt(LastLink(page), 0) && Group(LastLink(page), 0) == page
  {
    var s := LastLink(page);
    var n := |page|;
    assert s[0..6] == PagePrefix;
    assert s[6..6 + n] == page;
    assert s[6 + n] == LastSuffix[0];
    DigitRunExact(s, 6, n);
    assert s[6 + n..6 + n + |LastSuffix|] == LastSuffix;
  }

  /** A lone `rel="last"` entry gives its page number. */
  lemma LastLinkPage(page: string)
    requires 1 <= |page| && AllDigits(page)
    ensures LastPage(LastLink(page)) == Some(DecimalValue(page))
  {
    LastLinkMatches(page);
    assert SearchFrom(LastLink(page), 0) == Some(0);
  }

  /** Given a header of that form in which `&page=` occurs only in the two
      entries, the commit count is the page number of the `rel="last"` entry. */
  lemma TwoLinksTakeLast(a: string, next: string, b: string, last: string)
    requires forall q: nat :: !OccursAt(a, q, PagePrefix)
    requires forall q: nat :: !OccursAt(b, q, PagePrefix)
    requires 1 <= |next| && AllDigits(next) && 1 <= |last| && AllDigits(last)
    ensures LastPage(TwoLinks(a, next, b, last)) == Some(DecimalValue(last))
  {
    var tail := b + LastLink(last);
    SkipNoPrefix(a, NextLink(next) + tail);
    SkipNextLink(next, tail);
    SkipNoPrefix(b, LastLink(last));
    LastLinkPage(last);
  }

  const PerPage: string := "&per_page=1"

  /** The URL of the request this program sends for a repository's commits,
      up to the page parameter the server appends: the query carries `since`
      and then `per_page=1`. */
  function QueryUrl(path: string, since: string): string
  {
    "<" + path + "?since=" + since + PerPage
  }

  /** `&page=` does not occur in such a URL when the path and the date have no
      `&`: its only `&` is followed by `per_page`. */
  lemma QueryUrlHasNoPage(front: string, path: string, since: string)
    requires '&' !in front && '&' !in path && '&' !in since
    ensures forall q: nat :: !OccursAt(front + QueryUrl(path, since), q, PagePrefix)
  {
    var x := front + "<" + path + "?since=" + since;
    var s := front + QueryUrl(path, since);
    assert s == x + PerPage;
    assert '&' !in x by {
      assert '&' !in "<" && '&' !in "?since=";
    }
    forall q: nat ensures !OccursAt(s, q, PagePrefix) {
      if q + 6 <= |s| {
        if q < |x| {
          assert s[q] == x[q] && x[q] in x;
          assert s[q..q + 6][0] == s[q];
        } else if q == |x| {
          assert s[q..q + 6][2] == PerPage[2];
        } else {
          assert s[q] == PerPage[q - |x|];
          assert s[q..q + 6][0] == s[q];
        }
      }
    }
  }

  /** The header GitHub answers that request with when the commits span
      several pages: the next page's URL, then the last page's URL. Its count
      is the last page number. */
  lemma QueryHeaderTakesLast(path: string, since: string, next: string, last: string)
    requires '&' !in path && '&' !in since
    requires 1 <= |next| && AllDigits(next) && 1 <= |last| && AllDigits(last)
    ensures LastPage(TwoLinks(QueryUrl(path, since), next, ", " + QueryUrl(path, since), last))
      == Some(DecimalValue(last))
  {
    var a := QueryUrl(path, since);
    QueryUrlHasNoPage("", path, since);
    assert "" + a == a;
    QueryUrlHasNoPage(", ", path, since);
    TwoLinksTakeLast(a, next, ", " + a, last);
  }

  /** An instance: with pages 2 (next) and 34 (last), the count is 34. */
  lemma TwoLinkHeader()
    ensures CommitsFor(Response(Some(TwoLinks(QueryUrl("https://h/c", "x"), "2",
                                              ", " + QueryUrl("https://h/c", "x"), "34")), 1)) == 34
  {
    QueryHeaderTakesLast("https://h/c", "x", "2", "34");
    assert DecimalValue("34") == 34 by {
      assert "34"[..1] == "3";
      assert "3"[..0] == "";
    }
  }

  /** The total is additive over the repositories: counting two groups of
      repositories one after the other gives the sum of their counts. */
  lemma {:induction false} TotalSplit(rs: seq<Response>, rs': seq<Response>)
    ensures TotalCommits(rs + rs') == TotalCommits(rs) + TotalCommits(rs')
    decreases |rs'|
  {
    if rs' != [] {
      var init := rs'[..|rs'| - 1];
      assert (rs + rs')[..|rs + rs'| - 1] == rs + init;
      TotalSplit(rs, init);
    } else {
      assert rs + rs' == rs;
    }
  }
}
