/** `fetch_product_hunt_data`: the GraphQL `posts` query asked page by page, and the top
    posts by votes among everything fetched. The HTTP exchange is replaced by the sequence
    of responses the API gives, one per request. */
module Fetcher {
  import opened Results
  import opened BeijingTime
  import opened Products
  import Text

  /** How many posts the script keeps, and the accumulated count at which it stops asking. */
  const TopCount := 30

  /** One page of the `posts` connection: its nodes and its `pageInfo`. */
  datatype Page = Page(nodes: seq<RawPost>, hasNextPage: bool, endCursor: string)

  /** What a request brings back: a page, or a `requests` exception (a connection error or
      an HTTP error status after the retries). */
  datatype Response = Answered(page: Page) | RequestFailed

  /** Why `fetch_product_hunt_data` raises: a failed request, or a post whose creation time
      does not convert while the products are built. */
  datatype FetchError = RequestError | BadTimestamp(error: TimeError)

  // ----- the page loop -----

  /** The first `k` requests were answered. */
  predicate AllAnswered(responses: seq<Response>, k: nat) {
    k <= |responses| && forall j :: 0 <= j < k ==> responses[j].Answered?
  }

  /** `all_posts` after the first `k` pages: their nodes one page after the other. */
  function Fetched(responses: seq<Response>, k: nat): seq<RawPost>
    requires AllAnswered(responses, k)
  {
    if k == 0 then [] else Fetched(responses, k - 1) + responses[k - 1].page.nodes
  }

  /** `has_next_page` after the first `k` pages: true before the first request. */
  predicate HasNext(responses: seq<Response>, k: nat)
    requires AllAnswered(responses, k)
  {
    k == 0 || responses[k - 1].page.hasNextPage
  }

  /** The loop condition after `k` pages: a next page exists and fewer than 30 posts are
      held. */
  predicate Continues(responses: seq<Response>, k: nat)
    requires AllAnswered(responses, k)
  {
    HasNext(responses, k) && |Fetched(responses, k)| < TopCount
  }

  /** How the loop ends when it is entered with `k` pages answered: `Done(n)` after `n`
      pages, or `Failed(n)` when request `n` (0-based) fails. A request past the given
      responses fails. */
  datatype LoopEnd = Done(pages: nat) | Failed(request: nat)

  function EndFrom(responses: seq<Response>, k: nat): (e: LoopEnd)
    requires AllAnswered(responses, k)
    ensures e.Done? ==> k <= e.pages <= |responses| && AllAnswered(responses, e.pages)
    ensures e.Failed? ==> k <= e.request <= |responses| && AllAnswered(responses, e.request)
    decreases |responses| - k
  {
    if !Continues(responses, k) then Done(k)
    else if k == |responses| || responses[k].RequestFailed? then Failed(k)
    else EndFrom(responses, k + 1)
  }

  /** How the loop ends for the given responses. */
  function LoopOutcome(responses: seq<Response>): (e: LoopEnd)
    ensures e.Done? ==> AllAnswered(responses, e.pages)
    ensures e.Failed? ==> AllAnswered(responses, e.request)
  {
    EndFrom(responses, 0)
  }

  /** The loop asks for another page exactly while the condition holds: it stops after the
      first page count at which there is no next page or at least 30 posts are held, and
      every request before the one that fails was made under the condition. */
  lemma {:induction false} EndFromStops(responses: seq<Response>, k: nat)
    requires AllAnswered(responses, k)
    ensures var e := EndFrom(responses, k);
      && (e.Done? ==> (
            && !Continues(responses, e.pages)
            && forall j :: k <= j < e.pages ==> Continues(responses, j)))
      && (e.Failed? ==> (
            && (e.request == |responses| || responses[e.request].RequestFailed?)
            && forall j :: k <= j <= e.request ==> Continues(responses, j)))
    decreases |responses| - k
  {
    if Continues(responses, k) && k < |responses| && responses[k].Answered? {
      EndFromStops(responses, k + 1);
    }
  }

  /** The loop condition after the first `k` pages, unfolded: the flag of the last page and
      the count of everything fetched. */
  lemma LoopStopsExactly(responses: seq<Response>)
    ensures var e := LoopOutcome(responses);
      && (e.Done? ==> (
            && e.pages >= 1
            && (!responses[e.pages - 1].page.hasNextPage || |Fetched(responses, e.pages)| >= TopCount)
            && forall j :: 0 <= j < e.pages ==> Continues(responses, j)))
      && (e.Failed? ==> forall j :: 0 <= j <= e.request ==> Continues(responses, j))
  {
    EndFromStops(responses, 0);
  }

  /** Whole pages are appended, so the posts held when the loop stops exceed 30 by less
      than one page. */
  lemma Overshoot(responses: seq<Response>)
    requires LoopOutcome(responses).Done?
    ensures var n := LoopOutcome(responses).pages;
      n >= 1 && |Fetched(responses, n)| < TopCount + |responses[n - 1].page.nodes|
  {
    var n := LoopOutcome(responses).pages;
    LoopStopsExactly(responses);
    assert Continues(responses, n - 1);
  }

  /** The cursors sent with the first `n` requests: "" with the first, then the `endCursor`
      of the page before. */
  function SentCursors(responses: seq<Response>, n: nat): (cursors: seq<string>)
    requires n == 0 || AllAnswered(responses, n - 1)
    ensures |cursors| == n
  {
    if n == 0 then [] else SentCursors(responses, n - 1) + [CursorAfter(responses, n - 1)]
  }

  /** `cursor` after the first `k` pages: "" before the first request. */
  function CursorAfter(responses: seq<Response>, k: nat): string
    requires AllAnswered(responses, k)
  {
    if k == 0 then "" else responses[k - 1].page.endCursor
  }

  /** Each request carries the cursor the page before it ended with. */
  lemma {:induction false} CursorsFollowPages(responses: seq<Response>, n: nat)
    requires n == 0 || AllAnswered(responses, n - 1)
    ensures n >= 1 ==> SentCursors(responses, n)[0] == ""
    ensures forall j :: 1 <= j < n ==> SentCursors(responses, n)[j] == responses[j - 1].page.endCursor
  {
    if n > 1 {
      CursorsFollowPages(responses, n - 1);
    }
  }

  /** One more answered page under the loop condition: its nodes are appended, its flag
      becomes `has_next_page`, and the loop ends as it would from there. */
  lemma NextPage(responses: seq<Response>, k: nat)
    requires AllAnswered(responses, k) && Continues(responses, k)
    requires k < |responses| && responses[k].Answered?
    ensures AllAnswered(responses, k + 1)
    ensures Fetched(responses, k + 1) == Fetched(responses, k) + responses[k].page.nodes
    ensures HasNext(responses, k + 1) == responses[k].page.hasNextPage
    ensures CursorAfter(responses, k + 1) == responses[k].page.endCursor
    ensures EndFrom(responses, k) == EndFrom(responses, k + 1)
  {
  }

  /** The page loop (the `while` over `has_next_page` and the size of `all_posts`): the
      posts fetched, or `None` when a request fails, and the cursor sent with each request
      made: "" first, then the `endCursor` of the page before. */
  method FetchPosts(responses: seq<Response>) returns (posts: Option<seq<RawPost>>, cursors: seq<string>)
    ensures LoopOutcome(responses).Done? ==> (
      && posts == Some(Fetched(responses, LoopOutcome(responses).pages))
      && cursors == SentCursors(responses, LoopOutcome(responses).pages))
    ensures LoopOutcome(responses).Failed? ==> (
      && posts == None
      && cursors == SentCursors(responses, LoopOutcome(responses).request + 1))
  {
    var allPosts: seq<RawPost> := [];
    var hasNextPage := true;
    var cursor := "";
    var k := 0;
    cursors := [];
    while hasNextPage && |allPosts| < TopCount
      invariant AllAnswered(responses, k)
      invariant allPosts == Fetched(responses, k)
      invariant hasNextPage == HasNext(responses, k)
      invariant cursor == CursorAfter(responses, k)
      invariant cursors == SentCursors(responses, k)
      invariant EndFrom(responses, k) == LoopOutcome(responses)
      decreases |responses| - k
    {
      assert Continues(responses, k);
      cursors := cursors + [cursor];
      if k == |responses| || responses[k].RequestFailed? {
        assert EndFrom(responses, k) == Failed(k);
        return None, cursors;
      }
      NextPage(responses, k);
      var page := responses[k].page;
      allPosts := allPosts + page.nodes;
      hasNextPage := page.hasNextPage;
      cursor := page.endCursor;
      k := k + 1;
    }
    assert k != 0;
    assert EndFrom(responses, k) == Done(k);
    posts := Some(allPosts);
  }

  // ----- the stable sort by votes -----

  /** Non-increasing by `votesCount`. */
  predicate SortedByVotes(s: seq<RawPost>) {
    forall i, j :: 0 <= i < j < |s| ==> s[i].votesCount >= s[j].votesCount
  }

  /** The posts with `v` votes, in their order in `s`. */
  function Ties(s: seq<RawPost>, v: int): seq<RawPost> {
    if s == [] then [] else (if s[0].votesCount == v then [s[0]] else []) + Ties(s[1..], v)
  }

  /** Puts `x` after every post with at least as many votes. */
  function InsertByVotes(x: RawPost, s: seq<RawPost>): (r: seq<RawPost>)
    ensures |r| == |s| + 1
  {
    if s == [] then [x]
    else if s[0].votesCount >= x.votesCount then [s[0]] + InsertByVotes(x, s[1..])
    else [x] + s
  }

  /** `sorted(posts, key=votesCount, reverse=True)`: Python's sort is stable, and with
      `reverse=True` posts with equal votes keep their order. */
  function SortByVotes(s: seq<RawPost>): (sorted: seq<RawPost>)
    ensures |sorted| == |s|
  {
    if s == [] then [] else InsertByVotes(s[|s| - 1], SortByVotes(s[..|s| - 1]))
  }

  lemma {:induction false} TiesAppend(a: seq<RawPost>, b: seq<RawPost>, v: int)
    ensures Ties(a + b, v) == Ties(a, v) + Ties(b, v)
  {
    if a != [] {
      var head := if a[0].votesCount == v then [a[0]] else [];
      assert (a + b)[0] == a[0] && (a + b)[1..] == a[1..] + b;
      TiesAppend(a[1..], b, v);
      calc {
        Ties(a + b, v);
        head + Ties(a[1..] + b, v);
        head + (Ties(a[1..], v) + Ties(b, v));
        { Text.AppendAssociates(head, Ties(a[1..], v), Ties(b, v)); }
        (head + Ties(a[1..], v)) + Ties(b, v);
        Ties(a, v) + Ties(b, v);
      }
    } else {
      assert a + b == b;
    }
  }

  lemma {:induction false} TiesBelow(s: seq<RawPost>, v: int)
    requires forall i :: 0 <= i < |s| ==> s[i].votesCount < v
    ensures Ties(s, v) == []
  {
    if s != [] {
      TiesBelow(s[1..], v);
    }
  }

  /** Every post of `InsertByVotes(x, s)` is `x` or a post of `s`. */
  lemma {:induction false} InsertFrom(x: RawPost, s: seq<RawPost>)
    ensures forall j :: 0 <= j < |InsertByVotes(x, s)| ==> InsertByVotes(x, s)[j] == x || InsertByVotes(x, s)[j] in s
  {
    if s != [] && s[0].votesCount >= x.votesCount {
      InsertFrom(x, s[1..]);
      var t := InsertByVotes(x, s[1..]);
      assert InsertByVotes(x, s) == [s[0]] + t;
    }
  }

  /** Inserting into a sorted sequence keeps it sorted. */
  lemma {:induction false} InsertSorted(x: RawPost, s: seq<RawPost>)
    requires SortedByVotes(s)
    ensures SortedByVotes(InsertByVotes(x, s))
  {
    if s != [] && s[0].votesCount >= x.votesCount {
      var t := InsertByVotes(x, s[1..]);
      InsertSorted(x, s[1..]);
      InsertFrom(x, s[1..]);
      assert forall j :: 0 <= j < |t| ==> s[0].votesCount >= t[j].votesCount;
      assert InsertByVotes(x, s) == [s[0]] + t;
    }
  }

  /** Inserting adds exactly `x`. */
  lemma {:induction false} InsertAdds(x: RawPost, s: seq<RawPost>)
    ensures multiset(InsertByVotes(x, s)) == multiset(s) + multiset{x}
  {
    if s != [] && s[0].votesCount >= x.votesCount {
      InsertAdds(x, s[1..]);
      assert s == [s[0]] + s[1..];
      assert InsertByVotes(x, s) == [s[0]] + InsertByVotes(x, s[1..]);
    }
  }

  /** In a sorted sequence `x` goes after the posts already there with the same votes. */
  lemma {:induction false} InsertTies(x: RawPost, s: seq<RawPost>, v: int)
    requires SortedByVotes(s)
    ensures Ties(InsertByVotes(x, s), v) == Ties(s, v) + Ties([x], v)
  {
    if s == [] {
    } else if s[0].votesCount >= x.votesCount {
      var t := InsertByVotes(x, s[1..]);
      InsertTies(x, s[1..], v);
      assert s == [s[0]] + s[1..];
      assert InsertByVotes(x, s) == [s[0]] + t;
      TiesAppend([s[0]], t, v);
      TiesAppend([s[0]], s[1..], v);
      Text.AppendAssociates(Ties([s[0]], v), Ties(s[1..], v), Ties([x], v));
    } else {
      assert InsertByVotes(x, s) == [x] + s;
      TiesAppend([x], s, v);
      if x.votesCount == v {
        TiesBelow(s, v);
      } else {
        assert Ties([x], v) == [];
      }
    }
  }

  /** The sort orders the posts by votes and keeps every post: it is a sorted permutation. */
  lemma SortByVotesPermutes(s: seq<RawPost>)
    ensures SortedByVotes(SortByVotes(s))
    ensures multiset(SortByVotes(s)) == multiset(s)
  {
    SortByVotesSorted(s);
    SortByVotesKeeps(s);
  }

  lemma {:induction false} SortByVotesSorted(s: seq<RawPost>)
    ensures SortedByVotes(SortByVotes(s))
  {
    if s != [] {
      SortByVotesSorted(s[..|s| - 1]);
      InsertSorted(s[|s| - 1], SortByVotes(s[..|s| - 1]));
    }
  }

  lemma {:induction false} SortByVotesKeeps(s: seq<RawPost>)
    ensures multiset(SortByVotes(s)) == multiset(s)
  {
    if s != [] {
      var init, last := s[..|s| - 1], s[|s| - 1];
      SortByVotesKeeps(init);
      InsertAdds(last, SortByVotes(init));
      assert s == init + [last];
    }
  }

  /** The sort is stable: posts with equal votes keep their original order. */
  lemma {:induction false} SortByVotesStable(s: seq<RawPost>, v: int)
    ensures Ties(SortByVotes(s), v) == Ties(s, v)
  {
    if s != [] {
      var init, last := s[..|s| - 1], s[|s| - 1];
      SortByVotesStable(init, v);
      SortByVotesSorted(init);
      InsertTies(last, SortByVotes(init), v);
      assert s == init + [last];
      TiesAppend(init, [last], v);
    }
  }

  /** `sorted(...)[:30]`. */
  function TopByVotes(all: seq<RawPost>): (top: seq<RawPost>)
    ensures |top| == if |all| < TopCount then |all| else TopCount
  {
    var sorted := SortByVotes(all);
    sorted[..if |sorted| < TopCount then |sorted| else TopCount]
  }

  /** The selection holds `min(30, n)` posts sorted by votes, all of them fetched. */
  lemma TopByVotesShape(all: seq<RawPost>)
    ensures var top := TopByVotes(all);
      && |top| == (if |all| < TopCount then |all| else TopCount)
      && SortedByVotes(top)
      && multiset(top) <= multiset(all)
  {
    var sorted := SortByVotes(all);
    SortByVotesPermutes(all);
    var k := if |sorted| < TopCount then |sorted| else TopCount;
    assert sorted == sorted[..k] + sorted[k..];
    assert multiset(sorted) == multiset(sorted[..k]) + multiset(sorted[k..]);
  }

  /** No fetched post left out has more votes than a post kept. */
  lemma TopByVotesDropsFewer(all: seq<RawPost>, p: RawPost, q: RawPost)
    requires p in multiset(all) - multiset(TopByVotes(all))
    requires q in TopByVotes(all)
    ensures p.votesCount <= q.votesCount
  {
    var sorted := SortByVotes(all);
    var top := TopByVotes(all);
    var rest := sorted[|top|..];
    SortByVotesPermutes(all);
    assert multiset(all) == multiset(top) + multiset(rest) by {
      assert sorted == top + rest;
    }
    assert p in rest by {
      assert multiset(rest)[p] > 0;
    }
    SortedTail(sorted, |top|, p, q);
  }

  /** In a sorted sequence every post after position `k` has at most the votes of every
      post before it. */
  lemma SortedTail(sorted: seq<RawPost>, k: nat, p: RawPost, q: RawPost)
    requires SortedByVotes(sorted) && k <= |sorted|
    requires p in sorted[k..] && q in sorted[..k]
    ensures p.votesCount <= q.votesCount
  {
    var i :| k <= i < |sorted| && sorted[i] == p;
    var j :| 0 <= j < k && sorted[j] == q;
  }

  /** Among posts with equal votes, the ones kept are the first ones in page order. */
  lemma TopByVotesKeepsFirstTies(all: seq<RawPost>, v: int)
    ensures Ties(TopByVotes(all), v) <= Ties(all, v)
  {
    var sorted := SortByVotes(all);
    SortByVotesStable(all, v);
    var top := TopByVotes(all);
    assert sorted == top + sorted[|top|..];
    TiesAppend(top, sorted[|top|..], v);
  }

  // ----- the whole fetch -----

  function AsFetchResult(built: Result<seq<Product>, TimeError>): Result<seq<Product>, FetchError> {
    match built
    case Ok(products) => Ok(products)
    case Err(e) => Err(BadTimestamp(e))
  }

  /** `fetch_product_hunt_data` after the token check: the products made from the top 30
      posts by votes among everything the loop fetched, or the error it raises. `scrape`
      gives the fallback image for a post URL. */
  method FetchProductHuntData(responses: seq<Response>, scrape: string -> string)
    returns (r: Result<seq<Product>, FetchError>, cursors: seq<string>)
    ensures LoopOutcome(responses).Failed? ==> r == Err(RequestError)
    ensures LoopOutcome(responses).Done? ==>
      r == AsFetchResult(BuildProducts(TopByVotes(Fetched(responses, LoopOutcome(responses).pages)), scrape))
    ensures LoopOutcome(responses).Done? ==> cursors == SentCursors(responses, LoopOutcome(responses).pages)
    ensures LoopOutcome(responses).Failed? ==> cursors == SentCursors(responses, LoopOutcome(responses).request + 1)
  {
    var posts;
    posts, cursors := FetchPosts(responses);
    if posts == None {
      return Err(RequestError), cursors;
    }
    r := AsFetchResult(BuildProducts(TopByVotes(posts.value), scrape));
  }
}
