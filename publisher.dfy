/** `send_to_webhook`: the JSON payload posted to the Feishu webhook, with the first ten
    products ranked and the vote statistics over them. The POST itself is replaced by its
    outcome. */
module Publisher {
  import opened Products
  import opened Fetcher
  import opened Results

  /** How many products are sent. */
  const MaxEntries := 10

  /** "图片" and "无图片": picture and no picture. */
  const Picture := "\U{56FE}\U{7247}"
  const NoPicture := "\U{65E0}\U{56FE}\U{7247}"

  /** The value of "数据来源", the data source. */
  const Source := "Product Hunt API"

  /** One element of "产品列表": rank, name, tagline, description, image link, votes,
      creation time, featured flag, website, Product Hunt link, keywords and media type. */
  datatype ProductEntry = ProductEntry(
    rank: int, name: string, tagline: string, description: string, imageUrl: string,
    votes: int, createdAt: string, featured: string, website: string, url: string,
    keyword: string, mediaType: string)

  /** The posted object: date, source, product count, total, average, highest and lowest
      votes, and the product list. */
  datatype Payload = Payload(
    date: string, source: string, productCount: int, totalVotes: int, averageVotes: int,
    highestVotes: int, lowestVotes: int, entries: seq<ProductEntry>)

  /** The "媒体类型" value: a picture exactly when the product has an image URL. */
  function MediaTypeLabel(ogImageUrl: string): (kind: string)
    ensures kind == Picture || kind == NoPicture
    ensures kind == Picture <==> ogImageUrl != ""
  {
    if ogImageUrl != "" then Picture else NoPicture
  }

  /** The entry for product `p` at 1-based rank `rank`. */
  function Entry(p: Product, rank: int): ProductEntry {
    ProductEntry(rank, p.name, p.tagline, p.description, p.ogImageUrl, p.votesCount,
                 p.createdAt, p.featured, p.website, p.url, p.keyword, MediaTypeLabel(p.ogImageUrl))
  }

  /** `products[:10]`. */
  function Shown(products: seq<Product>): (shown: seq<Product>)
    ensures |shown| == if |products| < MaxEntries then |products| else MaxEntries
    ensures shown <= products
  {
    products[..if |products| < MaxEntries then |products| else MaxEntries]
  }

  /** The `for` loop over `enumerate(products[:10])`: one entry per product sent, in order,
      entry `i` with rank `i + 1`. */
  method BuildEntries(products: seq<Product>) returns (entries: seq<ProductEntry>)
    ensures |entries| == |Shown(products)|
    ensures forall i :: 0 <= i < |entries| ==> entries[i] == Entry(products[i], i + 1)
  {
    var shown := Shown(products);
    entries := [];
    for i := 0 to |shown|
      invariant |entries| == i
      invariant forall j :: 0 <= j < i ==> entries[j] == Entry(products[j], j + 1)
    {
      entries := entries + [Entry(shown[i], i + 1)];
    }
  }

  /** The entries are ranked 1, 2, ... in the order of the products and carry each
      product's votes and media label. */
  lemma EntriesRanked(products: seq<Product>, entries: seq<ProductEntry>, i: int)
    requires |entries| == |Shown(products)|
    requires forall j :: 0 <= j < |entries| ==> entries[j] == Entry(products[j], j + 1)
    requires 0 <= i < |entries|
    ensures i < MaxEntries
    ensures entries[i].rank == i + 1 && entries[i].votes == products[i].votesCount
    ensures entries[i].mediaType == Picture <==> products[i].ogImageUrl != ""
  {
  }

  /** The sum of the votes. */
  function SumVotes(products: seq<Product>): int {
    if products == [] then 0 else products[0].votesCount + SumVotes(products[1..])
  }

  /** "总票数": the votes of the products sent. */
  function TotalVotes(products: seq<Product>): (total: int)
    ensures products == [] ==> total == 0
    ensures (forall i :: 0 <= i < |products| ==> products[i].votesCount >= 0) ==> total >= 0
  {
    SumNonNegative(Shown(products));
    SumVotes(Shown(products))
  }

  /** Votes that are never negative sum to a non-negative total. */
  lemma {:induction false} SumNonNegative(products: seq<Product>)
    ensures (forall i :: 0 <= i < |products| ==> products[i].votesCount >= 0) ==> SumVotes(products) >= 0
  {
    if products != [] {
      SumNonNegative(products[1..]);
      assert forall i :: 0 <= i < |products| - 1 ==> products[1..][i] == products[i + 1];
    }
  }

  /** "平均票数": `total // len(products[:10])`, or 0 without products. The divisor is
      positive, where Python's floor division and Dafny's division agree. */
  function AverageVotes(products: seq<Product>): (avg: int)
    ensures products == [] ==> avg == 0
    ensures products != [] ==>
      var n := |Shown(products)|;
      avg * n <= TotalVotes(products) < (avg + 1) * n
  {
    if products == [] then 0 else TotalVotes(products) / |Shown(products)|
  }

  /** "最高票数": the votes of the first product, or 0. */
  function HighestVotes(products: seq<Product>): (highest: int)
    ensures products == [] ==> highest == 0
    ensures VotesDescending(products) ==> forall i :: 0 <= i < |products| ==> products[i].votesCount <= highest
  {
    if products == [] then 0 else products[0].votesCount
  }

  /** "最低票数": the votes at index `min(9, n - 1)`, or 0. */
  function LowestVotes(products: seq<Product>): (lowest: int)
    ensures products == [] ==> lowest == 0
    ensures VotesDescending(products) ==> forall i :: 0 <= i < |Shown(products)| ==> lowest <= products[i].votesCount
  {
    if products == [] then 0
    else products[if MaxEntries - 1 < |products| - 1 then MaxEntries - 1 else |products| - 1].votesCount
  }

  /** The highest and lowest values are the first and the last product sent: positions,
      not a search. */
  lemma ExtremesArePositions(products: seq<Product>)
    requires products != []
    ensures HighestVotes(products) == Shown(products)[0].votesCount
    ensures LowestVotes(products) == Shown(products)[|Shown(products)| - 1].votesCount
  {
  }

  /** Products in non-increasing order of votes. */
  predicate VotesDescending(products: seq<Product>) {
    forall i, j :: 0 <= i < j < |products| ==> products[i].votesCount >= products[j].votesCount
  }

  /** Every vote lies between `lo` and `hi`, so the sum lies between `n * lo` and `n * hi`. */
  lemma {:induction false} SumBetween(products: seq<Product>, lo: int, hi: int)
    requires forall i :: 0 <= i < |products| ==> lo <= products[i].votesCount <= hi
    ensures |products| * lo <= SumVotes(products) <= |products| * hi
  {
    if products != [] {
      SumBetween(products[1..], lo, hi);
    }
  }

  /** When the products come sorted by votes (as the fetch delivers them), the highest and
      lowest values bound every vote sent, and the average lies between them. */
  lemma SortedStatistics(products: seq<Product>)
    requires VotesDescending(products)
    ensures forall i :: 0 <= i < |Shown(products)| ==>
      LowestVotes(products) <= products[i].votesCount <= HighestVotes(products)
    ensures LowestVotes(products) <= AverageVotes(products) <= HighestVotes(products)
  {
    var shown := Shown(products);
    if products != [] {
      var lo, hi := LowestVotes(products), HighestVotes(products);
      assert forall i :: 0 <= i < |shown| ==> lo <= shown[i].votesCount <= hi;
      SumBetween(shown, lo, hi);
      var n, avg := |shown|, AverageVotes(products);
      assert n * lo < (avg + 1) * n;
      assert avg * n <= n * hi;
      NotBelow(n, lo, avg);
      NotAbove(n, hi, avg);
    }
  }

  lemma NotBelow(n: int, lo: int, avg: int)
    requires n > 0 && n * lo < (avg + 1) * n
    ensures lo <= avg
  {
  }

  lemma NotAbove(n: int, hi: int, avg: int)
    requires n > 0 && avg * n <= n * hi
    ensures avg <= hi
  {
  }

  /** A sequence of votes falling by ten: the `k` products hold 10k, 10(k-1), ..., 10. */
  predicate FallingByTen(products: seq<Product>) {
    forall i :: 0 <= i < |products| ==> products[i].votesCount == 10 * (|products| - i)
  }

  lemma {:induction false} FallingByTenSum(products: seq<Product>)
    requires FallingByTen(products)
    ensures 2 * SumVotes(products) == 10 * |products| * (|products| + 1)
  {
    if products != [] {
      var n := |products|;
      assert FallingByTen(products[1..]);
      FallingByTenSum(products[1..]);
      assert 10 * (n - 1) * n + 20 * n == 10 * n * (n + 1);
    }
  }

  /** Ten products with 100, 90, ..., 10 votes give a total of 550, an average of 55, a
      highest value of 100 and a lowest of 10. */
  lemma TenProductsExample(products: seq<Product>)
    requires |products| == 10 && FallingByTen(products)
    ensures TotalVotes(products) == 550
    ensures AverageVotes(products) == 55
    ensures HighestVotes(products) == 100 && LowestVotes(products) == 10
  {
    assert Shown(products) == products;
    FallingByTenSum(products);
  }

  /** Products built from posts sorted by votes keep that order, so the statistics of the
      fetched products are bounded as `SortedStatistics` says. */
  lemma FetchedProductsDescending(posts: seq<RawPost>, scrape: string -> string)
    requires SortedByVotes(posts)
    requires BuildProducts(posts, scrape).Ok?
    ensures VotesDescending(BuildProducts(posts, scrape).value)
  {
    var products := BuildProducts(posts, scrape).value;
    BuildProductsOutcome(posts, scrape);
    forall i | 0 <= i < |products|
      ensures products[i].votesCount == posts[i].votesCount
    {
      assert Ok(products[i]) == NewProduct(posts[i], scrape(posts[i].url));
    }
  }

  /** What the fetch returns is at most 30 products in non-increasing order of votes, so
      the highest and lowest values sent bound the others. */
  lemma FetchDeliversSorted(all: seq<RawPost>, scrape: string -> string)
    requires BuildProducts(TopByVotes(all), scrape).Ok?
    ensures var products := BuildProducts(TopByVotes(all), scrape).value;
      |products| <= TopCount && VotesDescending(products)
  {
    TopByVotesShape(all);
    BuildProductsOutcome(TopByVotes(all), scrape);
    FetchedProductsDescending(TopByVotes(all), scrape);
  }

  /** `send_to_webhook`: the payload for `products` on the day `today` (the `%Y-%m-%d` text
      of the clock), and whether it was delivered, which is the POST's outcome `posted`. */
  method SendToWebhook(products: seq<Product>, today: string, posted: bool)
    returns (payload: Payload, delivered: bool)
    ensures payload.date == today && payload.source == Source
    ensures payload.productCount == |payload.entries| == |Shown(products)|
    ensures forall i :: 0 <= i < |payload.entries| ==> payload.entries[i] == Entry(products[i], i + 1)
    ensures payload.totalVotes == TotalVotes(products)
    ensures payload.averageVotes == AverageVotes(products)
    ensures payload.highestVotes == HighestVotes(products)
    ensures payload.lowestVotes == LowestVotes(products)
    ensures delivered == posted
  {
    var entries := BuildEntries(products);
    var total := TotalVotes(products);
    var avg := if products != [] then total / |Shown(products)| else 0;
    payload := Payload(today, Source, |entries|, total, avg,
                       HighestVotes(products), LowestVotes(products), entries);
    delivered := posted;
  }
}
