/** One Product Hunt post as the API returns it, and the `Product` record built from it
    (`Product.__init__`): the creation time shown in Beijing time, the featured flag, the
    image URL and the keywords. */
module Products {
  import opened Results
  import opened Keywords
  import opened BeijingTime

  /** An element of the `media` list: an object whose `url` key may be missing or null
      (both `None` here), or any other JSON value, which has no `.get`. */
  datatype MediaEntry = MediaObject(url: Option<string>) | NotAnObject

  /** The `media` field: a list, or anything else (missing, null, an object, a string). */
  datatype Media = MediaList(entries: seq<MediaEntry>) | NotAList

  /** A node of the `posts` query. `featuredAt` is null for posts that were not featured. */
  datatype RawPost = RawPost(
    id: string, name: string, tagline: string, description: string, votesCount: int,
    createdAt: string, featuredAt: Option<string>, website: string, url: string, media: Media)

  /** The fields a `Product` carries after construction; `id` is accepted and dropped. */
  datatype Product = Product(
    name: string, tagline: string, description: string, votesCount: int, createdAt: string,
    featured: string, website: string, url: string, ogImageUrl: string, keyword: string)

  /** "是" and "否": yes and no. */
  const Yes := "\U{662F}"
  const No := "\U{5426}"

  /** A JSON string or null taken as a Python truth value. */
  predicate Truthy(v: Option<string>) {
    v.Some? && v.value != ""
  }

  /** The `featured` field: yes exactly when `featuredAt` is truthy. */
  function FeaturedFlag(featuredAt: Option<string>): (flag: string)
    ensures flag == Yes || flag == No
    ensures flag == Yes <==> Truthy(featuredAt)
  {
    if Truthy(featuredAt) then Yes else No
  }

  /** `media[0].get('url', '')` when the list is not empty and its first element is an
      object; None when it is not. */
  function FirstMediaUrl(entries: seq<MediaEntry>): Option<string>
    requires entries != []
  {
    match entries[0]
    case MediaObject(url) => Some(if url.Some? then url.value else "")
    case NotAnObject => None
  }

  /** `get_image_url_from_media`, with `scraped` the result of the page-scraping fallback
      (`fetch_og_image_url`, which never raises and gives "" when it finds nothing). A
      first entry that is not an object raises inside the `try`, and the handler returns
      "" without trying the fallback. */
  function ImageUrl(media: Media, scraped: string): (url: string)
    ensures url == "" || url == scraped
      || (media.MediaList? && media.entries != [] && FirstMediaUrl(media.entries) == Some(url))
  {
    if media.MediaList? && media.entries != [] then
      match FirstMediaUrl(media.entries)
      case None => ""
      case Some(u) => if u != "" then u else scraped
    else scraped
  }

  /** A non-empty URL on the first media entry is used and the fallback is not consulted. */
  lemma ImageFromFirstEntry(entries: seq<MediaEntry>, scraped: string)
    requires entries != [] && entries[0].MediaObject? && Truthy(entries[0].url)
    ensures ImageUrl(MediaList(entries), scraped) == entries[0].url.value
  {
  }

  /** Without a usable first entry the fallback's result is returned as it is: "" when the
      fallback found nothing. */
  lemma ImageFromFallback(media: Media, scraped: string)
    requires media.MediaList? && media.entries != [] ==> media.entries[0].MediaObject? && !Truthy(media.entries[0].url)
    ensures ImageUrl(media, scraped) == scraped
  {
  }

  /** Only the first media entry is ever inspected. */
  lemma ImageUsesFirstEntryOnly(a: seq<MediaEntry>, b: seq<MediaEntry>, scraped: string)
    requires a != [] && b != [] && a[0] == b[0]
    ensures ImageUrl(MediaList(a), scraped) == ImageUrl(MediaList(b), scraped)
  {
  }

  /** The fallback matters only when there is no first entry, or it is an object without a
      usable URL. */
  lemma ImageFallbackIrrelevant(media: Media, s1: string, s2: string)
    requires media.MediaList? && media.entries != []
    requires !(media.entries[0].MediaObject? && !Truthy(media.entries[0].url))
    ensures ImageUrl(media, s1) == ImageUrl(media, s2)
  {
  }

  /** `Product(**post)`: the record, or the error the time conversion raises, which the
      constructor does not catch. `scraped` is what the fallback would find for this post. */
  function NewProduct(post: RawPost, scraped: string): (r: Result<Product, TimeError>)
    ensures r.Ok? <==> ConvertToBeijingTime(post.createdAt).Ok?
    ensures r.Err? ==> r.error == ConvertToBeijingTime(post.createdAt).error
    ensures r.Ok? ==> r.value.createdAt == ConvertToBeijingTime(post.createdAt).value
    ensures r.Ok? ==> r.value.votesCount == post.votesCount
    ensures r.Ok? ==> r.value == Product(post.name, post.tagline, post.description,
      post.votesCount, ConvertToBeijingTime(post.createdAt).value, FeaturedFlag(post.featuredAt),
      post.website, post.url, ImageUrl(post.media, scraped), GenerateKeywords(post.name, post.tagline))
  {
    match ConvertToBeijingTime(post.createdAt)
    case Err(e) => Err(e)
    case Ok(shown) =>
      Ok(Product(post.name, post.tagline, post.description, post.votesCount, shown,
                 FeaturedFlag(post.featuredAt), post.website, post.url,
                 ImageUrl(post.media, scraped), GenerateKeywords(post.name, post.tagline)))
  }

  /** Whether `f` succeeds on each of the first `n` elements of `xs`. */
  predicate SucceedsBefore<A, B, E>(xs: seq<A>, f: A -> Result<B, E>, n: int) {
    forall j :: 0 <= j < n && j < |xs| ==> f(xs[j]).Ok?
  }

  /** A list comprehension whose element expression may raise: every result in order, or
      the error of the first element that fails (the later ones are never evaluated). */
  function MapUntilError<A, B(==), E(==)>(xs: seq<A>, f: A -> Result<B, E>): (r: Result<seq<B>, E>)
    ensures r.Ok? <==> SucceedsBefore(xs, f, |xs|)
    ensures r.Ok? ==> |r.value| == |xs| && forall i :: 0 <= i < |xs| ==> Ok(r.value[i]) == f(xs[i])
    ensures r.Err? ==> exists i :: 0 <= i < |xs| && SucceedsBefore(xs, f, i) && f(xs[i]) == Err(r.error)
  {
    if xs == [] then Ok([])
    else
      match f(xs[0])
      case Err(e) => Err(e)
      case Ok(first) =>
        var rest := MapUntilError(xs[1..], f);
        if rest.Err? then
          var i :| 0 <= i < |xs| - 1 && SucceedsBefore(xs[1..], f, i) && f(xs[1..][i]) == Err(rest.error);
          assert SucceedsBefore(xs, f, i + 1) by {
            forall j | 0 < j < i + 1 ensures f(xs[j]).Ok? {
              assert xs[j] == xs[1..][j - 1];
            }
          }
          Err(rest.error)
        else
          Ok([first] + rest.value)
  }

  /** `[Product(**post) for post in posts]`, with `scrape` giving the fallback image for a
      post URL. */
  function BuildProducts(posts: seq<RawPost>, scrape: string -> string): Result<seq<Product>, TimeError> {
    MapUntilError(posts, (post: RawPost) => NewProduct(post, scrape(post.url)))
  }

  /** Every post makes its product, in order, or the first post whose creation time does
      not convert decides the error. */
  lemma BuildProductsOutcome(posts: seq<RawPost>, scrape: string -> string)
    ensures var r := BuildProducts(posts, scrape);
      && (r.Ok? <==> forall i :: 0 <= i < |posts| ==> Converts(posts[i]))
      && (r.Ok? ==> (
            && |r.value| == |posts|
            && forall i :: 0 <= i < |posts| ==> Ok(r.value[i]) == NewProduct(posts[i], scrape(posts[i].url))))
      && (r.Err? ==> (
            exists i :: 0 <= i < |posts|
              && (forall j :: 0 <= j < i ==> Converts(posts[j]))
              && ConvertToBeijingTime(posts[i].createdAt) == Err(r.error)))
  {
    var f := (post: RawPost) => NewProduct(post, scrape(post.url));
    var r := MapUntilError(posts, f);
    assert forall i :: 0 <= i < |posts| ==> f(posts[i]) == NewProduct(posts[i], scrape(posts[i].url));
    if r.Err? {
      var i :| 0 <= i < |posts| && SucceedsBefore(posts, f, i) && f(posts[i]) == Err(r.error);
      assert ConvertToBeijingTime(posts[i].createdAt) == Err(r.error);
    }
  }

  /** Whether a post's creation time converts, so that its product can be made. */
  predicate Converts(post: RawPost) {
    ConvertToBeijingTime(post.createdAt).Ok?
  }
}
