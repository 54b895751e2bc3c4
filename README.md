# Product Hunt daily list: a verified model of its deterministic core

The script `scripts/product_hunt_list_to_md.py` runs in three stages:

1. It fetches yesterday's posts from the Product Hunt GraphQL API page by page.
2. It keeps the 30 with the most votes and turns each into a `Product` record: the
   creation time shown in Beijing time, a featured flag, an image URL and a keyword line.
3. It posts the first ten, with vote statistics, to a Feishu webhook.

This project models the logic between the network calls and proves what it promises.

| file | module | models |
|---|---|---|
| `results.dfy` | `Results` | `Option` and `Result`: the value, or the error a Python call would raise |
| `text.dfy` | `Text` | the string operations the script uses: `str.strip()`, `str.replace` of one character, `str.split` on one character, `str.join` |
| `keywords.dfy` | `Keywords` | `Product.generate_keywords` |
| `beijing_time.dfy` | `BeijingTime` | `Product.convert_to_beijing_time`: strict `strptime`, a calendar with leap years, the +8 h shift, and `strftime` with a 12-hour clock |
| `products.dfy` | `Products` | the raw API node, `Product.__init__` (featured flag, image choice, construction error) and the list comprehension that builds the products |
| `fetcher.dfy` | `Fetcher` | the page loop of `fetch_product_hunt_data`, the stable sort by votes and the top-30 cut |
| `publisher.dfy` | `Publisher` | the payload and statistics of `send_to_webhook` |

The model replaces each piece of I/O with an input:

- the API's answers become a sequence of responses, one per request;
- the HTML scraping fallback for images becomes a string, or a function of the post URL;
- the clock's date text becomes a parameter;
- the webhook's HTTP outcome becomes a boolean.

A Python `set` has no fixed iteration order. So the keyword function takes that order as
a parameter, which must list the set's elements once each. Every keyword property is
proved for all such orders. The stored keyword line uses first-occurrence order.

Two behaviours of the code are easy to misread, and the model follows the code in both:

- `-` is a separator like `&` and `|`. So `censorship-resistant` gives two keywords, not one.
- The fetch sorts all accumulated posts, which can be more than 30, before it cuts to 30.
  The result is the 30 most-voted posts among everything fetched, not the first 30 in page
  order.

## Model

| member | source | states |
|---|---|---|
| Text.Strip | scripts/product_hunt_list_to_md.py:79 | `strip()` leaves no whitespace at either end (Python's 29 `isspace` code points), uses only characters of the input, and is empty exactly when the input is all whitespace |
| Text.StripCutsEnds | scripts/product_hunt_list_to_md.py:79 | `strip()` cuts only whitespace, and only at the two ends: the result is a middle slice of the input with whitespace alone before and after it |
| Text.ReplaceChar | scripts/product_hunt_list_to_md.py:78 | `replace` of one character keeps the length, changes exactly the occurrences, and introduces no other character |
| Text.Split | scripts/product_hunt_list_to_md.py:78 | `split(",")` gives at least one piece and no piece contains the separator |
| Text.JoinSplit | scripts/product_hunt_list_to_md.py:78 | joining the pieces of a split with the separator gives the text back |
| Text.Join | scripts/product_hunt_list_to_md.py:79 | `", ".join(...)`; with `Split` it forms the round trip of `JoinSplit`, and `KeywordsParseBack` reads a joined keyword line back into its keywords |
| Text.SplitAround | scripts/product_hunt_list_to_md.py:78 | a separator splits the text on its two sides independently |
| Text.SplitPieceCharacters | scripts/product_hunt_list_to_md.py:78 | every character of a piece occurs in the text that was split |
| Keywords.Normalized | scripts/product_hunt_list_to_md.py:78 | after the three `replace` calls, no `&`, `\|` or `-` is left |
| Keywords.Fragments | scripts/product_hunt_list_to_md.py:78 | no raw fragment contains any of `, & \| -` |
| Keywords.Tokens | scripts/product_hunt_list_to_md.py:79 | the comprehension keeps at most one keyword per word and never an empty one |
| Keywords.TokensMembership | scripts/product_hunt_list_to_md.py:79 | a keyword is kept iff it is the non-empty stripped form of some word |
| Keywords.Distinct | scripts/product_hunt_list_to_md.py:78 | first-occurrence order lists every distinct fragment exactly once, so it is one iteration order of the set |
| Keywords.KeywordsInOrder | scripts/product_hunt_list_to_md.py:78-79 | `generate_keywords` for one iteration order of the set; every property below is stated for every such order |
| Keywords.KeywordsLineReadsBack | scripts/product_hunt_list_to_md.py:78-79 | the keyword line, split on commas and stripped, lists exactly the keywords in the set's order |
| Keywords.GenerateKeywords | scripts/product_hunt_list_to_md.py:74-82 | the stored keyword line: read back, its keywords are exactly the non-empty stripped fragments of `name + ", " + tagline`; it never raises, so the `except` fallback is not reached |
| Keywords.TokensAreWellFormed | scripts/product_hunt_list_to_md.py:78-79 | in every iteration order, every keyword is non-empty, has no whitespace at either end, and contains none of `, & \| -` |
| Keywords.TokenSetExact | scripts/product_hunt_list_to_md.py:78-79 | the keywords are exactly the non-empty stripped fragments of `name + ", " + tagline` |
| Keywords.TokenMultiplicity | scripts/product_hunt_list_to_md.py:78-79 | over distinct words, a keyword occurs once per distinct word that strips to it |
| Keywords.KeywordTokenCount | scripts/product_hunt_list_to_md.py:78-79 | deduplication happens before stripping: a keyword occurs once per distinct raw fragment that strips to it |
| Keywords.KeywordsOrderIndependent | scripts/product_hunt_list_to_md.py:78-79 | two iteration orders of the set give the same keywords with the same multiplicities |
| Keywords.RepeatedNameKeywords | scripts/product_hunt_list_to_md.py:78-79 | when name and tagline are the same keyword `w`, the fragments `w` and `" " + w` both survive the set, and the line is `w, w` in either order |
| Keywords.KeywordsParseBack | scripts/product_hunt_list_to_md.py:79 | splitting a joined keyword line on commas and stripping gives the keywords back |
| Keywords.KeywordsIdempotent | scripts/product_hunt_list_to_md.py:78-79 | deriving keywords again from a keyword line gives the same set of keywords |
| Keywords.KeywordStringFragments | scripts/product_hunt_list_to_md.py:78 | a keyword line fed back in as a name with an empty tagline splits into its own comma pieces plus a blank fragment |
| BeijingTime.ParseUtc | scripts/product_hunt_list_to_md.py:86 | a parsed timestamp is always a valid date and time |
| BeijingTime.ParseOfIsoText | scripts/product_hunt_list_to_md.py:86 | a canonical timestamp parses to its own fields when they name a real instant; otherwise it fails with out-of-range (a day such as 30 February, second 60) or format mismatch (a field outside the two-digit patterns) |
| BeijingTime.IsoTextOfParse | scripts/product_hunt_list_to_md.py:86 | whatever parses is the canonical text of its value, up to the case of `T` and `Z` |
| BeijingTime.NumberOfPad | scripts/product_hunt_list_to_md.py:89 | zero-padded digits read back as the number |
| BeijingTime.PadOfNumber | scripts/product_hunt_list_to_md.py:86 | a digit field is the zero-padded text of its value |
| BeijingTime.DaysBeforeNextYear | scripts/product_hunt_list_to_md.py:87-88 | the day count before a year, Gregorian leap years included, steps by the length of the year |
| BeijingTime.NextDay | scripts/product_hunt_list_to_md.py:87-88 | the next calendar day, with month and year rollover and leap years, is valid, has the same time of day, and is exactly one day later |
| BeijingTime.ToBeijing | scripts/product_hunt_list_to_md.py:87-88 | the shifted time is valid, its hour is `(h + 8) mod 24`, its minutes and seconds are unchanged, and its date is one day later exactly when the UTC hour is 16 or more |
| BeijingTime.ToBeijingInstant | scripts/product_hunt_list_to_md.py:87-88 | the shifted time is the same instant plus exactly eight hours |
| BeijingTime.HourOnTwelveHourClock | scripts/product_hunt_list_to_md.py:89 | `%I` is 1 to 12 (hour 0 shows as 12), and with the AM/PM marker it gives the hour back |
| BeijingTime.Hour12 | scripts/product_hunt_list_to_md.py:89 | `%I` is 1 to 12 and agrees with the hour modulo 12, so hour 0 shows as 12 |
| BeijingTime.Meridiem | scripts/product_hunt_list_to_md.py:89 | `%p` is AM or PM, and AM exactly for the hours before noon |
| BeijingTime.FormatBeijing | scripts/product_hunt_list_to_md.py:89 | the display text is 26 characters; `DisplayFields` places each field and `DisplayRoundTrip` reads it back |
| BeijingTime.DisplayTime | scripts/product_hunt_list_to_md.py:89 | `%p%I:%M` is 7 characters; `AcrossMidnightTime` and `MidnightShownAsTwelve` show it for midnight |
| BeijingTime.DisplayFields | scripts/product_hunt_list_to_md.py:89 | the text is `YYYY年MM月DD日 %p%I:%M (北京时间)`, field by field, with seconds dropped |
| BeijingTime.DisplayRoundTrip | scripts/product_hunt_list_to_md.py:89 | the display text reads back as exactly the date, hour and minute it was made from |
| BeijingTime.DisplayClock | scripts/product_hunt_list_to_md.py:89 | the `%I` field is 01 to 12, and the marker is AM exactly when the Beijing hour is before 12 |
| BeijingTime.ConvertToBeijingTime | scripts/product_hunt_list_to_md.py:84-89 | conversion succeeds iff the text parses and the shift stays before year 10000; the error is an overflow exactly when parsing succeeded |
| BeijingTime.ConvertShowsShiftedClock | scripts/product_hunt_list_to_md.py:84-89 | a successful conversion shows the wall clock of a valid time that is the parsed instant plus eight hours |
| BeijingTime.ConvertOfIsoText | scripts/product_hunt_list_to_md.py:84-89 | a valid canonical timestamp converts to the display of its shifted time, or overflows on 31 December 9999 from 16:00 |
| BeijingTime.ConvertAcrossMidnightExample | scripts/product_hunt_list_to_md.py:84-89 | `2025-03-07T16:01:00Z` converts to the display of 2025-03-08 00:01 |
| BeijingTime.AcrossMidnightConverts | scripts/product_hunt_list_to_md.py:84-89 | the text `2025-03-07T16:01:00Z` converts to exactly `2025年03月08日 AM12:01 (北京时间)` |
| BeijingTime.AcrossMidnightIso | scripts/product_hunt_list_to_md.py:86 | the canonical text of 2025-03-07 16:01:00 is `2025-03-07T16:01:00Z` |
| BeijingTime.AcrossMidnightText | scripts/product_hunt_list_to_md.py:89 | the display of 2025-03-08 00:01 is that text, character by character |
| BeijingTime.AcrossMidnightDate | scripts/product_hunt_list_to_md.py:89 | its date part reads `2025年03月08日` |
| BeijingTime.AcrossMidnightTime | scripts/product_hunt_list_to_md.py:89 | its time part reads `AM12:01` |
| BeijingTime.MidnightShownAsTwelve | scripts/product_hunt_list_to_md.py:89 | midnight shows as `AM12` |
| BeijingTime.NoSuchDayExample | scripts/product_hunt_list_to_md.py:86 | the text `2024-02-30T10:00:00Z` is refused as out of range |
| BeijingTime.NoSuchDayIso | scripts/product_hunt_list_to_md.py:86 | the canonical text of 2024-02-30 10:00:00 is `2024-02-30T10:00:00Z` |
| BeijingTime.SpaceSeparatorExample | scripts/product_hunt_list_to_md.py:86 | a space instead of `T` is refused as a format mismatch |
| BeijingTime.LastEveningExample | scripts/product_hunt_list_to_md.py:87-89 | the text `9999-12-31T16:00:00Z` overflows |
| BeijingTime.LastEveningIso | scripts/product_hunt_list_to_md.py:86 | the canonical text of 9999-12-31 16:00:00 is `9999-12-31T16:00:00Z` |
| Products.FeaturedFlag | scripts/product_hunt_list_to_md.py:25 | the flag is 是 or 否, and 是 exactly when `featuredAt` is non-null and non-empty |
| Products.ImageUrl | scripts/product_hunt_list_to_md.py:31-53 | the image URL is "", the fallback's result, or the URL of the first media entry |
| Products.ImageFromFirstEntry | scripts/product_hunt_list_to_md.py:34-39 | a non-empty URL on the first media entry is returned as it is |
| Products.ImageFromFallback | scripts/product_hunt_list_to_md.py:41-50 | without a usable first entry the fallback's result is returned, "" when it found nothing |
| Products.ImageUsesFirstEntryOnly | scripts/product_hunt_list_to_md.py:34-36 | only the first media entry is inspected |
| Products.ImageFallbackIrrelevant | scripts/product_hunt_list_to_md.py:31-53 | the fallback is not consulted when the first entry has a URL, or is not an object (the exception is caught and gives "") |
| Products.NewProduct | scripts/product_hunt_list_to_md.py:18-29 | construction fails exactly when the time conversion fails, with its error; otherwise the product copies the name, tagline, description, votes, website and URL from the post, and its time, featured flag, image URL and keyword line are what `ConvertToBeijingTime`, `FeaturedFlag`, `ImageUrl` and `GenerateKeywords` give |
| Products.MapUntilError | scripts/product_hunt_list_to_md.py:199 | a comprehension whose element raises gives every result in order, or the error of the first element that fails |
| Products.BuildProducts | scripts/product_hunt_list_to_md.py:199 | `[Product(**post) for post in ...]`; `BuildProductsOutcome` states what it gives |
| Products.BuildProductsOutcome | scripts/product_hunt_list_to_md.py:199 | the products are built, one per post in order, iff every creation time converts; otherwise the first bad timestamp decides the error |
| Fetcher.EndFromStops | scripts/product_hunt_list_to_md.py:181-196 | from any point, every request is made under the loop condition, and the loop ends at the first page count where the condition fails or at the first failing request |
| Fetcher.Fetched | scripts/product_hunt_list_to_md.py:177-189 | `all_posts` after `k` pages: their nodes, page after page; `FetchPosts` returns it and `Overshoot` bounds its size |
| Fetcher.EndFrom | scripts/product_hunt_list_to_md.py:181-196 | where the loop ends from `k` pages on: a page count or a failing request within the responses; `EndFromStops` says it is the first stop |
| Fetcher.LoopOutcome | scripts/product_hunt_list_to_md.py:181-196 | where the loop ends from the start; `LoopStopsExactly` characterises it |
| Fetcher.LoopStopsExactly | scripts/product_hunt_list_to_md.py:181-192 | the loop stops after at least one page, as soon as the last page has no next page or at least 30 posts are held, and not before |
| Fetcher.Overshoot | scripts/product_hunt_list_to_md.py:181-189 | whole pages are appended, so the posts held exceed 30 by less than one page |
| Fetcher.CursorsFollowPages | scripts/product_hunt_list_to_md.py:179-192 | the first request sends the empty cursor, and each later one the `endCursor` of the page before |
| Fetcher.NextPage | scripts/product_hunt_list_to_md.py:189-192 | one more answered page appends its nodes and takes its `hasNextPage` and `endCursor` |
| Fetcher.FetchPosts | scripts/product_hunt_list_to_md.py:177-196 | the loop returns exactly the pages' nodes up to where it stops, or fails at the first failing request, having sent the cursors above |
| Fetcher.InsertSorted | scripts/product_hunt_list_to_md.py:199 | inserting into a sequence sorted by votes keeps it sorted |
| Fetcher.InsertTies | scripts/product_hunt_list_to_md.py:199 | the inserted post goes after the posts already there with the same votes |
| Fetcher.SortByVotesPermutes | scripts/product_hunt_list_to_md.py:199 | `sorted(..., key=votesCount, reverse=True)` is non-increasing in votes and a permutation of its input |
| Fetcher.SortByVotes | scripts/product_hunt_list_to_md.py:199 | the sort keeps the number of posts; `SortByVotesPermutes` and `SortByVotesStable` state the rest |
| Fetcher.TopByVotes | scripts/product_hunt_list_to_md.py:199 | `sorted(...)[:30]` holds `min(30, n)` posts; the `TopByVotes` lemmas below state which |
| Fetcher.SortByVotesStable | scripts/product_hunt_list_to_md.py:199 | the sort is stable: the posts with any given vote count keep their page order |
| Fetcher.TopByVotesShape | scripts/product_hunt_list_to_md.py:199 | the selection has `min(30, n)` posts, is sorted by votes, and holds only fetched posts |
| Fetcher.TopByVotesDropsFewer | scripts/product_hunt_list_to_md.py:199 | no fetched post left out has more votes than a post kept |
| Fetcher.TopByVotesKeepsFirstTies | scripts/product_hunt_list_to_md.py:199 | among posts with equal votes, those kept are the first ones in page order |
| Fetcher.FetchProductHuntData | scripts/product_hunt_list_to_md.py:119-199 | a failed request gives the request error; otherwise the result is the products of the top 30 fetched posts, or the first conversion error |
| Publisher.MediaTypeLabel | scripts/product_hunt_list_to_md.py:280 | the media type is 图片 exactly when the image URL is non-empty, 无图片 otherwise |
| Publisher.Shown | scripts/product_hunt_list_to_md.py:267 | `products[:10]` is a prefix of `min(10, n)` products |
| Publisher.Entry | scripts/product_hunt_list_to_md.py:268-281 | one product's entry; `EntriesRanked` states its rank, votes and media label |
| Publisher.TotalVotes | scripts/product_hunt_list_to_md.py:285 | the sum of the votes of the products sent: 0 without products, never negative when no vote is; `SumBetween` and `SortedStatistics` bound it by the extremes |
| Publisher.HighestVotes | scripts/product_hunt_list_to_md.py:294 | 0 without products; for products sorted by votes, no product has more votes |
| Publisher.LowestVotes | scripts/product_hunt_list_to_md.py:295 | 0 without products; for products sorted by votes, no product sent has fewer votes |
| Publisher.BuildEntries | scripts/product_hunt_list_to_md.py:266-282 | one entry per product sent, in order, entry `i` with rank `i + 1` |
| Publisher.EntriesRanked | scripts/product_hunt_list_to_md.py:267-282 | the entries are at most 10, ranked from 1, and carry each product's votes and media label |
| Publisher.AverageVotes | scripts/product_hunt_list_to_md.py:286 | the average is the floor of the total over the count sent, or 0 without products |
| Publisher.ExtremesArePositions | scripts/product_hunt_list_to_md.py:294-295 | the highest and lowest values are the first and the last product sent, by position |
| Publisher.SumBetween | scripts/product_hunt_list_to_md.py:285 | the total of `n` votes between `lo` and `hi` lies between `n * lo` and `n * hi` |
| Publisher.SortedStatistics | scripts/product_hunt_list_to_md.py:285-295 | for products sorted by votes, the highest and lowest bound every vote sent, and the average lies between them |
| Publisher.FallingByTenSum | scripts/product_hunt_list_to_md.py:285 | votes 10k, 10(k-1), ..., 10 sum to 5k(k+1) |
| Publisher.TenProductsExample | scripts/product_hunt_list_to_md.py:285-295 | votes 100, 90, ..., 10 give a total of 550, an average of 55, a highest of 100 and a lowest of 10 |
| Publisher.FetchedProductsDescending | scripts/product_hunt_list_to_md.py:199 | products built from posts sorted by votes stay sorted by votes |
| Publisher.FetchDeliversSorted | scripts/product_hunt_list_to_md.py:199 | what the fetch returns is at most 30 products in non-increasing order of votes |
| Publisher.SendToWebhook | scripts/product_hunt_list_to_md.py:256-311 | the payload holds the date, the source, `min(10, n)` ranked entries with that count, and the total, average, highest and lowest votes above; the result is the POST's outcome |

## Left out

- HTTP is not modelled. This covers the session, the retry and back-off policy
  (lines 141–148), `raise_for_status`, the webhook POST (lines 304–311) and the page
  request in `fetch_og_image_url`. These become inputs: the responses, the fallback
  image, and the POST's outcome.
- The `og:image`/`twitter:image` scraping with BeautifulSoup (lines 55–72) is not
  modelled. It is a foreign library over page markup. Its result is an input that never
  raises.
- A response whose JSON lacks `data`, `posts`, `nodes` or `pageInfo` is not modelled. The
  source raises `KeyError` there. Where one of them is `null` (as in `"data": null`), the
  next lookup raises `TypeError` instead. The loop catches neither.
- A post missing a field, or with `null` name or tagline, is not modelled. `Product(**post)`
  would raise `TypeError`. `generate_keywords` would fall back to the name in its `except`.
  For string name and tagline that handler is unreachable, and `Keywords.GenerateKeywords`
  is total.
- BeijingTime.ToBeijing: Asia/Shanghai is a fixed +8 h offset. The tz database's
  historical daylight saving time for that zone (in 1919, 1940–1949 and 1986–1991) and its
  local mean time before 1901 are not modelled.
- BeijingTime.ParseUtc: accepts only zero-padded two-digit month, day, hour, minute and
  second fields, in ASCII digits. `strptime` also accepts one-digit fields, a day padded
  with a space (`2024-02- 3T10:00:00Z` parses), and other Unicode decimal digits. The model
  refuses these with a format mismatch.
- BeijingTime.FormatBeijing: always prints `%Y` as four zero-padded digits. `ParseUtc`
  accepts years 0001 to 0999. For those years, CPython's `strftime("%Y")` prints the year
  unpadded on some platforms and versions (`999` rather than `0999`). Those variants are
  not modelled.
- `%p` prints `AM` and `PM` as in the C locale. Other locales are not modelled.
- The clock is not modelled. `datetime.now` and the date strings made from it
  (lines 125–126, 262–263, 317–318) depend on the time of the run. The query's date
  bounds are not part of the model. `SendToWebhook` takes the date text as a parameter.
- Configuration is not modelled: the environment variables, the webhook URL default and
  the token lookup (lines 106–117). The token is hard-coded, so the missing-token branch
  (lines 122–123) is unreachable.
- `print` logging, JSON serialisation and the 1500-character preview (line 301) are output
  only and are not modelled.
- `fetch_mock_data` (lines 201–254) is fixed sample data. The try/except in `main` that
  falls back to it (lines 313–351) is control flow around I/O failures.
- `Product.to_dict` (lines 91–104) is never called.
- Fetcher.FetchPosts: a request past the end of the given responses counts as a failed
  request, so a finite response sequence decides every run.
