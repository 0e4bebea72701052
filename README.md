# ProductHunt + AppSumo crawlers, modelled in Dafny

This project models the two crawl functions of the ProductHunt/AppSumo combo server and
proves properties about them.

- `crawlProductHunt(limit, topic)` (`ProductHunt.dfy`) turns the topic into a search
  keyword. It sends one GraphQL `posts` query with `first: limit` and that keyword.
  Then it does one of three things:
  - it throws when the response is not OK;
  - it returns `[]` when the body carries GraphQL `errors`;
  - otherwise it maps every returned post node to a record, filling the JavaScript
    `||` defaults (`"N/A"`, `0`, `"Unknown"`, a homepage built from the name slug),
    and returns `slice(0, limit)` of the records.
- `crawlAppSumo(categories, limit)` (`AppSumo.dfy`) lower-cases the first category. It
  fetches the search page for that topic (encoded with `encodeURIComponent`), or the
  browse page when there is no topic. It throws when the response is not OK. Otherwise
  it walks the matched product containers in document order. It stops once `limit`
  products are held, skips containers whose trimmed heading is empty, and builds each
  product from trimmed texts:
  - a resolved URL;
  - a price defaulting to `"Pricing unavailable"`;
  - reviews defaulting to `null`.
  It resolves to `{ products }`.

The JavaScript string primitives both crawlers rely on are modelled in `JsText.dfy`:
`\s` and `trim` whitespace, `toLowerCase`, the global replace of `&`, the
`replace(/\s+/g, "-")` collapse and `join`. `encodeURIComponent` is modelled in
`UriComponent.dfy`: UTF-8 followed by `%XX` escapes. `Wrappers.dfy` holds `Option`,
`Result` and the transport outcome `HttpOutcome`.

The network is not modelled. It is a parameter:
- `post: PostsQuery -> HttpOutcome<GraphQLBody>` receives the values the query
  interpolates and returns the decoded JSON body or the status text.
- `fetch: string -> HttpOutcome<seq<Candidate>>` receives the URL and returns the page
  already reduced to its candidate containers, or the status text.

The per-container loop is an imperative method, `CollectProducts`. It is proved equal
to a specification, `FirstNamed`: the first `limit` of the products built from the
named containers. Lemmas about `FirstNamed` state what the loop promises. Unnamed
containers never count against the limit. Named ones are appended in order until the
limit is reached. Every product is named, trimmed, priced and tagged `"AppSumo"`.

The keyword is never trimmed: edge whitespace becomes a `-`
(`TopicKeywordKeepsEdgeSpaces`).

## Model

| member | source | states |
|---|---|---|
| JsText.LowerChar | producthunt-crawler.js:13 | a capital becomes its own lower-case letter, every other character is unchanged, no ASCII capital is left, and whitespace stays whitespace |
| JsText.ToLower | producthunt-crawler.js:13 | `toLowerCase` keeps the length and lower-cases each character on its own |
| JsText.ToLowerResult | producthunt-crawler.js:13 | `toLowerCase` leaves no upper-case letter, keeps a whitespace-free string whitespace-free, and contains `&` exactly when its input does |
| JsText.ToLowerIdempotent | producthunt-crawler.js:13 | lower-casing twice is lower-casing once |
| JsText.ReplaceAll | producthunt-crawler.js:13 | `replace(/&/g, "and")` changes nothing in a string without `&` and never shortens |
| JsText.ReplaceAllOne | producthunt-crawler.js:13 | an `&` on its own becomes `"and"`; with ReplaceAllAppend and the no-`&` clause this determines the replacement |
| JsText.ReplaceAllChars | producthunt-crawler.js:13 | every character after the replacement comes from `"and"` or is a character of the input other than `&` |
| JsText.ReplaceAllAppend | producthunt-crawler.js:13 | the global replacement of a concatenation is the concatenation of the replacements |
| JsText.ReplaceAllFirst | producthunt-crawler.js:13 | a first character that is not `&` stays first |
| JsText.ReplaceAllLast | producthunt-crawler.js:13 | a last character that is not `&` stays last |
| JsText.CollapseSpaces | producthunt-crawler.js:13 | `replace(/\s+/g, "-")` is empty exactly when its input is, and never lengthens |
| JsText.CollapseSpacesNoSpace | producthunt-crawler.js:13 | no whitespace survives the collapse |
| JsText.CollapseSpaceRun | producthunt-crawler.js:13 | a whitespace run of any length becomes exactly one `-` |
| JsText.CollapseSpacesAppend | producthunt-crawler.js:13 | splitting the input anywhere but inside a whitespace run splits the output at the same place (runs are maximal and replaced independently) |
| JsText.CollapseSpacesFixesSpaceFree | producthunt-crawler.js:13 | a string without whitespace is unchanged |
| JsText.CollapseSpacesChars | producthunt-crawler.js:13 | the collapse introduces no character except `-` |
| JsText.CollapseSpacesFirst | producthunt-crawler.js:13 | the first character survives, or is `-` when it is whitespace (no trimming) |
| JsText.CollapseSpacesLast | producthunt-crawler.js:13 | the last character survives, or is `-` when it is whitespace (no trimming) |
| JsText.CollapseSpacesNoUpper | producthunt-crawler.js:76-78 | collapsing a lower-cased string keeps it free of capitals |
| JsText.Trim | combined-crawler.js:31-42 | `trim` never lengthens, and a non-empty result starts and ends with non-whitespace |
| JsText.TrimSpec | combined-crawler.js:31-42 | `trim` is empty exactly for all-whitespace input; otherwise it starts and ends with non-whitespace and is the infix of the input with only whitespace removed before and after it |
| JsText.TrimIdempotent | combined-crawler.js:31-42 | trimming twice is trimming once |
| JsText.TrimFixesTrimmed | combined-crawler.js:31-42 | a string with non-whitespace ends is its own trim |
| JsText.Join | producthunt-crawler.js:68-79 | `join(", ")` of no parts is `""`, of one part is that part, and starts with the first part |
| JsText.JoinAppend | producthunt-crawler.js:68-79 | joining two non-empty lists of parts puts exactly one separator between their joins, so every part appears in order with `", "` between neighbours |
| UriComponent.Utf8 | combined-crawler.js:12 | a character encodes to one to four bytes, and to its own code exactly when it is ASCII |
| UriComponent.EncodeUriComponent | combined-crawler.js:12 | `encodeURIComponent` emits only unreserved characters and `%`, never shortens, and leaves an all-unreserved string unchanged |
| UriComponent.DecodeEncode | combined-crawler.js:12 | percent-decoding the encoding gives back exactly the UTF-8 bytes of the input |
| ProductHunt.TopicKeyword | producthunt-crawler.js:12-14 | the keyword is empty exactly when the topic is absent or empty |
| ProductHunt.TopicKeywordShape | producthunt-crawler.js:12-14 | the keyword holds no `&`, no whitespace and no upper-case letter |
| ProductHunt.TopicKeywordIdempotent | producthunt-crawler.js:12-14 | normalising a keyword again changes nothing |
| ProductHunt.TopicKeywordKeepsEdgeSpaces | producthunt-crawler.js:12-14 | leading or trailing whitespace of the topic becomes a `-` at the same end of the keyword |
| ProductHunt.QueryFor | producthunt-crawler.js:17-19 | the query asks for `first: limit` items, and its keyword is the normalised topic, with no whitespace, `&` or capital |
| ProductHunt.PostNodes | producthunt-crawler.js:59 | a missing link in `data?.data?.posts?.edges` gives no nodes; otherwise one node per edge, in order |
| ProductHunt.MakerLink | producthunt-crawler.js:68-70 | each maker becomes an `<a href=…>` link |
| ProductHunt.RatingOrDefault | producthunt-crawler.js:65 | the rating is `"N/A"` exactly when `reviewsRating` is absent or 0, and otherwise that score |
| ProductHunt.ReviewsCountOrDefault | producthunt-crawler.js:66 | the count is 0 exactly when `reviewsCount` is absent or 0, and otherwise that count |
| ProductHunt.Founders | producthunt-crawler.js:67-71 | founders are `"Unknown"` exactly when `makers` is absent or empty; otherwise they are every maker's link, in order, joined with `", "` |
| ProductHunt.FoundersAppend | producthunt-crawler.js:67-71 | one more maker adds `", "` and that maker's link at the end of the founders string |
| ProductHunt.Slug | producthunt-crawler.js:76-78 | the post slug has no whitespace and no capitals, and is empty exactly when the name is |
| ProductHunt.Homepage | producthunt-crawler.js:74-78 | the homepage is a non-empty `url` when there is one, otherwise the posts URL followed by a whitespace-free slug |
| ProductHunt.FormatNode | producthunt-crawler.js:61-84 | each record copies the node's fields, applies the `||` defaults exactly when the field is falsy and otherwise keeps the score, the count and the joined maker links, joins the topic names and is tagged `"Product Hunt"` |
| ProductHunt.SliceTo | producthunt-crawler.js:87 | `slice(0, limit)` is a prefix: `min(limit, n)` items for a non-negative limit, and `n + limit` (at least 0) for a negative one |
| ProductHunt.CrawlProductHunt | producthunt-crawler.js:49-87 | fails exactly when the response is not OK, with the status text in the message; `errors` or a missing edge list gives `[]`; otherwise the i-th record is the formatted i-th node and the length follows `slice(0, limit)`; every record is tagged `"Product Hunt"` |
| AppSumo.Topic | combined-crawler.js:10 | there is no topic exactly when there is no first category or it is empty; otherwise the topic is that category lower-cased, character by character |
| AppSumo.SearchUrl | combined-crawler.js:11-13 | no topic gives the browse page; a topic gives the search URL whose parameter holds only unreserved characters and escapes and decodes to the topic's UTF-8 bytes |
| AppSumo.BrowseExactlyWithoutCategory | combined-crawler.js:10-13 | the browse page is fetched exactly when there is no usable first category |
| AppSumo.ResolveUrl | combined-crawler.js:33-36 | an `href` starting with `http` is kept; any other is prefixed with `https://appsumo.com` (a missing one gives `https://appsumo.comundefined`, as the template literal does); the result always starts with `http` |
| AppSumo.ResolveUrlIdempotent | combined-crawler.js:33-36 | resolving a resolved URL changes nothing |
| AppSumo.ToProduct | combined-crawler.js:31-52 | the pushed object has the trimmed heading as name and the trimmed paragraph as summary, the resolved `href` (an `http` URL) as url, the trimmed price or `"Pricing unavailable"`, the trimmed reviews or null, and source `"AppSumo"`; the name of a named container has no edge whitespace |
| AppSumo.PriceOrDefault | combined-crawler.js:37-49 | the price is the trimmed price text when that is non-empty, otherwise `"Pricing unavailable"`; it is never empty and has no edge whitespace |
| AppSumo.ReviewsOrNull | combined-crawler.js:42-50 | reviews are `null` exactly when the review text is all whitespace; otherwise they are the trimmed text |
| AppSumo.NamedProductsAppend | combined-crawler.js:28-54 | the named products of two runs of containers are those of each run, concatenated |
| AppSumo.NamedProductsShape | combined-crawler.js:31-52 | every named product has a non-empty trimmed name, a price, a URL starting with `http` and source `"AppSumo"` |
| AppSumo.FirstNamedShape | combined-crawler.js:26-58 | the same holds for every product the crawl returns |
| AppSumo.FirstNamedLength | combined-crawler.js:29 | at most `limit` products, none for a non-positive limit, and exactly `limit` when enough containers are named |
| AppSumo.UnnamedCandidateIgnored | combined-crawler.js:44 | a container with an empty trimmed heading, wherever it stands, changes nothing and does not count against the limit |
| AppSumo.NamedCandidateAppended | combined-crawler.js:29-53 | a named container after `limit` products changes nothing; before that it adds exactly its own product at the end |
| AppSumo.CollectProducts | combined-crawler.js:26-54 | the `.each` loop returns exactly the first `limit` products of the named containers, in document order |
| AppSumo.CrawlAppSumo | combined-crawler.js:9-58 | fetches the URL chosen from the first category; fails exactly when the response is not OK, with the status text in the message; otherwise resolves to `{ products }` with the collected products |

## Left out

- Network I/O: the GraphQL POST and the page GET are the parameters `post` and `fetch`. Headers, the API key, `response.json()` failing on a malformed body, and `response.text()` are not modelled.
- HTML parsing: cheerio, the container selectors `.css-1o9mv8n, .css-1cysf6l` and the inner selectors are not modelled. `fetch` returns each container's heading, paragraph, `href`, price and review texts directly.
- The GraphQL query text: only the interpolated `first` and `query` values are modelled (`PostsQuery`). The keyword is interpolated unescaped, and the effect of a `"` in it on the query is not modelled.
- Logging with `console.log` and `console.error`, and the local self-test blocks of both files.
- Default arguments (`limit = 10`, `topic = null`, `categories = []`): the model has no optional parameters, so a call that omits an argument is modelled with the default passed explicitly. `crawlProductHunt(10)` is `CrawlProductHunt(10, None, post)`, since `topic = null` is `None`. A `null` or `undefined` category list or first category reaches the browse page through `?.`, as `[]` does. Limits that are not numbers are not modelled; `limit` is an integer.
- JavaScript values of the wrong type are not modelled. Some of them make the code throw:
  - a truthy topic that is not a string (`toLowerCase` is not a function, producthunt-crawler.js:12-13);
  - a first category that is neither a string nor `null`/`undefined` (combined-crawler.js:10);
  - a `null` node name, when `node.url` is falsy (producthunt-crawler.js:75-77);
  - a node without `topics.edges` (producthunt-crawler.js:79).
- Other values of the wrong type do not throw, and are not modelled either:
  - a falsy topic that is not a string, such as `0` or `false`, gives the keyword `""`;
  - a `null` node name with a truthy `node.url` is copied into `name`;
  - a string passed as `categories` searches for its lower-cased first character;
  - a NaN rating is falsy and gives `"N/A"`.
- LowerChar: lower-cases ASCII letters only, while JavaScript's `toLowerCase` also maps non-ASCII capitals.
- EncodeUriComponent: JavaScript strings are UTF-16, and a category holding a lone surrogate (such as `"\ud800"` from a JSON body) makes `encodeURIComponent` throw a `URIError`, so `crawlAppSumo` rejects. A Dafny `string` holds only Unicode scalar values and cannot express that input, so this failure path is not modelled.
- server.js is not part of this model. This includes its routes, its call `crawlAppSumo(limit, topic)` with the arguments in the other order, and its import of a `crawlCombined` that does not exist.
