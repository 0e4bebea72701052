/** `crawlAppSumo(categories, limit)`: fetch the search page for the first category (or the
    browse page), walk the matched product containers in document order and collect up
    to `limit` products whose trimmed name is non-empty. The GET is the parameter `fetch`;
    the page arrives already reduced to the candidate containers. */
module AppSumo {
  import opened Wrappers
  import opened JsText
  import opened UriComponent

  const SOURCE := "AppSumo"
  const ORIGIN := "https://appsumo.com"
  const BROWSE_URL := "https://appsumo.com/browse/"
  const SEARCH_URL := "https://appsumo.com/search/?q="
  const NO_PRICE := "Pricing unavailable"
  const FAILURE_PREFIX := "\U{274C} AppSumo request failed: "

  /** One container matched by `.css-1o9mv8n, .css-1cysf6l`, reduced to the raw texts the
      crawler reads from it: the first `h3`/`h2` heading, the first paragraph, the first
      anchor's `href` (absent when there is no anchor or no attribute), the first price
      element and the review elements. */
  datatype Candidate = Candidate(
    heading: string,
    paragraph: string,
    href: Option<string>,
    priceText: string,
    reviewText: string)

  datatype Product = Product(
    name: string,
    summary: string,
    url: string,
    price: string,
    reviews: Option<string>,
    source: string)

  /** The crawler resolves to `{ products }`, not to a bare array. */
  datatype CrawlResult = CrawlResult(products: seq<Product>)

  // ----------------------------------------------------------------------------
  // Topic and search URL

  /** `categories?.[0]?.toLowerCase() || null`. */
  function Topic(categories: seq<string>): (topic: Option<string>)
    ensures topic.None? <==> categories == [] || categories[0] == []
    ensures topic.Some? ==>
      |topic.value| == |categories[0]| && NoUpper(topic.value) &&
      forall i :: 0 <= i < |topic.value| ==> topic.value[i] == LowerChar(categories[0][i])
  {
    if categories == [] || categories[0] == [] then None
    else
      ToLowerResult(categories[0]);
      Some(ToLower(categories[0]))
  }

  /** The search page for a topic, the browse page without one. The encoded topic holds
      only unreserved characters and escapes, so it cannot end the `q` parameter, and it
      decodes back to the topic's UTF-8 bytes. */
  function SearchUrl(topic: Option<string>): (url: string)
    ensures topic.None? ==> url == BROWSE_URL
    ensures topic.Some? ==>
      SEARCH_URL <= url &&
      PercentDecode(url[|SEARCH_URL|..]) == Utf8String(topic.value) &&
      forall i :: |SEARCH_URL| <= i < |url| ==> IsUnreserved(url[i]) || url[i] == '%'
  {
    match topic
    case None => BROWSE_URL
    case Some(t) =>
      var url := SEARCH_URL + EncodeUriComponent(t);
      assert url[|SEARCH_URL|..] == EncodeUriComponent(t);
      DecodeEncode(t);
      url
  }

  /** The browse page is fetched exactly when there is no first category or it is empty. */
  lemma BrowseExactlyWithoutCategory(categories: seq<string>)
    ensures SearchUrl(Topic(categories)) == BROWSE_URL <==> categories == [] || categories[0] == []
  {
    var url := SearchUrl(Topic(categories));
    if Topic(categories).Some? {
      assert url[20] == SEARCH_URL[20] == 's';
      assert BROWSE_URL[20] == 'b';
    }
  }

  // ----------------------------------------------------------------------------
  // One product per named candidate

  /** `href?.startsWith("http") ? href : "https://appsumo.com" + href`; a missing `href`
      is interpolated as the text "undefined". */
  function ResolveUrl(href: Option<string>): (url: string)
    ensures "http" <= url
    ensures href.Some? && "http" <= href.value ==> url == href.value
    ensures href.Some? && !("http" <= href.value) ==> url == ORIGIN + href.value
    ensures href.None? ==> url == ORIGIN + "undefined"
  {
    if href.Some? && "http" <= href.value then href.value
    else
      var tail := if href.Some? then href.value else "undefined";
      assert (ORIGIN + tail)[..4] == "http";
      ORIGIN + tail
  }

  /** An already resolved URL is kept. */
  lemma ResolveUrlIdempotent(href: Option<string>)
    ensures ResolveUrl(Some(ResolveUrl(href))) == ResolveUrl(href)
  {
  }

  /** `price || "Pricing unavailable"` on the trimmed price text. */
  function PriceOrDefault(priceText: string): (price: string)
    ensures price != [] && !IsSpace(price[0]) && !IsSpace(price[|price| - 1])
    ensures Trim(priceText) != [] ==> price == Trim(priceText)
    ensures Trim(priceText) == [] ==> price == NO_PRICE
  {
    var p := Trim(priceText);
    TrimSpec(priceText);
    if p != [] then p else NO_PRICE
  }

  /** `reviews || null` on the trimmed review text. */
  function ReviewsOrNull(reviewText: string): (reviews: Option<string>)
    ensures reviews.None? <==> forall i :: 0 <= i < |reviewText| ==> IsSpace(reviewText[i])
    ensures reviews.Some? ==> reviews.value == Trim(reviewText)
  {
    var r := Trim(reviewText);
    TrimSpec(reviewText);
    if r != [] then Some(r) else None
  }

  predicate HasName(c: Candidate) {
    Trim(c.heading) != []
  }

  /** The object pushed for a container: trimmed name and summary, resolved URL, price
      and reviews with their defaults, source "AppSumo". */
  function ToProduct(c: Candidate): (p: Product)
    ensures p.source == SOURCE && p.price != [] && "http" <= p.url
    ensures p.name == Trim(c.heading) && p.summary == Trim(c.paragraph)
    ensures p.url == ResolveUrl(c.href)
    ensures p.price == PriceOrDefault(c.priceText) && p.reviews == ReviewsOrNull(c.reviewText)
    ensures HasName(c) ==> p.name != [] && !IsSpace(p.name[0]) && !IsSpace(p.name[|p.name| - 1])
  {
    TrimSpec(c.heading);
    Product(Trim(c.heading), Trim(c.paragraph), ResolveUrl(c.href),
            PriceOrDefault(c.priceText), ReviewsOrNull(c.reviewText), SOURCE)
  }

  // ----------------------------------------------------------------------------
  // The specification of the collect loop

  /** `f` applied to the elements of `xs` that satisfy `keep`, in order. */
  function FilterMap<A, B>(xs: seq<A>, keep: A -> bool, f: A -> B): (ys: seq<B>)
    ensures |ys| <= |xs|
  {
    if xs == [] then []
    else (if keep(xs[0]) then [f(xs[0])] else []) + FilterMap(xs[1..], keep, f)
  }

  lemma {:induction false} FilterMapAppend<A, B>(a: seq<A>, b: seq<A>, keep: A -> bool, f: A -> B)
    ensures FilterMap(a + b, keep, f) == FilterMap(a, keep, f) + FilterMap(b, keep, f)
  {
    if a == [] {
      assert a + b == b;
    } else {
      var ab := a + b;
      assert ab[0] == a[0];
      assert ab[1..] == a[1..] + b;
      FilterMapAppend(a[1..], b, keep, f);
      var head := if keep(a[0]) then [f(a[0])] else [];
      assert FilterMap(ab, keep, f) == head + FilterMap(a[1..] + b, keep, f);
      assert FilterMap(a, keep, f) == head + FilterMap(a[1..], keep, f);
    }
  }

  lemma FilterMapSingle<A, B>(x: A, keep: A -> bool, f: A -> B)
    ensures FilterMap([x], keep, f) == if keep(x) then [f(x)] else []
  {
    assert [x][1..] == [];
  }

  lemma FilterMapSkip<A, B>(a: seq<A>, x: A, b: seq<A>, keep: A -> bool, f: A -> B)
    requires !keep(x)
    ensures FilterMap(a + [x] + b, keep, f) == FilterMap(a + b, keep, f)
  {
    FilterMapAppend(a + [x], b, keep, f);
    FilterMapAppend(a, [x], keep, f);
    FilterMapAppend(a, b, keep, f);
    FilterMapSingle(x, keep, f);
  }

  /** One product per candidate with a non-empty trimmed name, in document order. */
  function NamedProducts(candidates: seq<Candidate>): seq<Product> {
    FilterMap(candidates, HasName, ToProduct)
  }

  /** The first `limit` of them; none when `limit` is not positive. */
  function FirstNamed(candidates: seq<Candidate>, limit: int): seq<Product> {
    var named := NamedProducts(candidates);
    named[..Min(Max(limit, 0), |named|)]
  }

  lemma NamedProductsAppend(a: seq<Candidate>, b: seq<Candidate>)
    ensures NamedProducts(a + b) == NamedProducts(a) + NamedProducts(b)
  {
    FilterMapAppend(a, b, HasName, ToProduct);
  }

  /** What every collected product looks like: a non-empty name without edge whitespace,
      a price, an `http` URL and the source "AppSumo". */
  predicate WellFormed(p: Product) {
    p.name != [] && !IsSpace(p.name[0]) && !IsSpace(p.name[|p.name| - 1]) &&
    p.source == SOURCE && p.price != [] && "http" <= p.url
  }

  /** A property `f` gives every kept element holds of everything FilterMap returns. */
  lemma {:induction false} FilterMapAll<A, B>(xs: seq<A>, keep: A -> bool, f: A -> B, P: B -> bool)
    requires forall x :: keep(x) ==> P(f(x))
    ensures forall y :: y in FilterMap(xs, keep, f) ==> P(y)
  {
    if xs != [] {
      FilterMapAll(xs[1..], keep, f, P);
    }
  }

  /** Every collected product is named, trimmed, tagged "AppSumo" and priced. */
  lemma NamedProductsShape(candidates: seq<Candidate>)
    ensures forall p :: p in NamedProducts(candidates) ==> WellFormed(p)
  {
    FilterMapAll(candidates, HasName, ToProduct, WellFormed);
  }

  /** The same holds of every product the crawler returns. */
  lemma FirstNamedShape(candidates: seq<Candidate>, limit: int)
    ensures forall p :: p in FirstNamed(candidates, limit) ==> WellFormed(p)
  {
    NamedProductsShape(candidates);
    var named := NamedProducts(candidates);
    var first := FirstNamed(candidates, limit);
    forall p | p in first ensures p in named {
      var j :| 0 <= j < |first| && first[j] == p;
      assert named[j] == p;
    }
  }

  /** The result holds at most `limit` products, none when `limit` is not positive, and
      as many as `limit` allows when there are enough named candidates. */
  lemma FirstNamedLength(candidates: seq<Candidate>, limit: int)
    ensures |FirstNamed(candidates, limit)| <= Max(limit, 0)
    ensures limit <= 0 ==> FirstNamed(candidates, limit) == []
    ensures |FirstNamed(candidates, limit)| == Min(Max(limit, 0), |NamedProducts(candidates)|)
    ensures FirstNamed(candidates, limit) <= NamedProducts(candidates)
  {
  }

  /** A candidate without a name is skipped and does not count against the limit,
      wherever it stands. */
  lemma UnnamedCandidateIgnored(a: seq<Candidate>, c: Candidate, b: seq<Candidate>, limit: int)
    requires !HasName(c)
    ensures FirstNamed(a + [c] + b, limit) == FirstNamed(a + b, limit)
  {
    FilterMapSkip(a, c, b, HasName, ToProduct);
  }

  /** A named candidate after `limit` named ones changes nothing; before that it is the
      next product. */
  lemma NamedCandidateAppended(a: seq<Candidate>, c: Candidate, limit: int)
    requires HasName(c)
    ensures |NamedProducts(a)| >= limit ==> FirstNamed(a + [c], limit) == FirstNamed(a, limit)
    ensures |NamedProducts(a)| < limit ==> FirstNamed(a + [c], limit) == FirstNamed(a, limit) + [ToProduct(c)]
  {
    FilterMapAppend(a, [c], HasName, ToProduct);
    FilterMapSingle(c, HasName, ToProduct);
    var named := NamedProducts(a);
    assert NamedProducts(a + [c]) == named + [ToProduct(c)];
    if |named| < limit {
      assert FirstNamed(a, limit) == named;
      assert FirstNamed(a + [c], limit) == named + [ToProduct(c)];
    }
  }

  /** The products collected from a prefix of the candidates are the whole result once
      the prefix is the whole page or has reached the limit. */
  lemma CollectedAll(candidates: seq<Candidate>, i: nat, limit: int)
    requires i <= |candidates|
    requires |NamedProducts(candidates[..i])| <= Max(limit, 0)
    requires i == |candidates| || |NamedProducts(candidates[..i])| >= limit
    ensures FirstNamed(candidates, limit) == NamedProducts(candidates[..i])
  {
    assert candidates == candidates[..i] + candidates[i..];
    NamedProductsAppend(candidates[..i], candidates[i..]);
  }

  lemma NamedProductsStep(candidates: seq<Candidate>, i: nat)
    requires i < |candidates|
    ensures NamedProducts(candidates[..i + 1]) ==
      NamedProducts(candidates[..i]) +
      (if HasName(candidates[i]) then [ToProduct(candidates[i])] else [])
  {
    var c := candidates[i];
    assert candidates[..i + 1] == candidates[..i] + [c];
    FilterMapAppend(candidates[..i], [c], HasName, ToProduct);
    FilterMapSingle(c, HasName, ToProduct);
  }

  /** The `.each` loop: a candidate is read only while fewer than `limit` products are
      held (`return false` ends the walk), and pushed when its trimmed name is non-empty. */
  method CollectProducts(candidates: seq<Candidate>, limit: int) returns (products: seq<Product>)
    ensures products == FirstNamed(candidates, limit)
  {
    products := [];
    var i := 0;
    while i < |candidates|
      invariant 0 <= i <= |candidates|
      invariant products == NamedProducts(candidates[..i])
      invariant |products| <= Max(limit, 0)
    {
      if |products| >= limit {
        break;
      }
      var c := candidates[i];
      var name := Trim(c.heading);
      if name != [] {
        products := products + [ToProduct(c)];
      }
      NamedProductsStep(candidates, i);
      i := i + 1;
    }
    CollectedAll(candidates, i, limit);
  }

  method CrawlAppSumo(categories: seq<string>, limit: int,
                      fetch: string -> HttpOutcome<seq<Candidate>>)
    returns (r: Result<CrawlResult, string>)
    ensures fetch(SearchUrl(Topic(categories))).NotOk? ==>
      r == Failure(FAILURE_PREFIX + fetch(SearchUrl(Topic(categories))).statusText)
    ensures fetch(SearchUrl(Topic(categories))).Ok? ==>
      r == Success(CrawlResult(FirstNamed(fetch(SearchUrl(Topic(categories))).body, limit)))
  {
    var topic := Topic(categories);
    var searchUrl := SearchUrl(topic);
    var res := fetch(searchUrl);
    if res.NotOk? {
      return Failure(FAILURE_PREFIX + res.statusText);
    }
    var products := CollectProducts(res.body, limit);
    return Success(CrawlResult(products));
  }
}
