/** `crawlProductHunt(limit, topic)`: one GraphQL `posts` query for the normalised topic
    keyword, then every returned node mapped to a record with JavaScript-truthiness
    defaults, truncated to `limit`. The POST itself is the parameter `post`. */
module ProductHunt {
  import opened Wrappers
  import opened JsText

  const SOURCE := "Product Hunt"
  const NOT_AVAILABLE := "N/A"
  const UNKNOWN_FOUNDERS := "Unknown"
  const POSTS_URL := "https://www.producthunt.com/posts/"
  const PROFILE_URL := "https://www.producthunt.com/@"
  const FAILURE_PREFIX := "\U{274C} Product Hunt API failed: "

  // ----------------------------------------------------------------------------
  // The topic keyword

  /** `topic ? topic.toLowerCase().replace(/&/g, "and").replace(/\s+/g, "-") : ""`. */
  function TopicKeyword(topic: Option<string>): (k: string)
    ensures k == [] <==> topic.None? || topic.value == []
  {
    if topic.Some? && topic.value != [] then
      CollapseSpaces(ReplaceAll(ToLower(topic.value), '&', "and"))
    else []
  }

  /** The keyword holds no `&`, no whitespace and no upper-case ASCII letter. */
  lemma TopicKeywordShape(topic: Option<string>)
    ensures var k := TopicKeyword(topic);
      '&' !in k && NoSpace(k) && NoUpper(k)
  {
    if topic.Some? && topic.value != [] {
      var lower := ToLower(topic.value);
      ToLowerResult(topic.value);
      var replaced := ReplaceAll(lower, '&', "and");
      assert NoUpper(replaced) && '&' !in replaced by {
        forall i | 0 <= i < |replaced| ensures !IsUpperAscii(replaced[i]) && replaced[i] != '&' {
          ReplaceAllChars(lower, '&', "and", replaced[i]);
          if replaced[i] in lower {
            var j :| 0 <= j < |lower| && lower[j] == replaced[i];
          }
        }
      }
      var k := CollapseSpaces(replaced);
      CollapseSpacesNoSpace(replaced);
      if '&' in k {
        CollapseSpacesChars(replaced, '&');
      }
      CollapseSpacesNoUpper(replaced);
    }
  }

  /** Normalising a keyword again changes nothing. */
  lemma TopicKeywordIdempotent(topic: Option<string>)
    ensures TopicKeyword(Some(TopicKeyword(topic))) == TopicKeyword(topic)
  {
    var k := TopicKeyword(topic);
    if k != [] {
      TopicKeywordShape(topic);
      ToLowerFixesLowerCase(k);
      CollapseSpacesFixesSpaceFree(k);
    }
  }

  /** There is no trimming: whitespace at either end of the topic becomes a `-` at the
      same end of the keyword. */
  lemma TopicKeywordKeepsEdgeSpaces(t: string)
    requires t != []
    ensures var k := TopicKeyword(Some(t));
      k != [] &&
      (IsSpace(t[0]) ==> k[0] == '-') &&
      (IsSpace(t[|t| - 1]) ==> k[|k| - 1] == '-')
  {
    KeywordFirst(t);
    KeywordLast(t);
  }

  lemma KeywordFirst(t: string)
    requires t != []
    ensures var k := TopicKeyword(Some(t));
      k != [] && (IsSpace(t[0]) ==> k[0] == '-')
  {
    var replaced := ReplaceAll(ToLower(t), '&', "and");
    LowerReplacedFirst(t, replaced);
    CollapseSpacesFirst(replaced);
  }

  lemma KeywordLast(t: string)
    requires t != []
    ensures var k := TopicKeyword(Some(t));
      k != [] && (IsSpace(t[|t| - 1]) ==> k[|k| - 1] == '-')
  {
    var s := ReplaceAll(ToLower(t), '&', "and");
    LowerReplacedLast(t, s);
    CollapsedLastDash(t, s);
  }

  lemma CollapsedLastDash(t: string, s: string)
    requires t != [] && s != []
    requires IsSpace(t[|t| - 1]) ==> IsSpace(s[|s| - 1])
    ensures var k := CollapseSpaces(s);
      k != [] && (IsSpace(t[|t| - 1]) ==> k[|k| - 1] == '-')
  {
    CollapseSpacesLast(s);
  }

  /** Whitespace first in the topic is still first after lower-casing and replacing `&`. */
  lemma LowerReplacedFirst(t: string, r: string)
    requires t != [] && r == ReplaceAll(ToLower(t), '&', "and")
    ensures r != [] && (IsSpace(t[0]) ==> IsSpace(r[0]))
  {
    var lower := ToLower(t);
    assert lower[0] == LowerChar(t[0]);
    if IsSpace(lower[0]) {
      ReplaceAllFirst(lower, '&', "and");
    }
  }

  /** Whitespace last in the topic is still last after lower-casing and replacing `&`. */
  lemma LowerReplacedLast(t: string, r: string)
    requires t != [] && r == ReplaceAll(ToLower(t), '&', "and")
    ensures r != [] && (IsSpace(t[|t| - 1]) ==> IsSpace(r[|r| - 1]))
  {
    var lower := ToLower(t);
    assert lower[|t| - 1] == LowerChar(t[|t| - 1]);
    if IsSpace(lower[|t| - 1]) {
      ReplaceAllLast(lower, '&', "and");
    }
  }

  // ----------------------------------------------------------------------------
  // The query and the response

  /** The values interpolated into the `posts(order: NEWEST, first: …, query: "…")`
      query; the rest of the query text is fixed. */
  datatype PostsQuery = PostsQuery(first: int, query: string)

  /** `first: ${limit}` and `query: "${topicKeyword}"`: the limit goes to the API as is,
      and the keyword carries no whitespace, `&` or capital. */
  function QueryFor(limit: int, topic: Option<string>): (q: PostsQuery)
    ensures q.first == limit
    ensures q.query == TopicKeyword(topic)
    ensures '&' !in q.query && NoSpace(q.query) && NoUpper(q.query)
  {
    TopicKeywordShape(topic);
    PostsQuery(limit, TopicKeyword(topic))
  }

  datatype Maker = Maker(name: string, username: string)

  /** A post node as the API returns it; the fields the crawler tests for truthiness or
      reaches with `?.` are optional. `topicNames` are the names under `topics.edges`. */
  datatype Node = Node(
    name: string,
    tagline: string,
    votesCount: int,
    website: string,
    url: Option<string>,
    description: Option<string>,
    createdAt: string,
    reviewsRating: Option<real>,
    reviewsCount: Option<int>,
    makers: Option<seq<Maker>>,
    thumbnail: Option<string>,
    topicNames: seq<string>)

  datatype Edge = Edge(node: Node)
  datatype Posts = Posts(edges: Option<seq<Edge>>)
  datatype ResponseData = ResponseData(posts: Option<Posts>)

  /** The decoded JSON body: GraphQL `errors` (any present list is truthy, even an
      empty one) and `data`. */
  datatype GraphQLBody = GraphQLBody(errors: Option<seq<string>>, data: Option<ResponseData>)

  /** `data?.data?.posts?.edges`. */
  function Edges(body: GraphQLBody): Option<seq<Edge>> {
    if body.data.Some? && body.data.value.posts.Some? then body.data.value.posts.value.edges
    else None
  }

  /** `data?.data?.posts?.edges?.map(({ node }) => node) || []`. */
  function PostNodes(body: GraphQLBody): (nodes: seq<Node>)
    ensures Edges(body).None? ==> nodes == []
    ensures Edges(body).Some? ==>
      |nodes| == |Edges(body).value| &&
      forall i :: 0 <= i < |nodes| ==> nodes[i] == Edges(body).value[i].node
  {
    match Edges(body)
    case None => []
    case Some(edges) => seq(|edges|, i requires 0 <= i < |edges| => edges[i].node)
  }

  // ----------------------------------------------------------------------------
  // One record per node

  /** `rating` is the score, or the string "N/A". */
  datatype Rating = Score(value: real) | Label(text: string)

  datatype Record = Record(
    name: string,
    tagline: string,
    votes: int,
    rating: Rating,
    reviewsCount: int,
    founders: string,
    url: string,
    producthuntUrl: Option<string>,
    homepage: string,
    topics: string,
    description: Option<string>,
    thumbnail: Option<string>,
    launchDate: string,
    source: string)

  /** JavaScript truthiness of the optional values the crawler tests with `||`:
      `undefined`, `null`, `0` and `""` are falsy. */
  predicate IsTruthyNumber(x: Option<real>) { x.Some? && x.value != 0.0 }
  predicate IsTruthyCount(x: Option<int>) { x.Some? && x.value != 0 }
  predicate IsTruthyString(x: Option<string>) { x.Some? && x.value != [] }

  /** The HTML link built for one maker. */
  function MakerLink(m: Maker): (link: string)
    ensures "<a href=" <= link
  {
    "<a href=\"" + PROFILE_URL + m.username + "\" target=\"_blank\">" + m.name + "</a>"
  }

  function RatingOrDefault(reviewsRating: Option<real>): (r: Rating)
    ensures r == Label(NOT_AVAILABLE) <==> !IsTruthyNumber(reviewsRating)
    ensures r != Label(NOT_AVAILABLE) ==> r == Score(reviewsRating.value)
  {
    if IsTruthyNumber(reviewsRating) then Score(reviewsRating.value) else Label(NOT_AVAILABLE)
  }

  function ReviewsCountOrDefault(reviewsCount: Option<int>): (n: int)
    ensures n == 0 <==> !IsTruthyCount(reviewsCount)
    ensures n != 0 ==> reviewsCount == Some(n)
  {
    if IsTruthyCount(reviewsCount) then reviewsCount.value else 0
  }

  /** `makers?.map(link).join(", ") || "Unknown"`. */
  function Founders(makers: Option<seq<Maker>>): (f: string)
    ensures f == UNKNOWN_FOUNDERS <==> makers.None? || makers.value == []
    ensures makers.Some? && makers.value != [] ==> MakerLink(makers.value[0]) <= f
    ensures makers.Some? && makers.value != [] ==>
      f == Join(seq(|makers.value|, i requires 0 <= i < |makers.value| => MakerLink(makers.value[i])), ", ")
  {
    var joined := match makers
      case None => None
      case Some(ms) => Some(Join(seq(|ms|, i requires 0 <= i < |ms| => MakerLink(ms[i])), ", "));
    if IsTruthyString(joined) then
      assert joined.value[0] == '<';
      joined.value
    else UNKNOWN_FOUNDERS
  }

  /** One more maker adds `", "` and that maker's link to the end of the founders string,
      so every maker's link appears, in order. */
  lemma FoundersAppend(ms: seq<Maker>, m: Maker)
    requires ms != []
    ensures Founders(Some(ms + [m])) == Founders(Some(ms)) + ", " + MakerLink(m)
  {
    var all := ms + [m];
    var links := seq(|ms|, i requires 0 <= i < |ms| => MakerLink(ms[i]));
    var allLinks := seq(|all|, i requires 0 <= i < |all| => MakerLink(all[i]));
    assert allLinks == links + [MakerLink(m)];
    JoinAppend(links, [MakerLink(m)], ", ");
  }

  /** The slug of a post name: lower-cased, each whitespace run turned into `-`. */
  function Slug(name: string): (slug: string)
    ensures NoSpace(slug) && NoUpper(slug)
    ensures slug == [] <==> name == []
  {
    ToLowerResult(name);
    CollapseSpacesNoSpace(ToLower(name));
    CollapseSpacesNoUpper(ToLower(name));
    CollapseSpaces(ToLower(name))
  }

  /** `node.url || "https://www.producthunt.com/posts/" + slug`. */
  function Homepage(url: Option<string>, name: string): (h: string)
    ensures IsTruthyString(url) ==> h == url.value
    ensures !IsTruthyString(url) ==>
      POSTS_URL <= h && h[|POSTS_URL|..] == Slug(name) && NoSpace(h[|POSTS_URL|..])
  {
    if IsTruthyString(url) then url.value else POSTS_URL + Slug(name)
  }

  function FormatNode(node: Node): (r: Record)
    ensures r.source == SOURCE
    ensures r.name == node.name && r.tagline == node.tagline && r.votes == node.votesCount
    ensures r.url == node.website && r.producthuntUrl == node.url
    ensures r.launchDate == node.createdAt
    ensures r.description == node.description && r.thumbnail == node.thumbnail
    ensures r.rating == Label(NOT_AVAILABLE) <==> !IsTruthyNumber(node.reviewsRating)
    ensures r.reviewsCount == 0 <==> !IsTruthyCount(node.reviewsCount)
    ensures r.founders == UNKNOWN_FOUNDERS <==> node.makers.None? || node.makers.value == []
    ensures r.rating == RatingOrDefault(node.reviewsRating)
    ensures r.reviewsCount == ReviewsCountOrDefault(node.reviewsCount)
    ensures r.founders == Founders(node.makers)
    ensures IsTruthyString(node.url) ==> r.homepage == node.url.value
    ensures !IsTruthyString(node.url) ==> r.homepage == POSTS_URL + Slug(node.name)
    ensures r.topics == Join(node.topicNames, ", ")
  {
    Record(
      name := node.name,
      tagline := node.tagline,
      votes := node.votesCount,
      rating := RatingOrDefault(node.reviewsRating),
      reviewsCount := ReviewsCountOrDefault(node.reviewsCount),
      founders := Founders(node.makers),
      url := node.website,
      producthuntUrl := node.url,
      homepage := Homepage(node.url, node.name),
      topics := Join(node.topicNames, ", "),
      description := node.description,
      thumbnail := node.thumbnail,
      launchDate := node.createdAt,
      source := SOURCE)
  }

  // ----------------------------------------------------------------------------
  // The crawl

  /** `xs.slice(0, end)`: a negative end counts from the back. */
  function SliceTo<T>(xs: seq<T>, end: int): (r: seq<T>)
    ensures r <= xs
    ensures end >= 0 ==> |r| == Min(end, |xs|)
    ensures end < 0 ==> |r| == Max(0, |xs| + end)
  {
    if end >= 0 then (if end < |xs| then xs[..end] else xs)
    else if |xs| + end > 0 then xs[..|xs| + end] else []
  }

  function CrawlProductHunt(limit: int, topic: Option<string>,
                            post: PostsQuery -> HttpOutcome<GraphQLBody>)
    : (r: Result<seq<Record>, string>)
    ensures var outcome := post(QueryFor(limit, topic));
      (r.Failure? <==> outcome.NotOk?) &&
      (outcome.NotOk? ==> r.error == FAILURE_PREFIX + outcome.statusText)
    ensures var outcome := post(QueryFor(limit, topic));
      outcome.Ok? && (outcome.body.errors.Some? || Edges(outcome.body).None?) ==>
        r == Success([])
    ensures var outcome := post(QueryFor(limit, topic));
      outcome.Ok? && outcome.body.errors.None? && Edges(outcome.body).Some? ==>
        var edges := Edges(outcome.body).value;
        r.Success? &&
        |r.value| == (if limit >= 0 then Min(limit, |edges|) else Max(0, |edges| + limit)) &&
        forall i :: 0 <= i < |r.value| ==> r.value[i] == FormatNode(edges[i].node)
    ensures r.Success? ==> forall i :: 0 <= i < |r.value| ==> r.value[i].source == SOURCE
  {
    match post(QueryFor(limit, topic))
    case NotOk(statusText) => Failure(FAILURE_PREFIX + statusText)
    case Ok(body) =>
      if body.errors.Some? then Success([])
      else
        var nodes := PostNodes(body);
        var formatted := seq(|nodes|, i requires 0 <= i < |nodes| => FormatNode(nodes[i]));
        Success(SliceTo(formatted, limit))
  }
}
