/**
  The `search_features` tool: fetch every page of `/features`, then keep the
  features whose name (and, on request, whose description) contains the
  query, ignoring case.

  The HTTP client is replaced by the list of decoded responses it returns,
  in the order they are requested; asking for more responses than the list
  holds is `FetchFailed`. A JavaScript `TypeError` is `TypeError`.
 */
module FeatureSearch {
  import opened JsonValues
  import opened Text
  import opened Rewrite
  import opened Lists

  /** The first page requested. */
  const StartUrl := "/features?pageLimit=1000"

  /** The page size that makes the loop ask for the next page. */
  const PageSize := 1000

  datatype SearchError = TypeError | FetchFailed

  /** What is passed to the client: the start path, or the `links.next` of the previous page. */
  datatype Request = Path(path: string) | NextOf(link: Json)

  /** The features gathered by the fetch loop and the requests it made. */
  datatype Crawl = Crawl(features: seq<Json>, requests: seq<Request>)

  /** JavaScript truthiness of a decoded JSON value. */
  predicate Truthy(v: Json)
  {
    match v
    case Null => false
    case Bool(b) => b
    case Num(n) => n != 0
    case Str(s) => s != ""
    case _ => true
  }

  /** `v.key` on a value that is neither null nor undefined; `None` is undefined. */
  function Prop(v: Json, key: string): (r: Option<Json>)
    ensures r.Some? ==> v.Obj? && HasKey(v.fields, key)
  {
    if v.Obj? then Lookup(v.fields, key) else None
  }

  /** `response.links?.next` on a response that is not null. */
  function NextLink(response: Json): Option<Json>
  {
    match Prop(response, "links")
    case None => None
    case Some(links) => if links.Null? then None else Prop(links, "next")
  }

  /** The `links.next` value followed after `response`, or null when there is none. */
  function NextTarget(response: Json): Json
  {
    match NextLink(response)
    case Some(v) => v
    case None => Null
  }

  /** `data.length === n` on a value that is neither null nor undefined. */
  predicate LengthIs(data: Json, n: nat)
  {
    match data
    case Arr(items) => |items| == n
    case Str(s) => |s| == n
    case Obj(fs) => Lookup(fs, "length") == Some(Num(n))
    case _ => false
  }

  /** The features a response contributes: its `data` when that is an array. */
  function PageData(response: Json): seq<Json>
  {
    match Prop(response, "data")
    case Some(Arr(items)) => items
    case _ => []
  }

  /**
    Whether the loop requests another page, given the `data` and the
    `links.next` of a response that is not null: the page must carry a
    truthy next link and a `data` of length 1000. Reading the length of a
    missing or null `data` throws, but only when a next link is present.
   */
  function Decide(data: Option<Json>, next: Option<Json>): Result<bool, SearchError>
  {
    if !(next.Some? && Truthy(next.value)) then Ok(false)
    else if data.None? || data.value.Null? then Err(TypeError)
    else Ok(LengthIs(data.value, PageSize))
  }

  /** The decision after `response`; reading `data` of a null response throws. */
  function Continues(response: Json): Result<bool, SearchError>
  {
    if response.Null? then Err(TypeError)
    else Decide(Prop(response, "data"), NextLink(response))
  }

  /** The request that fetches response `i`. */
  function RequestFor(responses: seq<Json>, i: nat): Request
    requires i <= |responses|
  {
    if i == 0 then Path(StartUrl) else NextOf(NextTarget(responses[i - 1]))
  }

  /** What the loop takes from one response: whether to go on, its features, and the request that fetched it. */
  datatype Page = Page(decision: Result<bool, SearchError>, data: seq<Json>, request: Request)

  function PageAt(responses: seq<Json>, i: nat): (p: Page)
    requires i < |responses|
    ensures p.decision == Continues(responses[i])
    ensures p.data == PageData(responses[i])
    ensures p.request == RequestFor(responses, i)
  {
    Page(Continues(responses[i]), PageData(responses[i]), RequestFor(responses, i))
  }

  function Pages(responses: seq<Json>): (ps: seq<Page>)
    ensures |ps| == |responses|
  {
    seq(|responses|, i requires 0 <= i < |responses| => PageAt(responses, i))
  }

  /** `r` with `features` and `requests` put in front of what it gathered. */
  function After(features: seq<Json>, requests: seq<Request>, r: Result<Crawl, SearchError>): Result<Crawl, SearchError>
  {
    match r
    case Err(e) => Err(e)
    case Ok(c) => Ok(Crawl(features + c.features, requests + c.requests))
  }

  /** The outcome of the fetch loop once it has reached page `i`. */
  function CrawlOver(ps: seq<Page>, i: nat): (r: Result<Crawl, SearchError>)
    requires i <= |ps|
    ensures r.Ok? ==> 1 <= |r.value.requests| <= |ps| - i
    ensures r.Ok? ==> r.value.requests[0] == ps[i].request
    decreases |ps| - i
  {
    if i == |ps| then Err(FetchFailed)
    else
      match ps[i].decision
      case Err(e) => Err(e)
      case Ok(more) =>
        if !more then Ok(Crawl(ps[i].data, [ps[i].request]))
        else After(ps[i].data, [ps[i].request], CrawlOver(ps, i + 1))
  }

  /** The outcome of the whole fetch loop. */
  function FetchAll(responses: seq<Json>): Result<Crawl, SearchError>
  {
    CrawlOver(Pages(responses), 0)
  }

  lemma AfterNothing(r: Result<Crawl, SearchError>)
    ensures After([], [], r) == r
  {
    if r.Ok? {
      assert [] + r.value.features == r.value.features;
      assert [] + r.value.requests == r.value.requests;
    }
  }

  lemma AfterAfter(f1: seq<Json>, q1: seq<Request>, f2: seq<Json>, q2: seq<Request>, r: Result<Crawl, SearchError>)
    ensures After(f1, q1, After(f2, q2, r)) == After(f1 + f2, q1 + q2, r)
  {
    if r.Ok? {
      assert f1 + (f2 + r.value.features) == (f1 + f2) + r.value.features;
      assert q1 + (q2 + r.value.requests) == (q1 + q2) + r.value.requests;
    }
  }

  /** One turn of the loop, read off the crawl from page `i`. */
  lemma CrawlStep(responses: seq<Json>, i: nat)
    requires i < |responses|
    ensures CrawlOver(Pages(responses), i) ==
      match Continues(responses[i])
      case Err(e) => Err(e)
      case Ok(more) =>
        if !more then Ok(Crawl(PageData(responses[i]), [RequestFor(responses, i)]))
        else After(PageData(responses[i]), [RequestFor(responses, i)], CrawlOver(Pages(responses), i + 1))
  {
    assert Pages(responses)[i] == PageAt(responses, i);
  }

  /** The `while (nextUrl)` loop, which gathers the features of every page. */
  method FetchAllFeatures(responses: seq<Json>) returns (r: Result<Crawl, SearchError>)
    ensures r == FetchAll(responses)
  {
    ghost var ps := Pages(responses);
    ghost var outcome := FetchAll(responses);
    var allFeatures: seq<Json> := [];
    var requests: seq<Request> := [];
    var nextUrl: Option<Request> := Some(Path(StartUrl));
    var i := 0;
    AfterNothing(CrawlOver(ps, 0));
    while nextUrl.Some?
      invariant i <= |responses|
      invariant nextUrl.Some? ==> nextUrl.value == RequestFor(responses, i)
      invariant nextUrl.Some? ==> outcome == After(allFeatures, requests, CrawlOver(ps, i))
      invariant nextUrl.None? ==> outcome == Ok(Crawl(allFeatures, requests))
      decreases |responses| - i, nextUrl.Some?
    {
      if i == |responses| {
        return Err(FetchFailed);
      }
      var response := responses[i];
      CrawlStep(responses, i);
      ghost var before := (allFeatures, requests);
      allFeatures := allFeatures + PageData(response);
      requests := requests + [nextUrl.value];
      match Continues(response)
      case Err(e) =>
        return Err(e);
      case Ok(more) =>
        if more {
          AfterAfter(before.0, before.1, PageData(response), [nextUrl.value], CrawlOver(ps, i + 1));
          nextUrl := Some(NextOf(NextTarget(response)));
        } else {
          nextUrl := None;
        }
      i := i + 1;
    }
    r := Ok(Crawl(allFeatures, requests));
  }

  /** The pages `i` up to `j` all ask for a next page. */
  predicate ContinueThrough(ps: seq<Page>, i: nat, j: nat)
    requires i <= j <= |ps|
  {
    forall m :: i <= m < j ==> ps[m].decision == Ok(true)
  }

  /** The features of pages `i` up to `j`, joined in order. */
  function DataBetween(ps: seq<Page>, i: nat, j: nat): seq<Json>
    requires i <= j <= |ps|
    decreases j - i
  {
    if i == j then [] else ps[i].data + DataBetween(ps, i + 1, j)
  }

  /** The requests that fetched pages `i` up to `j`. */
  function RequestsBetween(ps: seq<Page>, i: nat, j: nat): (rs: seq<Request>)
    requires i <= j <= |ps|
    ensures |rs| == j - i
  {
    seq(j - i, m requires 0 <= m < j - i => ps[i + m].request)
  }

  /**
    The loop stops after page `k - 1` when pages `i` up to `k - 1` ask for a
    next page and page `k - 1` does not; it then holds the features of
    those pages in order.
   */
  lemma {:induction false} CrawlStops(ps: seq<Page>, i: nat, k: nat)
    requires i < k <= |ps|
    requires ContinueThrough(ps, i, k - 1) && ps[k - 1].decision == Ok(false)
    ensures CrawlOver(ps, i) == Ok(Crawl(DataBetween(ps, i, k), RequestsBetween(ps, i, k)))
    decreases k - i
  {
    if i == k - 1 {
      assert DataBetween(ps, i + 1, k) == [];
      assert DataBetween(ps, i, k) == ps[i].data;
      assert RequestsBetween(ps, i, k) == [ps[i].request];
      assert CrawlOver(ps, i) == Ok(Crawl(ps[i].data, [ps[i].request]));
    } else {
      CrawlStops(ps, i + 1, k);
      assert RequestsBetween(ps, i, k) == [ps[i].request] + RequestsBetween(ps, i + 1, k);
    }
  }

  /** The first page whose check throws decides the error. */
  lemma {:induction false} CrawlThrows(ps: seq<Page>, i: nat, k: nat)
    requires i < k <= |ps|
    requires ContinueThrough(ps, i, k - 1) && ps[k - 1].decision.Err?
    ensures CrawlOver(ps, i) == Err(ps[k - 1].decision.error)
    decreases k - i
  {
    if i < k - 1 {
      CrawlThrows(ps, i + 1, k);
    }
  }

  /** When every page asks for another, the client is eventually asked for one it cannot give. */
  lemma {:induction false} CrawlRunsOut(ps: seq<Page>, i: nat)
    requires i <= |ps| && ContinueThrough(ps, i, |ps|)
    ensures CrawlOver(ps, i) == Err(FetchFailed)
    decreases |ps| - i
  {
    if i < |ps| {
      CrawlRunsOut(ps, i + 1);
    }
  }

  /** Conversely, a finished crawl stopped for the reason `CrawlStops` gives. */
  lemma {:induction false} CrawlShape(ps: seq<Page>, i: nat)
    requires i <= |ps| && CrawlOver(ps, i).Ok?
    ensures var k := i + |CrawlOver(ps, i).value.requests|;
      && k <= |ps|
      && ContinueThrough(ps, i, k - 1)
      && ps[k - 1].decision == Ok(false)
      && CrawlOver(ps, i).value == Crawl(DataBetween(ps, i, k), RequestsBetween(ps, i, k))
    decreases |ps| - i
  {
    if ps[i].decision == Ok(true) {
      CrawlShape(ps, i + 1);
      var k := i + |CrawlOver(ps, i).value.requests|;
      CrawlStops(ps, i, k);
    } else {
      CrawlStops(ps, i, i + 1);
    }
  }

  /** A response carrying a full page of 1000 features and a next link. */
  predicate FullPage(response: Json)
  {
    && Prop(response, "data").Some? && Prop(response, "data").value.Arr?
    && |Prop(response, "data").value.items| == PageSize
    && NextLink(response).Some? && Truthy(NextLink(response).value)
  }

  /** A response carrying fewer than 1000 features. */
  predicate ShortPage(response: Json)
  {
    Prop(response, "data").Some? && Prop(response, "data").value.Arr?
    && |Prop(response, "data").value.items| < PageSize
  }

  lemma FullPageContinues(response: Json)
    requires FullPage(response)
    ensures Continues(response) == Ok(true)
  {
  }

  lemma ShortPageStops(response: Json)
    requires ShortPage(response)
    ensures Continues(response) == Ok(false)
  {
  }

  /** Without a truthy next link, a response that is not null ends the loop, whatever its `data`. */
  lemma NoNextLinkStops(response: Json)
    requires !response.Null?
    requires NextLink(response).None? || !Truthy(NextLink(response).value)
    ensures Continues(response) == Ok(false)
  {
  }

  /** Another page is requested exactly when the response has a truthy next link and a `data` of length 1000. */
  lemma ContinuesExactly(response: Json)
    ensures Continues(response) == Ok(true) <==>
      && !response.Null? && NextLink(response).Some? && Truthy(NextLink(response).value)
      && Prop(response, "data").Some? && LengthIs(Prop(response, "data").value, PageSize)
  {
  }

  /**
    With `k - 1` full pages and then a short one, the loop fetches exactly
    `k` times, first the start path and then each page's next link, and
    keeps the data of those pages in order.
   */
  lemma {:induction false} FullPagesThenShortPage(responses: seq<Json>, k: nat)
    requires 1 <= k <= |responses|
    requires forall m :: 0 <= m < k - 1 ==> FullPage(responses[m])
    requires ShortPage(responses[k - 1])
    ensures FetchAll(responses).Ok?
    ensures |FetchAll(responses).value.requests| == k
    ensures FetchAll(responses).value.requests[0] == Path(StartUrl)
    ensures forall m :: 0 < m < k ==> FetchAll(responses).value.requests[m] == NextOf(NextTarget(responses[m - 1]))
    ensures FetchAll(responses).value.features == DataBetween(Pages(responses), 0, k)
  {
    var ps := Pages(responses);
    forall m | 0 <= m < k - 1 ensures ps[m].decision == Ok(true) {
      FullPageContinues(responses[m]);
      assert ps[m] == PageAt(responses, m);
    }
    ShortPageStops(responses[k - 1]);
    assert ps[k - 1] == PageAt(responses, k - 1);
    CrawlStops(ps, 0, k);
    var rs := RequestsBetween(ps, 0, k);
    forall m | 0 < m < k ensures rs[m] == NextOf(NextTarget(responses[m - 1])) {
      assert ps[m] == PageAt(responses, m);
    }
  }

  /** A page with a next link but no `data` makes `response.data.length` throw. */
  lemma {:induction false} NextWithoutDataThrows(responses: seq<Json>, k: nat)
    requires 1 <= k <= |responses|
    requires ContinueThrough(Pages(responses), 0, k - 1)
    requires responses[k - 1].Obj? && !HasKey(responses[k - 1].fields, "data")
    requires NextLink(responses[k - 1]).Some? && Truthy(NextLink(responses[k - 1]).value)
    ensures FetchAll(responses) == Err(TypeError)
  {
    var ps := Pages(responses);
    assert ps[k - 1] == PageAt(responses, k - 1);
    CrawlThrows(ps, 0, k);
  }

  // ---------------------------------------------------------------------------
  // Matching
  // ---------------------------------------------------------------------------

  /** `description.replace(/<[^>]*>/g, '')`. */
  function StripTags(d: string): string
  {
    Replace(LooseTag, d)
  }

  /** `feature.name?.toLowerCase().includes(term)`. */
  function NameMatch(feature: Json, term: string): Result<bool, SearchError>
  {
    if feature.Null? then Err(TypeError)
    else
      match Prop(feature, "name")
      case None => Ok(false)
      case Some(name) =>
        if name.Null? then Ok(false)
        else if name.Str? then Ok(Contains(LowerString(name.s), term))
        else Err(TypeError)
  }

  /** The description test, made only when `searchDescriptions` is set and the description is truthy. */
  function DescriptionMatch(feature: Json, term: string, searchDescriptions: bool): Result<bool, SearchError>
  {
    if !searchDescriptions then Ok(false)
    else
      match Prop(feature, "description")
      case None => Ok(false)
      case Some(d) =>
        if !Truthy(d) then Ok(false)
        else if d.Str? then Ok(Contains(LowerString(StripTags(d.s)), term))
        else Err(TypeError)
  }

  /** The `filter` callback: the name is tested first, then the description. */
  function FeatureMatches(feature: Json, term: string, searchDescriptions: bool): Result<bool, SearchError>
  {
    match NameMatch(feature, term)
    case Err(e) => Err(e)
    case Ok(byName) =>
      match DescriptionMatch(feature, term, searchDescriptions)
      case Err(e) => Err(e)
      case Ok(byDescription) => Ok(byName || byDescription)
  }

  /** `allFeatures.filter(...)`: the matching features in their original order. */
  function Matching(features: seq<Json>, term: string, searchDescriptions: bool): (r: Result<seq<Json>, SearchError>)
    ensures r.Ok? <==> forall f :: f in features ==> FeatureMatches(f, term, searchDescriptions).Ok?
    ensures r.Ok? ==> Sublist(r.value, features)
    ensures r.Ok? ==> forall f :: f in r.value ==> FeatureMatches(f, term, searchDescriptions) == Ok(true)
    ensures r.Ok? ==> forall f :: f in features && FeatureMatches(f, term, searchDescriptions) == Ok(true) ==> f in r.value
    ensures r.Ok? ==> forall f :: (multiset(r.value)[f]
      == if FeatureMatches(f, term, searchDescriptions) == Ok(true) then multiset(features)[f] else 0)
  {
    if features == [] then Ok([])
    else
      assert features == [features[0]] + features[1..];
      match FeatureMatches(features[0], term, searchDescriptions)
      case Err(e) => Err(e)
      case Ok(keep) =>
        match Matching(features[1..], term, searchDescriptions)
        case Err(e) => Err(e)
        case Ok(rest) => Ok(if keep then [features[0]] + rest else rest)
  }

  /** Whether `f` has a name that is a string. */
  predicate NamedByString(f: Json)
  {
    Prop(f, "name").Some? && Prop(f, "name").value.Str?
  }

  /**
    The filter throws exactly for a null feature, a name that is neither a
    string nor null, or (when descriptions are searched) a truthy
    description that is not a string.
   */
  lemma FeatureMatchesThrows(f: Json, term: string, searchDescriptions: bool)
    ensures FeatureMatches(f, term, searchDescriptions).Err?
      <==> || f.Null?
           || (Prop(f, "name").Some? && !Prop(f, "name").value.Null? && !Prop(f, "name").value.Str?)
           || (searchDescriptions && Prop(f, "description").Some?
               && Truthy(Prop(f, "description").value) && !Prop(f, "description").value.Str?)
  {
  }

  /**
    A feature that does not make the filter throw matches exactly when its
    lower-cased name contains the term, or descriptions are searched and its
    non-empty string description, with tags removed and lower-cased,
    contains it.
   */
  lemma FeatureMatchesMeaning(f: Json, term: string, searchDescriptions: bool)
    requires FeatureMatches(f, term, searchDescriptions).Ok?
    ensures FeatureMatches(f, term, searchDescriptions).value
      <==> || (NamedByString(f) && Contains(LowerString(Prop(f, "name").value.s), term))
           || (searchDescriptions && Prop(f, "description").Some? && Prop(f, "description").value.Str?
               && Prop(f, "description").value.s != ""
               && Contains(LowerString(StripTags(Prop(f, "description").value.s)), term))
  {
  }

  /** Without `searchDescriptions`, or with a falsy description, only the name decides. */
  lemma DescriptionIgnored(f: Json, term: string, searchDescriptions: bool)
    requires !searchDescriptions || Prop(f, "description").None? || !Truthy(Prop(f, "description").value)
    ensures FeatureMatches(f, term, searchDescriptions) == NameMatch(f, term)
  {
  }

  /** Every string contains the empty string. */
  lemma ContainsEmpty(t: string)
    ensures Contains(t, "")
  {
    assert HasAt(t, 0, "");
  }

  /** The empty query matches every feature whose name is a string. */
  lemma EmptyQueryMatchesNamed(f: Json, searchDescriptions: bool)
    requires NamedByString(f)
    ensures FeatureMatches(f, LowerString(""), false) == Ok(true)
    ensures FeatureMatches(f, LowerString(""), searchDescriptions) != Ok(false)
  {
    ContainsEmpty(LowerString(Prop(f, "name").value.s));
  }

  /** So with the empty query every string-named feature is kept, in order. */
  lemma {:induction false} EmptyQueryKeepsAll(features: seq<Json>)
    requires forall f :: f in features ==> NamedByString(f)
    ensures Matching(features, LowerString(""), false) == Ok(features)
  {
    if features != [] {
      EmptyQueryMatchesNamed(features[0], false);
      assert forall f :: f in features[1..] ==> f in features;
      EmptyQueryKeepsAll(features[1..]);
      assert [features[0]] + features[1..] == features;
    }
  }

  // ---------------------------------------------------------------------------
  // Tag removal in descriptions
  // ---------------------------------------------------------------------------

  /** What `<[^>]*>` finds where it is tried. */
  predicate LooseTagHits(hits: seq<Option<Hit>>, s: string)
  {
    && Fits(hits, s)
    && (forall k :: 0 <= k < |s| && hits[k].Some? ==> hits[k].value.text == "")
    && (forall k :: 0 <= k < |s| && hits[k].None? && s[k] == '<' ==> forall m :: k < m < |s| ==> s[m] != '>')
  }

  lemma LooseTagMatchAt(s: string, k: nat)
    requires k < |s|
    ensures var h := MatchAt(LooseTag, s, k);
      && (h.Some? ==> h.value.text == "" && FirstGtAt(s, k + 1, k + h.value.len - 1))
      && (h.None? && s[k] == '<' ==> forall m :: k < m < |s| ==> s[m] != '>')
  {
    BracketTagExtent(s, k);
  }

  lemma LooseTagMatches(s: string)
    ensures LooseTagHits(Matches(LooseTag, s), s)
  {
    var hits := Matches(LooseTag, s);
    forall k | 0 <= k < |s| && hits[k].Some? ensures hits[k].value.text == "" {
      LooseTagMatchAt(s, k);
      assert hits[k] == MatchAt(LooseTag, s, k);
    }
    forall k | 0 <= k < |s| && hits[k].None? && s[k] == '<' ensures forall m :: k < m < |s| ==> s[m] != '>' {
      LooseTagMatchAt(s, k);
      assert hits[k] == MatchAt(LooseTag, s, k);
    }
  }

  /** No `<` of `t` is followed, anywhere later, by a `>`. */
  predicate NoTag(t: string)
  {
    forall a, b :: 0 <= a < b < |t| && t[a] == '<' ==> t[b] != '>'
  }

  lemma {:induction false} NoTagLeftFrom(hits: seq<Option<Hit>>, s: string, i: nat)
    requires i <= |s| && LooseTagHits(hits, s)
    ensures NoTag(ReplaceWith(hits, s, i))
    decreases |s| - i
  {
    if i < |s| {
      match hits[i]
      case Some(h) =>
        NoTagLeftFrom(hits, s, i + h.len);
        assert ReplaceWith(hits, s, i) == ReplaceWith(hits, s, i + h.len);
      case None =>
        var rest := ReplaceWith(hits, s, i + 1);
        NoTagLeftFrom(hits, s, i + 1);
        if s[i] == '<' {
          ReplaceClears(hits, s, i + 1, {'>'}, "");
        }
        var t := [s[i]] + rest;
        forall a, b | 0 <= a < b < |t| && t[a] == '<' ensures t[b] != '>' {
          assert t[b] == rest[b - 1];
          if a > 0 {
            assert t[a] == rest[a - 1];
          }
        }
    }
  }

  /** After `<[^>]*>` is removed, no `<…>` is left: a `<` is never followed by a `>`. */
  lemma StripTagsLeavesNoTag(d: string)
    ensures NoTag(StripTags(d))
  {
    LooseTagMatches(d);
    NoTagLeftFrom(Matches(LooseTag, d), d, 0);
  }

  /** Unlike the sanitizer's `<[^>]+>`, the empty `<>` is removed too. */
  /** Two tags go and the text between and after them stays: `<b>x</b>y` becomes `xy`. */
  lemma TagsRemovedTextKept(d: string)
    requires d == "<b>x</b>y"
    ensures StripTags(d) == "xy"
  {
    assert d[0] == '<' && d[1] == 'b' && d[2] == '>' && d[3] == 'x';
    assert d[4] == '<' && d[5] == '/' && d[6] == 'b' && d[7] == '>' && d[8] == 'y';
    assert RunEnd(d, 1, NotGt) == 2;
    assert RunEnd(d, 5, NotGt) == 7;
    var hits := Matches(LooseTag, d);
    assert hits[0] == MatchAt(LooseTag, d, 0) == Some(Hit(3, ""));
    assert hits[3] == MatchAt(LooseTag, d, 3) == None;
    assert hits[4] == MatchAt(LooseTag, d, 4) == Some(Hit(4, ""));
    assert hits[8] == MatchAt(LooseTag, d, 8) == None;
    assert ReplaceWith(hits, d, 9) == "";
    assert ReplaceWith(hits, d, 8) == "y";
    assert ReplaceWith(hits, d, 4) == "y";
    assert ReplaceWith(hits, d, 3) == "xy";
    assert ReplaceWith(hits, d, 0) == "xy";
  }

  lemma EmptyBracketsRemoved(d: string)
    requires d == "a<>b"
    ensures StripTags(d) == "ab"
  {
    var hits := Matches(LooseTag, d);
    assert hits[0] == MatchAt(LooseTag, d, 0) == None;
    assert hits[1] == MatchAt(LooseTag, d, 1) == Some(Hit(2, ""));
    assert hits[3] == MatchAt(LooseTag, d, 3) == None;
    assert ReplaceWith(hits, d, 4) == "";
    assert ReplaceWith(hits, d, 3) == "b";
    assert ReplaceWith(hits, d, 1) == "b";
  }

  // ---------------------------------------------------------------------------
  // The tool
  // ---------------------------------------------------------------------------

  datatype SearchRequest = SearchRequest(searchQuery: string, searchDescriptions: Option<bool>)

  datatype SearchResult = SearchResult(
    data: seq<Json>,
    allFeaturesCount: nat,
    featuresMatchedCount: nat,
    searchQuery: string,
    searchedDescriptions: bool)

  /** `searchDescriptions = false` in the destructuring of the request. */
  function SearchesDescriptions(request: SearchRequest): bool
  {
    if request.searchDescriptions.Some? then request.searchDescriptions.value else false
  }

  /** Fetch every page, filter, and report the counts and the request echoed back. */
  method SearchFeatures(request: SearchRequest, responses: seq<Json>) returns (r: Result<SearchResult, SearchError>)
    ensures FetchAll(responses).Err? ==> r == Err(FetchAll(responses).error)
    ensures FetchAll(responses).Ok? ==>
      var all := FetchAll(responses).value.features;
      var found := Matching(all, LowerString(request.searchQuery), SearchesDescriptions(request));
      && (found.Err? ==> r == Err(found.error))
      && (found.Ok? ==> r.Ok? && r.value.data == found.value && r.value.allFeaturesCount == |all|)
    ensures r.Ok? ==> r.value.featuresMatchedCount == |r.value.data| <= r.value.allFeaturesCount
    ensures r.Ok? ==> r.value.searchQuery == request.searchQuery
    ensures r.Ok? ==> r.value.searchedDescriptions == (request.searchDescriptions == Some(true))
  {
    var searchDescriptions := SearchesDescriptions(request);
    var crawl := FetchAllFeatures(responses);
    if crawl.Err? {
      return Err(crawl.error);
    }
    var allFeatures := crawl.value.features;
    var searchTerm := LowerString(request.searchQuery);
    var matchingFeatures := Matching(allFeatures, searchTerm, searchDescriptions);
    if matchingFeatures.Err? {
      return Err(matchingFeatures.error);
    }
    SublistShorter(matchingFeatures.value, allFeatures);
    r := Ok(SearchResult(
      matchingFeatures.value,
      |allFeatures|,
      |matchingFeatures.value|,
      request.searchQuery,
      searchDescriptions));
  }
}
