/**
  The `get_notes` tool: reject the two forbidden parameter combinations,
  then put every given parameter into a `URLSearchParams` in a fixed order
  and request `/notes` with that query.

  A parameter is given when it is truthy: a non-empty string, or a page
  limit other than 0. The request itself is not modelled; the endpoint it
  would be sent to is the result.
 */
module Notes {
  import opened JsonValues
  import opened Text
  import opened Lists

  datatype NotesRequest = NotesRequest(
    last: Option<string>,
    createdFrom: Option<string>,
    createdTo: Option<string>,
    updatedFrom: Option<string>,
    updatedTo: Option<string>,
    term: Option<string>,
    featureId: Option<string>,
    companyId: Option<string>,
    ownerEmail: Option<string>,
    source: Option<string>,
    anyTag: Option<string>,
    allTags: Option<string>,
    pageLimit: Option<int>,
    pageCursor: Option<string>)

  const LastConflict := "'last' parameter cannot be combined with 'createdFrom' or 'createdTo'"
  const TagConflict := "'anyTag' cannot be combined with 'allTags'"

  /** The order in which the parameters are appended. */
  const ParamOrder := [
    "last", "createdFrom", "createdTo", "updatedFrom", "updatedTo", "term", "featureId",
    "companyId", "ownerEmail", "source", "anyTag", "allTags", "pageLimit", "pageCursor"]

  /** A truthy optional string. */
  predicate Given(v: Option<string>)
  {
    v.Some? && v.value != ""
  }

  /** `pageLimit.toString()` when the page limit is truthy. */
  function PageLimitText(pageLimit: Option<int>): (t: Option<string>)
    ensures Given(t) <==> pageLimit.Some? && pageLimit.value != 0
  {
    if pageLimit.Some? && pageLimit.value != 0 then Some(IntToString(pageLimit.value)) else None
  }

  predicate LastClash(request: NotesRequest)
  {
    Given(request.last) && (Given(request.createdFrom) || Given(request.createdTo))
  }

  predicate TagClash(request: NotesRequest)
  {
    Given(request.anyTag) && Given(request.allTags)
  }

  type Param = (string, string)

  /** Parameter `j` of a request, named, in the order of `ParamOrder`. */
  function Entry(request: NotesRequest, j: nat): (string, Option<string>)
    requires j < |ParamOrder|
  {
    if j == 0 then ("last", request.last)
    else if j == 1 then ("createdFrom", request.createdFrom)
    else if j == 2 then ("createdTo", request.createdTo)
    else if j == 3 then ("updatedFrom", request.updatedFrom)
    else if j == 4 then ("updatedTo", request.updatedTo)
    else if j == 5 then ("term", request.term)
    else if j == 6 then ("featureId", request.featureId)
    else if j == 7 then ("companyId", request.companyId)
    else if j == 8 then ("ownerEmail", request.ownerEmail)
    else if j == 9 then ("source", request.source)
    else if j == 10 then ("anyTag", request.anyTag)
    else if j == 11 then ("allTags", request.allTags)
    else if j == 12 then ("pageLimit", PageLimitText(request.pageLimit))
    else ("pageCursor", request.pageCursor)
  }

  /** What appending `(name, v)` when `v` is given adds. */
  function Piece(name: string, v: Option<string>): seq<Param>
  {
    if Given(v) then [(name, v.value)] else []
  }

  /** The given parameters among the first `j`, as name/value pairs, in order. */
  function PresentUpTo(request: NotesRequest, j: nat): seq<Param>
    requires j <= |ParamOrder|
  {
    if j == 0 then [] else PresentUpTo(request, j - 1) + Piece(Entry(request, j - 1).0, Entry(request, j - 1).1)
  }

  /** The query a request produces: its given parameters, in the order of `ParamOrder`. */
  function Query(request: NotesRequest): seq<Param>
  {
    PresentUpTo(request, |ParamOrder|)
  }

  function Names(ps: seq<Param>): (ns: seq<string>)
    ensures |ns| == |ps|
  {
    seq(|ps|, i requires 0 <= i < |ps| => ps[i].0)
  }

  // ---------------------------------------------------------------------------
  // URLSearchParams
  // ---------------------------------------------------------------------------

  /** `name=value`. */
  function Render(p: Param): string
  {
    p.0 + "=" + p.1
  }

  /** `URLSearchParams.prototype.toString`, without percent-encoding. */
  function Serialize(ps: seq<Param>): (q: string)
    ensures q == "" <==> ps == []
  {
    if ps == [] then ""
    else if |ps| == 1 then Render(ps[0])
    else Render(ps[0]) + "&" + Serialize(ps[1..])
  }

  /** A `URLSearchParams`, reduced to its list of name/value pairs. */
  class SearchParams {
    var pairs: seq<Param>

    constructor()
      ensures pairs == []
    {
      pairs := [];
    }

    method Append(name: string, value: string)
      modifies this
      ensures pairs == old(pairs) + [(name, value)]
    {
      pairs := pairs + [(name, value)];
    }

    /** The query string; empty exactly when nothing was appended. */
    function ToString(): (q: string)
      reads this
      ensures q == "" <==> pairs == []
    {
      Serialize(pairs)
    }
  }

  /** `if (value) params.append(name, value)`. */
  method AppendIfGiven(params: SearchParams, name: string, value: Option<string>)
    modifies params
    ensures params.pairs == old(params.pairs) + Piece(name, value)
  {
    if Given(value) {
      params.Append(name, value.value);
    }
  }

  /** `/notes`, followed by `?` and the query when there is one. */
  function Endpoint(ps: seq<Param>): string
  {
    var q := Serialize(ps);
    "/notes" + (if q != "" then "?" + q else "")
  }

  /** Check both exclusions, then build the query in the fixed order and form the endpoint. */
  method GetNotes(request: NotesRequest) returns (r: Result<string, string>)
    ensures LastClash(request) ==> r == Err(LastConflict)
    ensures !LastClash(request) && TagClash(request) ==> r == Err(TagConflict)
    ensures !LastClash(request) && !TagClash(request) ==> r == Ok(Endpoint(Query(request)))
  {
    if Given(request.last) && (Given(request.createdFrom) || Given(request.createdTo)) {
      return Err(LastConflict);
    }
    if Given(request.anyTag) && Given(request.allTags) {
      return Err(TagConflict);
    }

    var params := new SearchParams();
    AppendIfGiven(params, "last", request.last);
    assert params.pairs == PresentUpTo(request, 1);
    AppendIfGiven(params, "createdFrom", request.createdFrom);
    assert params.pairs == PresentUpTo(request, 2);
    AppendIfGiven(params, "createdTo", request.createdTo);
    assert params.pairs == PresentUpTo(request, 3);
    AppendIfGiven(params, "updatedFrom", request.updatedFrom);
    assert params.pairs == PresentUpTo(request, 4);
    AppendIfGiven(params, "updatedTo", request.updatedTo);
    assert params.pairs == PresentUpTo(request, 5);
    AppendIfGiven(params, "term", request.term);
    assert params.pairs == PresentUpTo(request, 6);
    AppendIfGiven(params, "featureId", request.featureId);
    assert params.pairs == PresentUpTo(request, 7);
    AppendIfGiven(params, "companyId", request.companyId);
    assert params.pairs == PresentUpTo(request, 8);
    AppendIfGiven(params, "ownerEmail", request.ownerEmail);
    assert params.pairs == PresentUpTo(request, 9);
    AppendIfGiven(params, "source", request.source);
    assert params.pairs == PresentUpTo(request, 10);
    AppendIfGiven(params, "anyTag", request.anyTag);
    assert params.pairs == PresentUpTo(request, 11);
    AppendIfGiven(params, "allTags", request.allTags);
    assert params.pairs == PresentUpTo(request, 12);
    AppendIfGiven(params, "pageLimit", PageLimitText(request.pageLimit));
    assert params.pairs == PresentUpTo(request, 13);
    AppendIfGiven(params, "pageCursor", request.pageCursor);
    assert params.pairs == PresentUpTo(request, 14);

    var queryString := params.ToString();
    var endpoint := "/notes" + (if queryString != "" then "?" + queryString else "");
    r := Ok(endpoint);
  }

  // ---------------------------------------------------------------------------
  // What the query holds
  // ---------------------------------------------------------------------------

  lemma EntryName(request: NotesRequest, j: nat)
    requires j < |ParamOrder|
    ensures Entry(request, j).0 == ParamOrder[j]
  {
  }

  /** Length and first two letters: enough to tell the parameter names apart. */
  function Signature(name: string): (int, char, char)
  {
    if |name| < 2 then (|name|, ' ', ' ') else (|name|, name[0], name[1])
  }

  lemma ParamNamesDistinct()
    ensures forall a, b :: 0 <= a < b < |ParamOrder| ==> ParamOrder[a] != ParamOrder[b]
  {
    forall a, b | 0 <= a < b < |ParamOrder| ensures ParamOrder[a] != ParamOrder[b] {
      assert Signature(ParamOrder[a]) != Signature(ParamOrder[b]);
    }
  }

  lemma NamesAppend(xs: seq<Param>, ys: seq<Param>)
    ensures Names(xs + ys) == Names(xs) + Names(ys)
  {
    assert forall i :: 0 <= i < |xs + ys| ==> Names(xs + ys)[i] == (Names(xs) + Names(ys))[i];
  }

  lemma PieceName(request: NotesRequest, j: nat)
    requires j < |ParamOrder|
    ensures Sublist(Names(Piece(Entry(request, j).0, Entry(request, j).1)), [ParamOrder[j]])
  {
    EntryName(request, j);
    var piece := Piece(Entry(request, j).0, Entry(request, j).1);
    if piece != [] {
      assert Names(piece) == [ParamOrder[j]];
      SublistOfSelf([ParamOrder[j]]);
    }
  }

  lemma InOrderStep(before: seq<Param>, piece: seq<Param>, j: nat)
    requires 0 < j <= |ParamOrder|
    requires Sublist(Names(before), ParamOrder[..j - 1]) && Sublist(Names(piece), [ParamOrder[j - 1]])
    ensures Sublist(Names(before + piece), ParamOrder[..j])
  {
    NamesAppend(before, piece);
    SublistExtend(Names(before), Names(piece), ParamOrder, j);
  }

  lemma PresentInOrderStep(request: NotesRequest, k: nat)
    requires k < |ParamOrder|
    requires Sublist(Names(PresentUpTo(request, k)), ParamOrder[..k])
    ensures Sublist(Names(PresentUpTo(request, k + 1)), ParamOrder[..k + 1])
  {
    PieceName(request, k);
    InOrderStep(PresentUpTo(request, k), Piece(Entry(request, k).0, Entry(request, k).1), k + 1);
  }

  lemma {:induction false} PresentInOrder(request: NotesRequest, j: nat)
    requires j <= |ParamOrder|
    ensures Sublist(Names(PresentUpTo(request, j)), ParamOrder[..j])
  {
    if j > 0 {
      PresentInOrder(request, j - 1);
      PresentInOrderStep(request, j - 1);
    }
  }

  /** Parameter `m` is given, and `p` is its name with its value. */
  predicate GivenAs(request: NotesRequest, m: nat, p: Param)
  {
    m < |ParamOrder| && Given(Entry(request, m).1) && p == (ParamOrder[m], Entry(request, m).1.value)
  }

  lemma PieceMembers(request: NotesRequest, k: nat)
    requires k < |ParamOrder|
    ensures forall p :: p in Piece(Entry(request, k).0, Entry(request, k).1) <==> GivenAs(request, k, p)
  {
    EntryName(request, k);
  }

  lemma PresentMembersStep(request: NotesRequest, k: nat, j: nat)
    requires j == k + 1 <= |ParamOrder|
    requires forall p :: p in PresentUpTo(request, k) <==> exists m :: 0 <= m < k && GivenAs(request, m, p)
    ensures forall p :: p in PresentUpTo(request, j) <==> exists m :: 0 <= m < j && GivenAs(request, m, p)
  {
    PieceMembers(request, k);
    forall p | GivenAs(request, k, p)
      ensures p in PresentUpTo(request, j)
    {
    }
  }

  /** The pairs of the query are exactly the given parameters with their values. */
  lemma {:induction false} PresentMembers(request: NotesRequest, j: nat)
    requires j <= |ParamOrder|
    ensures forall p :: p in PresentUpTo(request, j) <==> exists m :: 0 <= m < j && GivenAs(request, m, p)
  {
    if j > 0 {
      PresentMembers(request, j - 1);
      PresentMembersStep(request, j - 1, j);
    }
  }

  /**
    Parameter `j` appears in the query exactly when it is given, and then
    only with its value.
   */
  lemma QueryHolds(request: NotesRequest, j: nat)
    requires j < |ParamOrder|
    ensures Given(Entry(request, j).1) ==> (ParamOrder[j], Entry(request, j).1.value) in Query(request)
    ensures forall v :: (ParamOrder[j], v) in Query(request) ==> Given(Entry(request, j).1) && v == Entry(request, j).1.value
  {
    PresentMembers(request, |ParamOrder|);
    ParamNamesDistinct();
    if Given(Entry(request, j).1) {
      assert GivenAs(request, j, (ParamOrder[j], Entry(request, j).1.value));
    }
    forall v | (ParamOrder[j], v) in Query(request)
      ensures Given(Entry(request, j).1) && v == Entry(request, j).1.value
    {
      var m :| 0 <= m < |ParamOrder| && GivenAs(request, m, (ParamOrder[j], v));
      assert m == j;
    }
  }

  /** The query is empty exactly when no parameter is given. */
  lemma QueryEmpty(request: NotesRequest)
    ensures Query(request) == [] <==> forall m :: 0 <= m < |ParamOrder| ==> !Given(Entry(request, m).1)
  {
    PresentMembers(request, |ParamOrder|);
    if Query(request) != [] {
      assert Query(request)[0] in Query(request);
      var m :| 0 <= m < |ParamOrder| && GivenAs(request, m, Query(request)[0]);
      assert Given(Entry(request, m).1);
    }
    if exists m :: 0 <= m < |ParamOrder| && Given(Entry(request, m).1) {
      var m :| 0 <= m < |ParamOrder| && Given(Entry(request, m).1);
      assert GivenAs(request, m, (ParamOrder[m], Entry(request, m).1.value));
      assert (ParamOrder[m], Entry(request, m).1.value) in Query(request);
    }
  }

  /** The parameter names in the query follow the order of `ParamOrder`. */
  lemma QueryInOrder(request: NotesRequest)
    ensures Sublist(Names(Query(request)), ParamOrder)
  {
    PresentInOrder(request, |ParamOrder|);
    assert ParamOrder[..|ParamOrder|] == ParamOrder;
  }

  /** The page limit is sent as given: no default of 200 when absent, no cap at 2000. */
  lemma PageLimitVerbatim(request: NotesRequest)
    ensures request.pageLimit.None? ==> forall v :: ("pageLimit", v) !in Query(request)
    ensures request.pageLimit.Some? && request.pageLimit.value > 0 ==>
      && ("pageLimit", NatToString(request.pageLimit.value)) in Query(request)
      && forall v :: ("pageLimit", v) in Query(request) ==>
        (forall k :: 0 <= k < |v| ==> IsDigit(v[k])) && DecimalValue(v) == request.pageLimit.value
  {
    QueryHolds(request, 12);
    assert ParamOrder[12] == "pageLimit";
    assert Entry(request, 12).1 == PageLimitText(request.pageLimit);
    if request.pageLimit.Some? && request.pageLimit.value > 0 {
      NatToStringValue(request.pageLimit.value);
    }
  }

  /** `last` may be combined with `updatedFrom` and `updatedTo`: both are sent. */
  lemma LastWithUpdatesAccepted(request: NotesRequest)
    requires Given(request.last) && Given(request.updatedFrom) && Given(request.updatedTo)
    requires !Given(request.createdFrom) && !Given(request.createdTo)
    ensures !LastClash(request)
    ensures ("last", request.last.value) in Query(request)
    ensures ("updatedFrom", request.updatedFrom.value) in Query(request)
    ensures ("updatedTo", request.updatedTo.value) in Query(request)
  {
    QueryHolds(request, 0);
    QueryHolds(request, 3);
    QueryHolds(request, 4);
  }

  // ---------------------------------------------------------------------------
  // The endpoint
  // ---------------------------------------------------------------------------

  /** The endpoint is the bare `/notes` exactly when no parameter is given. */
  lemma EndpointShape(ps: seq<Param>)
    ensures Endpoint(ps) == "/notes" <==> ps == []
    ensures ps != [] ==> Endpoint(ps) == "/notes?" + Serialize(ps)
  {
    if ps != [] {
      assert |Endpoint(ps)| > |"/notes"|;
    }
  }

  /** Names free of `&` and `=`, values free of `&`: what a query can carry without percent-encoding. */
  predicate Plain(ps: seq<Param>)
  {
    forall i :: 0 <= i < |ps| ==> '&' !in ps[i].0 && '=' !in ps[i].0 && '&' !in ps[i].1
  }

  /** The first position of `c` in `s`. */
  function IndexOf(s: string, c: char): (r: Option<nat>)
    ensures r.Some? ==> r.value < |s| && s[r.value] == c && c !in s[..r.value]
    ensures r.None? ==> c !in s
  {
    if s == [] then None
    else if s[0] == c then Some(0)
    else match IndexOf(s[1..], c)
      case None => None
      case Some(i) => Some(i + 1)
  }

  /** `name=value` read back: the name runs up to the first `=`. */
  function ParsePair(segment: string): Param
  {
    match IndexOf(segment, '=')
    case None => (segment, "")
    case Some(i) => (segment[..i], segment[i + 1..])
  }

  /** A query read back: split at every `&`, then each piece at its first `=`. */
  function ParseQuery(q: string): seq<Param>
    decreases |q|
  {
    if q == [] then []
    else
      match IndexOf(q, '&')
      case None => [ParsePair(q)]
      case Some(i) => [ParsePair(q[..i])] + ParseQuery(q[i + 1..])
  }

  lemma IndexOfSplit(a: string, c: char, b: string)
    requires c !in a
    ensures IndexOf(a + [c] + b, c) == Some(|a|)
  {
    var s := a + [c] + b;
    assert s[|a|] == c;
    assert forall k :: 0 <= k < |a| ==> s[k] == a[k];
  }

  lemma RenderParses(p: Param)
    requires '=' !in p.0
    ensures ParsePair(Render(p)) == p
  {
    IndexOfSplit(p.0, '=', p.1);
    assert Render(p) == p.0 + ['='] + p.1;
    assert Render(p)[..|p.0|] == p.0;
    assert Render(p)[|p.0| + 1..] == p.1;
  }

  lemma RenderPlain(p: Param)
    requires '&' !in p.0 && '&' !in p.1
    ensures '&' !in Render(p) && Render(p) != []
  {
    assert |Render(p)| == |p.0| + 1 + |p.1|;
  }

  lemma ParseQuerySingle(segment: string)
    requires '&' !in segment && segment != []
    ensures ParseQuery(segment) == [ParsePair(segment)]
  {
    assert IndexOf(segment, '&').None?;
  }

  lemma ParseQueryCons(segment: string, rest: string)
    requires '&' !in segment && segment != []
    ensures ParseQuery(segment + ['&'] + rest) == [ParsePair(segment)] + ParseQuery(rest)
  {
    IndexOfSplit(segment, '&', rest);
    var q := segment + ['&'] + rest;
    assert q[..|segment|] == segment;
    assert q[|segment| + 1..] == rest;
  }

  lemma PlainTail(ps: seq<Param>)
    requires ps != [] && Plain(ps)
    ensures Plain(ps[1..])
  {
    forall i | 0 <= i < |ps[1..]| ensures '&' !in ps[1..][i].0 && '=' !in ps[1..][i].0 && '&' !in ps[1..][i].1 {
      assert ps[1..][i] == ps[i + 1];
    }
  }

  /** Serializing and reading back gives the same pairs, when they need no escaping. */
  lemma {:induction false} SerializeParses(ps: seq<Param>)
    requires Plain(ps)
    ensures ParseQuery(Serialize(ps)) == ps
  {
    if ps != [] {
      RenderPlain(ps[0]);
      RenderParses(ps[0]);
      if |ps| == 1 {
        ParseQuerySingle(Render(ps[0]));
      } else {
        PlainTail(ps);
        SerializeParses(ps[1..]);
        assert Serialize(ps) == Render(ps[0]) + ['&'] + Serialize(ps[1..]);
        ParseQueryCons(Render(ps[0]), Serialize(ps[1..]));
        assert ps == [ps[0]] + ps[1..];
      }
    }
  }
}
