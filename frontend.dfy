/**
 * The search-and-recommend client: four pieces of interface state (the
 * query text, the search results, the recommendations and the busy flag),
 * the handlers that change them, and the display plan derived from them.
 *
 * Each asynchronous handler is split at its `await` into a dispatch event
 * and a resolve event (success or failure), so any interleaving of
 * overlapping requests can be written down. `Step` is the transition
 * function on state values; the class `App` holds the same state in fields
 * and its event methods are proved to take exactly the steps `Step` takes.
 */
module Frontend {
  import opened Wrappers
  import Decimal

  /** A product record as the client consumes it. */
  datatype Product = Product(
    id: int,
    productDisplayName: string,
    masterCategory: string,
    baseColour: string,
    image: string)

  // ---------------------------------------------------------------------
  // String.prototype.trim
  // ---------------------------------------------------------------------

  /** The characters `trim` strips: ECMAScript WhiteSpace and LineTerminator. */
  predicate IsJsWhitespace(c: char) {
    c == '\t' || c == '\U{B}' || c == '\U{C}' || c == ' ' || c == '\U{A0}' || c == '\U{FEFF}' ||
    c == '\U{1680}' || ('\U{2000}' <= c <= '\U{200A}') || c == '\U{202F}' || c == '\U{205F}' ||
    c == '\U{3000}' || c == '\n' || c == '\r' || c == '\U{2028}' || c == '\U{2029}'
  }

  /** `s` without its leading whitespace. */
  function TrimStart(s: string): (r: string)
    ensures |r| <= |s| && r == s[|s| - |r|..]
    ensures forall i :: 0 <= i < |s| - |r| ==> IsJsWhitespace(s[i])
    ensures r != [] ==> !IsJsWhitespace(r[0])
  {
    if s != [] && IsJsWhitespace(s[0]) then TrimStart(s[1..]) else s
  }

  /** `s` without its trailing whitespace. */
  function TrimEnd(s: string): (r: string)
    ensures |r| <= |s| && r == s[..|r|]
    ensures forall i :: |r| <= i < |s| ==> IsJsWhitespace(s[i])
    ensures r != [] ==> !IsJsWhitespace(r[|r| - 1])
  {
    if s != [] && IsJsWhitespace(s[|s| - 1]) then TrimEnd(s[..|s| - 1]) else s
  }

  /** `s.trim()`: no whitespace is left at either end, and nothing is left of an all-whitespace `s`. */
  function Trim(s: string): (r: string)
    ensures |r| <= |s|
    ensures r != [] ==> !IsJsWhitespace(r[0]) && !IsJsWhitespace(r[|r| - 1])
    ensures r == [] ==> forall i :: 0 <= i < |s| ==> IsJsWhitespace(s[i])
  {
    TrimEnd(TrimStart(s))
  }

  /** The search guard: `!query.trim()` holds when the trimmed query is empty. */
  predicate IsBlank(query: string) {
    Trim(query) == ""
  }

  /** A query is blank exactly when every character of it is whitespace. */
  lemma BlankIffAllWhitespace(query: string)
    ensures IsBlank(query) <==> forall i :: 0 <= i < |query| ==> IsJsWhitespace(query[i])
  {
    var t := TrimStart(query);
    if t != [] {
      assert query[|query| - |t|] == t[0];
    }
  }

  // ---------------------------------------------------------------------
  // Interface state and its transitions
  // ---------------------------------------------------------------------

  datatype AppState = AppState(
    query: string,
    results: seq<Product>,
    recommendations: seq<Product>,
    loading: bool)

  /** The state when the page is first rendered. */
  const Initial: AppState := AppState("", [], [], false)

  /**
   * The events that change the state: editing the input, and the two halves
   * of each handler. A response that resolves carries the response's data.
   */
  datatype Event =
    | Edit(value: string)
    | SearchDispatch
    | SearchOk(results: seq<Product>)
    | SearchFail
    | RecommendDispatch(id: int)
    | RecommendOk(recommendations: seq<Product>)
    | RecommendFail

  predicate IsResolve(e: Event) {
    e.SearchOk? || e.SearchFail? || e.RecommendOk? || e.RecommendFail?
  }

  predicate IsDispatch(e: Event) {
    e.SearchDispatch? || e.RecommendDispatch?
  }

  /** Whether `e`, taken in state `s`, sends a request. */
  predicate IssuesRequest(s: AppState, e: Event) {
    e.RecommendDispatch? || (e.SearchDispatch? && !IsBlank(s.query))
  }

  /**
   * One event. Neither dispatch looks at `loading`; after the event it is
   * set exactly when a request was sent, and cleared by any resolution.
   */
  function Step(s: AppState, e: Event): (r: AppState)
    ensures r.loading <==> IssuesRequest(s, e) || (s.loading && !IsResolve(e))
    ensures !e.Edit? ==> r.query == s.query
    ensures !e.SearchOk? ==> r.results == s.results
    ensures !WritesRecommendations(e) ==> r.recommendations == s.recommendations
  {
    match e
    case Edit(v) => s.(query := v)
    case SearchDispatch => if IsBlank(s.query) then s else s.(loading := true)
    case SearchOk(data) => s.(results := data, recommendations := [], loading := false)
    case SearchFail => s.(loading := false)
    case RecommendDispatch(_) => s.(loading := true)
    case RecommendOk(data) => s.(recommendations := data, loading := false)
    case RecommendFail => s.(loading := false)
  }

  /** The state after the events of `t`, in order. */
  function Run(s: AppState, t: seq<Event>): AppState
    decreases |t|
  {
    if t == [] then s else Step(Run(s, t[..|t| - 1]), t[|t| - 1])
  }

  // ---------------------------------------------------------------------
  // Properties of event sequences
  // ---------------------------------------------------------------------

  /** No event after position `i` writes the results. */
  predicate NoLaterSearchOk(t: seq<Event>, i: int) {
    forall j :: 0 <= j < |t| && i < j ==> !t[j].SearchOk?
  }

  /**
   * The results are the data of the last successful search to resolve,
   * whatever was dispatched later; with none, they are as they were.
   */
  lemma {:induction false} ResultsFromLastSearch(s: AppState, t: seq<Event>)
    ensures NoLaterSearchOk(t, -1) ==> Run(s, t).results == s.results
    ensures forall i :: 0 <= i < |t| && t[i].SearchOk? && NoLaterSearchOk(t, i) ==>
              Run(s, t).results == t[i].results
  {
    if t != [] {
      var p := t[..|t| - 1];
      var e := t[|t| - 1];
      ResultsFromLastSearch(s, p);
      assert Run(s, t) == Step(Run(s, p), e);
      forall i | -1 <= i < |p| && NoLaterSearchOk(t, i)
        ensures NoLaterSearchOk(p, i)
      {
        forall j | 0 <= j < |p| && i < j
          ensures !p[j].SearchOk?
        {
          assert p[j] == t[j];
        }
      }
      forall i | 0 <= i < |p| && t[i].SearchOk? && NoLaterSearchOk(t, i)
        ensures Run(s, t).results == t[i].results
      {
        assert !e.SearchOk?;
        assert t[i] == p[i];
      }
    }
  }

  /** Whether `e` writes the recommendations: a successful search clears them. */
  predicate WritesRecommendations(e: Event) {
    e.SearchOk? || e.RecommendOk?
  }

  function RecommendationsWritten(e: Event): seq<Product>
    requires WritesRecommendations(e)
  {
    if e.SearchOk? then [] else e.recommendations
  }

  predicate NoLaterRecommendationsWrite(t: seq<Event>, i: int) {
    forall j :: 0 <= j < |t| && i < j ==> !WritesRecommendations(t[j])
  }

  /**
   * The recommendations are those of the last response to resolve among
   * the successful searches (which clear them) and the successful
   * recommends; with none, they are as they were.
   */
  lemma {:induction false} RecommendationsFromLastWrite(s: AppState, t: seq<Event>)
    ensures NoLaterRecommendationsWrite(t, -1) ==> Run(s, t).recommendations == s.recommendations
    ensures forall i :: 0 <= i < |t| && WritesRecommendations(t[i]) && NoLaterRecommendationsWrite(t, i) ==>
              Run(s, t).recommendations == RecommendationsWritten(t[i])
  {
    if t != [] {
      var p := t[..|t| - 1];
      var e := t[|t| - 1];
      RecommendationsFromLastWrite(s, p);
      assert Run(s, t) == Step(Run(s, p), e);
      forall i | -1 <= i < |p| && NoLaterRecommendationsWrite(t, i)
        ensures NoLaterRecommendationsWrite(p, i)
      {
        forall j | 0 <= j < |p| && i < j
          ensures !WritesRecommendations(p[j])
        {
          assert p[j] == t[j];
        }
      }
      forall i | 0 <= i < |p| && WritesRecommendations(t[i]) && NoLaterRecommendationsWrite(t, i)
        ensures Run(s, t).recommendations == RecommendationsWritten(t[i])
      {
        assert !WritesRecommendations(e);
        assert t[i] == p[i];
      }
    }
  }

  predicate NoLaterEdit(t: seq<Event>, i: int) {
    forall j :: 0 <= j < |t| && i < j ==> !t[j].Edit?
  }

  /** Only input edits change the query, and the last edit wins. */
  lemma {:induction false} QueryFromLastEdit(s: AppState, t: seq<Event>)
    ensures NoLaterEdit(t, -1) ==> Run(s, t).query == s.query
    ensures forall i :: 0 <= i < |t| && t[i].Edit? && NoLaterEdit(t, i) ==>
              Run(s, t).query == t[i].value
  {
    if t != [] {
      var p := t[..|t| - 1];
      var e := t[|t| - 1];
      QueryFromLastEdit(s, p);
      assert Run(s, t) == Step(Run(s, p), e);
      forall i | -1 <= i < |p| && NoLaterEdit(t, i)
        ensures NoLaterEdit(p, i)
      {
        forall j | 0 <= j < |p| && i < j
          ensures !p[j].Edit?
        {
          assert p[j] == t[j];
        }
      }
      forall i | 0 <= i < |p| && t[i].Edit? && NoLaterEdit(t, i)
        ensures Run(s, t).query == t[i].value
      {
        assert !e.Edit?;
        assert t[i] == p[i];
      }
    }
  }

  /**
   * Once any response resolves, `loading` stays false until the next
   * dispatch, even if other requests are still outstanding.
   */
  lemma {:induction false} LoadingClearedByResolve(s: AppState, t: seq<Event>, i: nat)
    requires i < |t| && IsResolve(t[i])
    requires forall j :: i < j < |t| ==> !IssuesRequest(Run(s, t[..j]), t[j])
    ensures !Run(s, t).loading
  {
    if i < |t| - 1 {
      var p := t[..|t| - 1];
      forall j | i < j < |p|
        ensures !IssuesRequest(Run(s, p[..j]), p[j])
      {
        assert p[..j] == t[..j];
      }
      LoadingClearedByResolve(s, p, i);
      assert t[..|t| - 1] == p;
    }
  }

  /** After a dispatch that sends a request, `loading` stays true until some response resolves. */
  lemma {:induction false} LoadingSetByDispatch(s: AppState, t: seq<Event>, i: nat)
    requires i < |t| && IssuesRequest(Run(s, t[..i]), t[i])
    requires forall j :: i < j < |t| ==> !IsResolve(t[j])
    ensures Run(s, t).loading
  {
    var p := t[..|t| - 1];
    if i < |t| - 1 {
      assert p[..i] == t[..i];
      LoadingSetByDispatch(s, p, i);
    } else {
      assert p == t[..i];
    }
  }

  // ---------------------------------------------------------------------
  // The display plan
  // ---------------------------------------------------------------------

  /** What a product card shows: image, alt text, title, category and colour line. */
  datatype Card = Card(key: int, src: string, alt: string, title: string, meta: string, colour: string)

  /** A recommendation card with its rank badge. */
  datatype RankedCard = RankedCard(rank: nat, badge: string, card: Card)

  /** A visible section: the count in its header and its cards, in order. */
  datatype Section<C> = Section(count: nat, cards: seq<C>)

  datatype SearchButton = SearchButton(disabled: bool, text: string)

  datatype Plan = Plan(
    input: string,
    button: SearchButton,
    results: Option<Section<Card>>,
    recommendations: Option<Section<RankedCard>>)

  const IdleLabel: string := "Search"
  const BusyLabel: string := "Searching..."

  function CardOf(p: Product): Card {
    Card(p.id, p.image, p.productDisplayName, p.productDisplayName, p.masterCategory, "Color: " + p.baseColour)
  }

  /** The rank badge: `#` followed by the rank's decimal digits. */
  function Badge(rank: nat): (r: string)
    ensures |r| >= 2 && r[0] == '#'
    ensures forall i :: 1 <= i < |r| ==> Decimal.IsDigit(r[i])
  {
    "#" + Decimal.NatToString(rank)
  }

  /** The cards of `items`, one per item, in order. */
  function Cards(items: seq<Product>): (r: seq<Card>)
    ensures |r| == |items|
    ensures forall i :: 0 <= i < |items| ==> r[i] == CardOf(items[i])
  {
    if items == [] then [] else [CardOf(items[0])] + Cards(items[1..])
  }

  /** The ranked cards of `items`, the first ranked `from + 1`. */
  function RankedCards(items: seq<Product>, from: nat): (r: seq<RankedCard>)
    ensures |r| == |items|
    ensures forall i :: 0 <= i < |items| ==>
              r[i] == RankedCard(from + i + 1, Badge(from + i + 1), CardOf(items[i]))
  {
    if items == [] then []
    else [RankedCard(from + 1, Badge(from + 1), CardOf(items[0]))] + RankedCards(items[1..], from + 1)
  }

  /**
   * The display plan of a state: each list's section shows exactly when
   * the list is non-empty, with its length as the count and one card per
   * item in order; recommendation `i` carries rank `i + 1`; the button is
   * disabled and reads "Searching..." exactly while loading.
   */
  function View(s: AppState): (r: Plan)
    ensures r.input == s.query
    ensures r.results.Some? <==> |s.results| > 0
    ensures r.results.Some? ==>
              r.results.value.count == |s.results| && |r.results.value.cards| == |s.results| &&
              forall i :: 0 <= i < |s.results| ==> r.results.value.cards[i] == CardOf(s.results[i])
    ensures r.recommendations.Some? <==> |s.recommendations| > 0
    ensures r.recommendations.Some? ==>
              r.recommendations.value.count == |s.recommendations| &&
              |r.recommendations.value.cards| == |s.recommendations| &&
              forall i :: 0 <= i < |s.recommendations| ==>
                r.recommendations.value.cards[i].rank == i + 1 &&
                r.recommendations.value.cards[i].badge == Badge(i + 1) &&
                r.recommendations.value.cards[i].card == CardOf(s.recommendations[i])
    ensures r.button.disabled <==> s.loading
    ensures r.button.text == if s.loading then BusyLabel else IdleLabel
  {
    Plan(
      s.query,
      SearchButton(s.loading, if s.loading then BusyLabel else IdleLabel),
      if |s.results| > 0 then Some(Section(|s.results|, Cards(s.results))) else None,
      if |s.recommendations| > 0
      then Some(Section(|s.recommendations|, RankedCards(s.recommendations, 0)))
      else None)
  }

  /** Badges are distinct: different positions get different badge texts. */
  lemma BadgesDistinct(a: nat, b: nat)
    requires Badge(a) == Badge(b)
    ensures a == b
  {
    assert Decimal.NatToString(a) == Badge(a)[1..];
    assert Decimal.NatToString(b) == Badge(b)[1..];
    Decimal.ParseNatToString(a);
    Decimal.ParseNatToString(b);
  }

  // ---------------------------------------------------------------------
  // The component
  // ---------------------------------------------------------------------

  /** An outstanding request, as the handler sent it. */
  datatype Request = SearchRequest(query: string) | RecommendRequest(id: int)

  class App {
    var query: string
    var results: seq<Product>
    var recommendations: seq<Product>
    var loading: bool
    /** The requests sent and not yet resolved; several may be outstanding at once. */
    var pending: multiset<Request>

    /** `loading` is only ever set while a request is outstanding. */
    ghost predicate Valid()
      reads this
    {
      loading ==> pending != multiset{}
    }

    function State(): AppState
      reads this
    {
      AppState(query, results, recommendations, loading)
    }

    constructor ()
      ensures Valid()
      ensures State() == Initial && pending == multiset{}
    {
      query, results, recommendations, loading := "", [], [], false;
      pending := multiset{};
    }

    /** The input's change handler. */
    method SetQuery(value: string)
      requires Valid()
      modifies this
      ensures Valid()
      ensures query == value
      ensures results == old(results) && recommendations == old(recommendations)
      ensures loading == old(loading) && pending == old(pending)
      ensures State() == Step(old(State()), Edit(value))
    {
      query := value;
    }

    /**
     * The first half of the search handler: a blank query sends nothing and
     * changes nothing; otherwise the query is sent and `loading` set.
     */
    method SearchDispatch() returns (sent: Option<Request>)
      requires Valid()
      modifies this
      ensures Valid()
      ensures sent.None? <==> IsBlank(old(query))
      ensures sent.Some? ==> sent.value == SearchRequest(old(query))
      ensures pending == if sent.Some? then old(pending) + multiset{sent.value} else old(pending)
      ensures loading == (old(loading) || sent.Some?)
      ensures query == old(query) && results == old(results) && recommendations == old(recommendations)
      ensures State() == Step(old(State()), Event.SearchDispatch)
    {
      if IsBlank(query) {
        return None;
      }
      loading := true;
      sent := Some(SearchRequest(query));
      pending := pending + multiset{sent.value};
    }

    /** A search response arrives: it replaces the results and clears the recommendations. */
    method SearchResolveOk(req: Request, data: seq<Product>)
      requires Valid() && req in pending && req.SearchRequest?
      modifies this
      ensures Valid()
      ensures results == data && recommendations == [] && !loading
      ensures query == old(query) && pending == old(pending) - multiset{req}
      ensures State() == Step(old(State()), SearchOk(data))
    {
      results := data;
      recommendations := [];
      loading := false;
      pending := pending - multiset{req};
    }

    /** A search request fails: only `loading` changes. */
    method SearchResolveFail(req: Request)
      requires Valid() && req in pending && req.SearchRequest?
      modifies this
      ensures Valid()
      ensures !loading
      ensures query == old(query) && results == old(results) && recommendations == old(recommendations)
      ensures pending == old(pending) - multiset{req}
      ensures State() == Step(old(State()), SearchFail)
    {
      loading := false;
      pending := pending - multiset{req};
    }

    /** The first half of the recommend handler: the id is sent and `loading` set. */
    method RecommendDispatch(id: int) returns (sent: Request)
      requires Valid()
      modifies this
      ensures Valid()
      ensures sent == RecommendRequest(id) && pending == old(pending) + multiset{sent}
      ensures loading
      ensures query == old(query) && results == old(results) && recommendations == old(recommendations)
      ensures State() == Step(old(State()), Event.RecommendDispatch(id))
    {
      loading := true;
      sent := RecommendRequest(id);
      pending := pending + multiset{sent};
    }

    /** A recommend response arrives: it replaces the recommendations and nothing else. */
    method RecommendResolveOk(req: Request, data: seq<Product>)
      requires Valid() && req in pending && req.RecommendRequest?
      modifies this
      ensures Valid()
      ensures recommendations == data && !loading
      ensures query == old(query) && results == old(results)
      ensures pending == old(pending) - multiset{req}
      ensures State() == Step(old(State()), RecommendOk(data))
    {
      recommendations := data;
      loading := false;
      pending := pending - multiset{req};
    }

    /** A recommend request fails: only `loading` changes. */
    method RecommendResolveFail(req: Request)
      requires Valid() && req in pending && req.RecommendRequest?
      modifies this
      ensures Valid()
      ensures !loading
      ensures query == old(query) && results == old(results) && recommendations == old(recommendations)
      ensures pending == old(pending) - multiset{req}
      ensures State() == Step(old(State()), RecommendFail)
    {
      loading := false;
      pending := pending - multiset{req};
    }

    /** The search button: a disabled button ignores the click; otherwise it runs the search handler. */
    method ClickSearch() returns (sent: Option<Request>)
      requires Valid()
      modifies this
      ensures Valid()
      ensures sent.None? <==> old(loading) || IsBlank(old(query))
      ensures sent.Some? ==> sent.value == SearchRequest(old(query))
      ensures pending == if sent.Some? then old(pending) + multiset{sent.value} else old(pending)
      ensures loading == (old(loading) || sent.Some?)
      ensures query == old(query) && results == old(results) && recommendations == old(recommendations)
    {
      if View(State()).button.disabled {
        return None;
      }
      sent := SearchDispatch();
    }

    /** A key press in the input: Enter runs the search handler whatever `loading` is. */
    method PressKey(key: string) returns (sent: Option<Request>)
      requires Valid()
      modifies this
      ensures Valid()
      ensures sent.None? <==> key != "Enter" || IsBlank(old(query))
      ensures sent.Some? ==> sent.value == SearchRequest(old(query))
      ensures pending == if sent.Some? then old(pending) + multiset{sent.value} else old(pending)
      ensures loading == (old(loading) || sent.Some?)
      ensures query == old(query) && results == old(results) && recommendations == old(recommendations)
    {
      if key != "Enter" {
        return None;
      }
      sent := SearchDispatch();
    }

    /** A click on result card `i` asks for recommendations for that item. */
    method ClickResult(i: nat) returns (sent: Request)
      requires Valid() && i < |results|
      modifies this
      ensures Valid()
      ensures sent == RecommendRequest(old(results)[i].id)
      ensures pending == old(pending) + multiset{sent}
      ensures loading
      ensures query == old(query) && results == old(results) && recommendations == old(recommendations)
    {
      sent := RecommendDispatch(results[i].id);
    }
  }

  // ---------------------------------------------------------------------
  // Interaction scenarios
  // ---------------------------------------------------------------------

  /**
   * A search, a recommend for its first result, and a second search whose
   * response clears the recommendations only when it is applied.
   */
  method SearchThenRecommendThenSearch(q1: string, first: seq<Product>, similar: seq<Product>,
                                       q2: string, second: seq<Product>)
    returns (busyDuringSearch: bool, afterSearch: AppState, busyDuringRecommend: bool,
             afterRecommend: AppState, beforeSecondResolves: AppState, afterSecond: AppState)
    requires !IsBlank(q1) && !IsBlank(q2) && |first| > 0
    ensures busyDuringSearch
    ensures busyDuringRecommend
    ensures afterSearch == AppState(q1, first, [], false)
    ensures afterRecommend == AppState(q1, first, similar, false)
    ensures beforeSecondResolves == AppState(q2, first, similar, true)
    ensures afterSecond == AppState(q2, second, [], false)
  {
    var app := new App();
    app.SetQuery(q1);
    var s1 := app.SearchDispatch();
    busyDuringSearch := app.loading;
    app.SearchResolveOk(s1.value, first);
    afterSearch := app.State();
    var r := app.ClickResult(0);
    busyDuringRecommend := app.loading;
    app.RecommendResolveOk(r, similar);
    afterRecommend := app.State();
    app.SetQuery(q2);
    var s2 := app.SearchDispatch();
    beforeSecondResolves := app.State();
    app.SearchResolveOk(s2.value, second);
    afterSecond := app.State();
  }

  /** Two successful searches: the results are the second response only. */
  method SearchTwice(q1: string, q2: string, first: seq<Product>, second: seq<Product>)
    returns (shown: seq<Product>)
    requires !IsBlank(q1) && !IsBlank(q2)
    ensures shown == second
  {
    var app := new App();
    app.SetQuery(q1);
    var s1 := app.SearchDispatch();
    app.SearchResolveOk(s1.value, first);
    app.SetQuery(q2);
    var s2 := app.SearchDispatch();
    app.SearchResolveOk(s2.value, second);
    shown := app.results;
  }

  /** A blank query sends nothing and leaves every field as it was. */
  method BlankSearchScenario(blank: string) returns (sent: Option<Request>, after: AppState, outstanding: nat)
    requires forall i :: 0 <= i < |blank| ==> IsJsWhitespace(blank[i])
    ensures sent.None? && after == AppState(blank, [], [], false) && outstanding == 0
  {
    BlankIffAllWhitespace(blank);
    var app := new App();
    app.SetQuery(blank);
    sent := app.SearchDispatch();
    after := app.State();
    outstanding := |app.pending|;
  }

  /**
   * Two recommends overlap and their responses arrive in the opposite order:
   * `loading` is false after the first arrival although one request is still
   * outstanding, and the response that arrives last is the one displayed.
   */
  method OverlappingRecommends(first: int, second: int, forFirst: seq<Product>, forSecond: seq<Product>)
    returns (loadingAfterOne: bool, outstandingAfterOne: nat, shown: seq<Product>)
    ensures !loadingAfterOne && outstandingAfterOne == 1
    ensures shown == forFirst
  {
    var app := new App();
    var r1 := app.RecommendDispatch(first);
    var r2 := app.RecommendDispatch(second);
    app.RecommendResolveOk(r2, forSecond);
    loadingAfterOne := app.loading;
    outstandingAfterOne := |app.pending|;
    app.RecommendResolveOk(r1, forFirst);
    shown := app.recommendations;
  }

  /**
   * While a search is outstanding the button ignores clicks, but Enter in the
   * input sends a second request.
   */
  method EnterBypassesDisabledButton(query: string)
    returns (byClick: Option<Request>, clickWhileBusy: Option<Request>, enterWhileBusy: Option<Request>, outstanding: nat)
    requires !IsBlank(query)
    ensures byClick == Some(SearchRequest(query))
    ensures clickWhileBusy.None?
    ensures enterWhileBusy == Some(SearchRequest(query))
    ensures outstanding == 2
  {
    var app := new App();
    app.SetQuery(query);
    byClick := app.ClickSearch();
    clickWhileBusy := app.ClickSearch();
    enterWhileBusy := app.PressKey("Enter");
    outstanding := |app.pending|;
  }

  /** A failed recommend leaves both lists as they were and clears `loading`. */
  method FailedRecommendScenario(query: string, found: seq<Product>, similar: seq<Product>)
    returns (before: AppState, busy: bool, after: AppState)
    requires !IsBlank(query) && |found| > 0
    ensures before == AppState(query, found, similar, false)
    ensures busy
    ensures after == before
  {
    var app := new App();
    app.SetQuery(query);
    var s := app.SearchDispatch();
    app.SearchResolveOk(s.value, found);
    var r := app.ClickResult(0);
    app.RecommendResolveOk(r, similar);
    before := app.State();
    var r2 := app.ClickResult(0);
    busy := app.loading;
    app.RecommendResolveFail(r2);
    after := app.State();
  }
}
