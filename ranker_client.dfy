/**
 * The agent's client for the ranking service: posts the routes, and turns
 * the outcome of the exchange (a timeout, a transport error, or a response
 * with a status and a body) into `(scores, failed_route_ids)` or an error.
 * The transport is a parameter `post`, the outcome of posting a payload:
 * the model decides what the client sends and what it does with each
 * outcome, not how the request travels.
 */
module RankerClient {
  import opened Wrappers
  import opened Filters
  import Ranker

  /** A route as the agent submits it; `route_id` may be absent. */
  datatype RouteEntry = RouteEntry(routeId: Option<string>, features: Ranker.Features)

  /**
   * A response body: a JSON object (with or without each of the two keys),
   * JSON that is not an object, or text that is not JSON at all.
   */
  datatype Body =
    | JsonObject(scores: Option<seq<Ranker.ScoreItem>>, failedRouteIds: Option<seq<string>>)
    | JsonOther
    | NotJson

  /** The request body `{"request_id": ..., "routes": ...}`. */
  datatype Payload = Payload(requestId: string, routes: seq<RouteEntry>)

  /** What posting a payload to the service produced. */
  datatype Exchange =
    | Timeout
    | RequestError
    | Response(status: int, body: Body)

  /** The exceptions `rank_routes` lets escape. */
  datatype ClientError =
    | TimedOut
    | RequestFailed
    | InvalidJson
    | NotAnObject
    | HttpStatusError(status: int)

  datatype Ranking = Ranking(scores: seq<Ranker.ScoreItem>, failedRouteIds: seq<string>)

  /** httpx's `raise_for_status`: every status outside 2xx raises. */
  predicate IsSuccess(status: int) {
    200 <= status < 300
  }

  /** The condition of the id comprehension. */
  predicate HasRouteId(r: RouteEntry) {
    r.routeId.Some?
  }

  /** `[x.get("route_id") for x in routes if "route_id" in x]`. */
  function PresentIds(routes: seq<RouteEntry>): (ids: seq<string>)
    ensures |ids| <= |routes|
    ensures forall j :: 0 <= j < |ids| ==> exists i :: 0 <= i < |routes| && routes[i].routeId == Some(ids[j])
  {
    if routes == [] then []
    else
      var init := PresentIds(routes[..|routes| - 1]);
      match routes[|routes| - 1].routeId
      case Some(id) => init + [id]
      case None => init
  }

  /**
   * The j-th reported id is the id of the j-th route that carries one, so
   * every such route contributes its id once, in submission order.
   */
  lemma {:induction false} PresentIdsIsFilter(routes: seq<RouteEntry>)
    ensures |PresentIds(routes)| == |Positions(routes, HasRouteId)|
    ensures forall j :: 0 <= j < |PresentIds(routes)| ==>
      Positions(routes, HasRouteId)[j] < |routes| && routes[Positions(routes, HasRouteId)[j]].routeId == Some(PresentIds(routes)[j])
  {
    if routes != [] {
      var init := routes[..|routes| - 1];
      PresentIdsIsFilter(init);
      PositionsSpec(init, HasRouteId);
      assert forall i :: 0 <= i < |init| ==> init[i] == routes[i];
    }
  }

  /**
   * `rank_routes`: 200 passes the body's lists through (empty when a key is
   * missing); 422 means nothing could be scored, so every submitted id is
   * reported failed; any other non-2xx status raises; another 2xx status
   * yields two empty lists.
   */
  function RankRoutes(requestId: string, routes: seq<RouteEntry>, post: Payload -> Exchange): (r: Result<Ranking, ClientError>)
    ensures var exchange := post(Payload(requestId, routes));
      && (exchange.Timeout? ==> r == Failure(TimedOut))
      && (exchange.RequestError? ==> r == Failure(RequestFailed))
      && (exchange.Response? && exchange.status == 200 ==>
        match exchange.body
        case JsonObject(s, f) => r == Success(Ranking(s.GetOr([]), f.GetOr([])))
        case JsonOther => r == Failure(NotAnObject)
        case NotJson => r == Failure(InvalidJson))
      && (exchange.Response? && exchange.status == 422 ==> r == Success(Ranking([], PresentIds(routes))))
      && (exchange.Response? && exchange.status != 200 && exchange.status != 422 ==>
        (r.Failure? <==> !IsSuccess(exchange.status))
        && (r.Failure? ==> r.error == HttpStatusError(exchange.status))
        && (r.Success? ==> r.value == Ranking([], [])))
      && (r.Success? && r.value.scores != [] ==> exchange.Response? && exchange.status == 200)
  {
    var exchange := post(Payload(requestId, routes));
    match exchange
    case Timeout => Failure(TimedOut)
    case RequestError => Failure(RequestFailed)
    case Response(status, body) =>
      if status == 200 then
        match body
        case JsonObject(s, f) => Success(Ranking(s.GetOr([]), f.GetOr([])))
        case JsonOther => Failure(NotAnObject)
        case NotJson => Failure(InvalidJson)
      else if status == 422 then
        Success(Ranking([], PresentIds(routes)))
      else if !IsSuccess(status) then
        Failure(HttpStatusError(status))
      else
        Success(Ranking([], []))
  }

  // ---------------------------------------------------------------------
  // The client against the service
  // ---------------------------------------------------------------------

  /** The routes as the service parses them, when every one carries an id. */
  function ToRankRoutes(routes: seq<RouteEntry>): (rs: seq<Ranker.RankRoute>)
    requires forall i :: 0 <= i < |routes| ==> routes[i].routeId.Some?
    ensures |rs| == |routes|
    ensures forall i :: 0 <= i < |routes| ==>
      rs[i] == Ranker.RankRoute(routes[i].routeId.value, routes[i].features)
  {
    if routes == [] then []
    else ToRankRoutes(routes[..|routes| - 1]) + [Ranker.RankRoute(routes[|routes| - 1].routeId.value, routes[|routes| - 1].features)]
  }

  /** The response the service sends for its own result. */
  function Reply(result: Result<Ranker.RankResponse, Ranker.HttpError>): (e: Exchange)
    ensures e.Response?
    ensures result.Success? ==> e.status == 200
    ensures result.Failure? ==> e.status == result.error.status
  {
    match result
    case Success(resp) => Response(200, JsonObject(Some(resp.scores), Some(resp.failedRouteIds)))
    case Failure(err) => Response(err.status, JsonObject(None, None))
  }

  /** With every id present, the ids the client collects are the ids the service reads. */
  lemma {:induction false} PresentIdsAreRouteIds(routes: seq<RouteEntry>)
    requires forall i :: 0 <= i < |routes| ==> routes[i].routeId.Some?
    ensures PresentIds(routes) == Ranker.RouteIds(ToRankRoutes(routes))
  {
    if routes != [] {
      var init := routes[..|routes| - 1];
      PresentIdsAreRouteIds(init);
      assert ToRankRoutes(routes)[..|routes| - 1] == ToRankRoutes(init);
    }
  }

  /**
   * Against the service's own answer, the client reports what the service
   * decided: the sorted scores and the failed ids on success, and, when
   * nothing scored (422), every id as failed, which is exactly the service's
   * list of routes that failed to score.
   */
  lemma ClientAgreesWithService(requestId: string, routes: seq<RouteEntry>, post: Payload -> Exchange)
    requires forall i :: 0 <= i < |routes| ==> routes[i].routeId.Some?
    requires post(Payload(requestId, routes)) == Reply(Ranker.RankResult(ToRankRoutes(routes)))
    ensures var rs := ToRankRoutes(routes);
      RankRoutes(requestId, routes, post)
      == Success(Ranking(
        if Ranker.ScoredItems(rs) == [] then [] else Ranker.SortDesc(Ranker.ScoredItems(rs)),
        Ranker.FailedIds(rs)))
  {
    var rs := ToRankRoutes(routes);
    if Ranker.ScoredItems(rs) == [] {
      PresentIdsAreRouteIds(routes);
      Ranker.NothingScoredAllFailed(rs);
    }
  }
}
