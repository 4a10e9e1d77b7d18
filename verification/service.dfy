/** The `/service` route as one step over the shared state (rate counters and result
    cache). The checks run in a fixed order and the first one that fails ends the
    request: bearer header, token verdict, API key, rate limit; then the read-through
    cache, and on a miss the ranker and a cache write. `jwt.decode` is the function
    `decode`, reduced to its verdict; the key table, the loaded model and the
    scorer are read-only inputs. */
module Service {
  import opened Wrappers
  import Text
  import Ranker
  import ResultCache
  import RateLimiter
  import Database

  const Unauthorized: nat := 401
  const TooManyRequests: nat := 429
  const BearerPrefix: string := "Bearer "

  datatype TokenVerdict = Valid | Expired | Invalid

  /** Why a request was turned away. */
  datatype Rejection = MissingToken | ExpiredToken | InvalidToken | MissingApiKey | InvalidApiKey | RateLimited
  {
    function Status(): nat {
      if RateLimited? then TooManyRequests else Unauthorized
    }

    function Detail(): string {
      match this
      case MissingToken => "JWT Token not provided."
      case ExpiredToken => "JWT Token has expired."
      case InvalidToken => "Invalid JWT Token."
      case MissingApiKey => "API Key not provided."
      case InvalidApiKey => "Invalid API Key."
      case RateLimited => "Rate limit exceeded. Please try again later."
    }
  }

  /** The `Authorization` header (absent or a string) and the parsed body. */
  datatype Request = Request(authorization: Option<string>, apiKey: string, entity: Ranker.EntityInput)

  /** The body only admits an integer or a string as `entity_input`. */
  predicate WellTyped(req: Request) {
    req.entity.EntityId? || req.entity.EntityLabel?
  }

  datatype Response = Rejected(reason: Rejection) | Served(cache: bool, result: ResultCache.Results)

  datatype State = State(counters: RateLimiter.Counters, cache: ResultCache.Store)

  datatype Transition = Transition(response: Response, next: State)

  /** A header that is present, non-empty and starts with "Bearer ". */
  predicate HasBearer(header: Option<string>) {
    header.Some? && header.value != "" && Text.StartsWith(header.value, BearerPrefix)
  }

  /** `token_header.split(" ")[1]`. */
  function BearerToken(header: string): string
    requires Text.StartsWith(header, BearerPrefix)
  {
    assert header == "Bearer" + [' '] + header[7..];
    Text.SecondPieceAfterPrefix("Bearer", header[7..], ' ');
    Text.Split(header, ' ')[1]
  }

  /** The token is the text after "Bearer " up to the next space, so it never holds
      a space itself. */
  lemma BearerTokenIsFirstWord(rest: string)
    ensures BearerToken(BearerPrefix + rest) == Text.Split(rest, ' ')[0]
    ensures ' ' !in BearerToken(BearerPrefix + rest)
  {
    Text.SplitJoin(rest, ' ');
    var header := BearerPrefix + rest;
    assert header == "Bearer" + [' '] + rest;
    assert header[7..] == rest;
    Text.SecondPieceAfterPrefix("Bearer", rest, ' ');
  }

  /** A header "Bearer <t>" with a space-free `t` carries exactly `t`. */
  lemma BearerTokenRoundTrip(t: string)
    requires ' ' !in t
    ensures BearerToken(BearerPrefix + t) == t
  {
    BearerTokenIsFirstWord(t);
    Text.JoinSplit([t], ' ');
  }

  /** JWT validation: the first failing check, if any. */
  function Authenticate(header: Option<string>, decode: string -> TokenVerdict): (r: Option<Rejection>)
    ensures !HasBearer(header) ==> r == Some(MissingToken)
    ensures HasBearer(header) ==>
              r == match decode(BearerToken(header.value))
                   case Valid => None
                   case Expired => Some(ExpiredToken)
                   case Invalid => Some(InvalidToken)
  {
    if !HasBearer(header) then Some(MissingToken)
    else
      match decode(BearerToken(header.value))
      case Valid => None
      case Expired => Some(ExpiredToken)
      case Invalid => Some(InvalidToken)
  }

  /** API key validation: present, found, and echoed back by the table. */
  function ResolveKey(registry: Database.Registry, apiKey: string): (r: Result<Database.ApiKeyRow, Rejection>)
    ensures apiKey == "" ==> r == Failure(MissingApiKey)
    ensures apiKey != "" ==>
              (r.Failure? <==> forall k :: 0 <= k < |registry| ==> registry[k].apiKey != apiKey)
    ensures apiKey != "" && r.Failure? ==> r.error == InvalidApiKey
    ensures r.Success? ==> r.value in registry && r.value.apiKey == apiKey
  {
    if apiKey == "" then Failure(MissingApiKey)
    else
      match Database.GetApiKeyInfo(registry, apiKey)
      case None => Failure(InvalidApiKey)
      case Some(row) => if row.apiKey != apiKey then Failure(InvalidApiKey) else Success(row)
  }

  /** `similarity_service`. */
  function Step(st: State, req: Request, now: nat, decode: string -> TokenVerdict,
                registry: Database.Registry, model: Ranker.Model,
                score: (int, int) -> seq<real>): (r: Transition)
    requires Ranker.Loaded(model)
    requires WellTyped(req)
    // Authentication failures touch neither counters nor cache.
    ensures Authenticate(req.authorization, decode).Some? ==>
              r == Transition(Rejected(Authenticate(req.authorization, decode).value), st)
    ensures Authenticate(req.authorization, decode).None? && ResolveKey(registry, req.apiKey).Failure? ==>
              r == Transition(Rejected(ResolveKey(registry, req.apiKey).error), st)
    // Past authentication the counter is always incremented, refused or not.
    ensures Authenticate(req.authorization, decode).None? && ResolveKey(registry, req.apiKey).Success? ==>
              var check := RateLimiter.CheckRateLimit(st.counters, req.apiKey,
                                                      ResolveKey(registry, req.apiKey).value.accountType, now);
              r.next.counters == check.counters &&
              (r.response == Rejected(RateLimited) <==> check.decision == RateLimiter.Limited) &&
              (check.decision == RateLimiter.Limited ==> r.next.cache == st.cache)
    // An admitted request is served; the cache decides between the stored list and a
    // fresh ranking.
    ensures Authenticate(req.authorization, decode).None? && ResolveKey(registry, req.apiKey).Success? &&
            RateLimiter.CheckRateLimit(st.counters, req.apiKey,
                                       ResolveKey(registry, req.apiKey).value.accountType, now).decision
              == RateLimiter.Admitted ==>
              var key := ResultCache.KeyOf(req.entity);
              match ResultCache.Get(st.cache, key)
              case Some(hit) => r.response == Served(true, hit.result) && r.next.cache == st.cache
              case None =>
                var result := Ranker.PredictSimilarity(model, req.entity, Ranker.DefaultRelation,
                                                       Ranker.DefaultTopK, score);
                r.response == Served(false, result) &&
                r.next.cache == ResultCache.Set(st.cache, key, result).0
  {
    match Authenticate(req.authorization, decode)
    case Some(reason) => Transition(Rejected(reason), st)
    case None =>
      match ResolveKey(registry, req.apiKey)
      case Failure(reason) => Transition(Rejected(reason), st)
      case Success(row) =>
        var check := RateLimiter.CheckRateLimit(st.counters, req.apiKey, row.accountType, now);
        if check.decision == RateLimiter.Limited then
          Transition(Rejected(RateLimited), st.(counters := check.counters))
        else
          var key := ResultCache.KeyOf(req.entity);
          match ResultCache.Get(st.cache, key)
          case Some(hit) => Transition(Served(true, hit.result), st.(counters := check.counters))
          case None =>
            var result := Ranker.PredictSimilarity(model, req.entity, Ranker.DefaultRelation,
                                                   Ranker.DefaultTopK, score);
            var (cache, _) := ResultCache.Set(st.cache, key, result);
            Transition(Served(false, result), State(check.counters, cache))
  }

  /** Every refusal before the rate limit is a 401, and only the rate limit gives 429. */
  lemma RejectionStatus(st: State, req: Request, now: nat, decode: string -> TokenVerdict,
                        registry: Database.Registry, model: Ranker.Model, score: (int, int) -> seq<real>)
    requires Ranker.Loaded(model)
    requires WellTyped(req)
    ensures var r := Step(st, req, now, decode, registry, model, score);
            r.response.Rejected? ==>
              (r.response.reason.Status() == TooManyRequests <==> r.response.reason == RateLimited) &&
              (r.response.reason.Status() == Unauthorized <==> r.response.reason != RateLimited)
    ensures var r := Step(st, req, now, decode, registry, model, score);
            r.response.Rejected? && r.response.reason != RateLimited ==> r.next == st
  {
  }

  /** A request without a usable bearer header is refused before anything else is
      consulted: the reply and the state do not depend on the key table, the model,
      the scorer, the clock or the decoder. */
  lemma MissingTokenFirst(st: State, req: Request, now1: nat, now2: nat,
                          decode1: string -> TokenVerdict, decode2: string -> TokenVerdict,
                          reg1: Database.Registry, reg2: Database.Registry,
                          m1: Ranker.Model, m2: Ranker.Model,
                          s1: (int, int) -> seq<real>, s2: (int, int) -> seq<real>)
    requires Ranker.Loaded(m1) && Ranker.Loaded(m2)
    requires WellTyped(req)
    requires !HasBearer(req.authorization)
    ensures Step(st, req, now1, decode1, reg1, m1, s1) == Step(st, req, now2, decode2, reg2, m2, s2)
    ensures Step(st, req, now1, decode1, reg1, m1, s1) == Transition(Rejected(MissingToken), st)
  {
  }

  /** Two admitted requests for the same entity: the second is served from the cache
      with exactly the list the first computed. */
  lemma SecondRequestHitsCache(st: State, req1: Request, req2: Request, t1: nat, t2: nat,
                               decode: string -> TokenVerdict, registry: Database.Registry,
                               model: Ranker.Model, score: (int, int) -> seq<real>)
    requires Ranker.Loaded(model)
    requires WellTyped(req1) && WellTyped(req2) && req1.entity == req2.entity
    requires Step(st, req1, t1, decode, registry, model, score).response.Served?
    requires Authenticate(req2.authorization, decode).None?
    requires ResolveKey(registry, req2.apiKey).Success?
    requires var mid := Step(st, req1, t1, decode, registry, model, score).next;
             RateLimiter.CheckRateLimit(mid.counters, req2.apiKey,
                                        ResolveKey(registry, req2.apiKey).value.accountType, t2).decision
               == RateLimiter.Admitted
    ensures var first := Step(st, req1, t1, decode, registry, model, score);
            var second := Step(first.next, req2, t2, decode, registry, model, score);
            second.response == Served(true, first.response.result) &&
            second.next.cache == first.next.cache
  {
    var first := Step(st, req1, t1, decode, registry, model, score);
    var key := ResultCache.KeyOf(req1.entity);
    assert ResultCache.Get(first.next.cache, key) == Some(ResultCache.Cached(true, first.response.result));
  }

  /** An entity that fails validation is still answered with a 200-style reply: the
      sentinel list, not marked as cached, and that sentinel is what the cache now holds. */
  lemma InvalidEntityIsServedAndCached(st: State, req: Request, now: nat, decode: string -> TokenVerdict,
                                       registry: Database.Registry, model: Ranker.Model,
                                       score: (int, int) -> seq<real>)
    requires Ranker.Loaded(model)
    requires WellTyped(req)
    requires Authenticate(req.authorization, decode).None?
    requires ResolveKey(registry, req.apiKey).Success?
    requires RateLimiter.CheckRateLimit(st.counters, req.apiKey,
                                        ResolveKey(registry, req.apiKey).value.accountType, now).decision
               == RateLimiter.Admitted
    requires ResultCache.KeyOf(req.entity) !in st.cache
    requires Ranker.ValidateInput(model, req.entity).Failure?
    ensures var sentinel := [Ranker.Pair(Ranker.Message(Ranker.ValidateInput(model, req.entity).error),
                                         Ranker.ErrorScore)];
            var r := Step(st, req, now, decode, registry, model, score);
            r.response == Served(false, sentinel) &&
            ResultCache.Get(r.next.cache, ResultCache.KeyOf(req.entity)) == Some(ResultCache.Cached(true, sentinel))
  {
  }
}
