# Gated similarity service — a Dafny model

This project models the request path of a small inference API, plus the registration
and login routes that create its users. Callers register with an email and a password.
Registration gives them an API key, with a tier chosen from the email. They log in to
get a JWT. They then call `/service` with the token and the key. The service checks
the token, then the key, then a per-minute rate limit. It answers from a Redis cache
when it can. Otherwise it asks a TransH ranker for the entities most similar to the
requested one, stores that answer and returns it.

Everything is modelled as pure functions over explicit stores:

| file | module | models |
|---|---|---|
| `wrappers.dfy` | `Wrappers` | `Option`, `Result` |
| `text.dfy` | `Text` | Python's `startswith`, `in`, `split`, `split(c, 1)[1]`, `str(int)` |
| `ranker.dfy` | `Ranker` | `src/ml/model.py`: head filter, `heads_idx`, validation, ordering, projection, top-k cut |
| `result_cache.dfy` | `ResultCache` | `src/core/redis_client.py`: cache get and set over a key→entry map |
| `rate_limiter.dfy` | `RateLimiter` | `_check_rate_limit` and `RATE_LIMITS` of `src/api/routes/service.py` |
| `service.dfy` | `Service` | `similarity_service`: the fail-fast step over `{counters, cache}` |
| `database.dfy` | `Database` | `src/core/database.py`: tier rule, key table, user collection |
| `session.dfy` | `Session` | `src/api/routes/session.py`: register, login, credential check, token claims |

External collaborators are parameters:
- the trained model's `score_t` is a function `score(entity, relation) -> seq<real>`;
- `jwt.decode` is a function from token to verdict `Valid | Expired | Invalid`;
- bcrypt is a pair `hash`/`verify` obeying `verify(p, hash(p))`;
- `jwt.encode` is a function `sign(claims, secret)`;
- `secrets.token_hex` is a `freshKey` argument;
- failures of `create_user_in_db` and `insert_api_key_in_db`, which catch their database errors, are a `dbOk` flag;
- `time.time()` is a natural number of seconds.

Behaviours of the code that are easy to miss:
- A validation failure is not a typed error. `predict_similarity` returns the list
  `[(message, -1.0)]`. The route serves it with `cache=False` and caches it like any
  other result (`Service.InvalidEntityIsServedAndCached`).
- The cache is not first-writer-wins. `set_cached_results` overwrites
  unconditionally (`ResultCache.SetOverwrites`).
- An integer input and a label are not always distinct cache keys. The Redis client
  sends the integer 5 as the text `5`, so the label `"5"` shares its entry
  (`ResultCache.IdAndDigitLabelShareKey`).
- The head filter's comment (`src/ml/model.py:78`) speaks of "3 underscores". The code counts three
  `_`-separated tokens after the first `#`, which means exactly two underscores
  (`Ranker.FilterHeadIff`). So `http://…/pronto.owl#space_site_1` passes, and both the
  bare marker and `…#space_site_1_2` fail (`Ranker.FilterHeadAfterMarker`).
- A missing `SECRET_KEY` is not caught at startup. Login fails per request with an
  error and no token (`Session.GenerateJwt`).
- The ordering indices are positions into `heads_idx`, not entity ids. The label is
  that of `heads_idx[i]`, while the score is that of entity `i`.

## Model

| member | source | states |
|---|---|---|
| Ranker.FilterHeadIff | src/ml/model.py:80-85 | a head passes iff it contains "pronto.owl#space_site" and the text after its first '#' has exactly two underscores (three '_' tokens) |
| Ranker.FilterHeadAfterMarker | src/ml/model.py:78-85 | for any head of the form p + marker + rest with no '#' in p, passing is equivalent to exactly one underscore in rest, so the bare marker and a third underscore are both refused |
| Ranker.Heads | src/ml/model.py:88 | every selected head passes the filter |
| Ranker.HeadsConcat | src/ml/model.py:88 | the head selection distributes over concatenation of rows, so it keeps row order and duplicates |
| Ranker.HeadsMembership | src/ml/model.py:88 | a string is a selected head iff some row has it as head and it passes the filter |
| Ranker.Load | src/ml/model.py:88-93 | `heads_idx` has one id per selected head, and its k-th entry is the factory id of the k-th head |
| Ranker.LoadMembership | src/ml/model.py:88-93 | an id is in `heads_idx` iff it is the factory id of some matching row's head |
| Ranker.LoadIsLoaded | src/ml/model.py:88-93 | when every factory id has a label, every id in `heads_idx` can be labelled |
| Ranker.ValidateInput | src/ml/model.py:137-163 | an id is accepted iff it is in `heads_idx` and is returned unchanged; an unknown label gives "not found", a known label with an ineligible id gives "not allowed", any other input a type error; any accepted id is eligible |
| Ranker.LabelAndIdAgree | src/ml/model.py:147-160 | a known label and its id are accepted or refused together and resolve to the same id |
| Ranker.SafeResolve | src/ml/model.py:187-195 | a value is returned iff Python list indexing of `heads_idx` succeeds (-len <= i < len), it is an element of `heads_idx`, and it is `heads_idx[i]` for 0 <= i < len |
| Ranker.AscendingOrder | src/ml/model.py:125-130 | the ordering is a permutation of 0..N-1 listed in non-decreasing score order |
| Ranker.AscendingOrderCount | src/ml/model.py:125-130 | exactly min(N, b) of the ordered indices are below b |
| Ranker.ProjectPairs | src/ml/model.py:175-185 | every collected pair is the label of heads_idx[indices[i]] paired with values[i], for an in-range position i |
| Ranker.ProjectLength | src/ml/model.py:175-185 | with non-negative indices, the walk yields one pair per position whose index is below len(heads_idx) |
| Ranker.ProjectAscending | src/ml/model.py:175-185 | if the values are ascending, the collected pairs' scores are non-decreasing |
| Ranker.ExtractTopIsPrefix | src/ml/model.py:175-185 | the early-returning walk equals the full projection cut to max(top_k, 1) entries (the length test follows the append) |
| Ranker.Rank | src/ml/model.py:118-133 | the ranked list is the first max(top_k,1) pairs (label of heads_idx[idx], score) over the in-range positions idx of the ascending ordering; it has min(max(top_k,1), N, len(heads_idx)) entries, in non-decreasing score order, each labelled with an eligible head |
| Ranker.PredictSimilarity | src/ml/model.py:101-133 | a validation failure yields exactly `[(message, -1.0)]`, independent of the scorer; otherwise the ranking of the scorer's output for the validated id and relation |
| ResultCache.KeyOfInjectiveWithinKind | src/core/redis_client.py:43-59 | two ids, or two labels, share a cache key only if they are equal |
| ResultCache.IdAndDigitLabelShareKey | src/core/redis_client.py:43-59 | an integer input and the label spelling its digits address the same cache entry |
| ResultCache.Get | src/core/redis_client.py:35-47 | a miss iff nothing or an empty value is stored; a hit carries cache=True and the stored list |
| ResultCache.Set | src/core/redis_client.py:50-60 | the list is stored under the key unconditionally, other keys keep their entries, and the call reports True |
| ResultCache.GetAfterSet | src/core/redis_client.py:35-60 | reading a key just written gives cache=True with the written list; other keys read as before |
| ResultCache.SetOverwrites | src/core/redis_client.py:57-60 | a second write under a key replaces the first |
| ResultCache.EmptyResultIsHit | src/core/redis_client.py:44-58 | an empty result list still reads back as a hit |
| RateLimiter.Limit | src/api/routes/service.py:36-39 | 50 for PREMIUM, 5 for FREEMIUM, unknown or missing account types |
| RateLimiter.CounterKeyInjective | src/api/routes/service.py:132-133 | "usage:key:minute" keys are equal iff both the API key and the minute are |
| RateLimiter.SameCounterIffSameWindow | src/api/routes/service.py:132-133 | two requests of one key share a counter iff they fall in the same minute |
| RateLimiter.Incr | src/api/routes/service.py:137-141 | the new count is the live count plus one; a 60-second deadline is set only when it is 1, otherwise the deadline is kept; other counters are untouched |
| RateLimiter.CheckRateLimit | src/api/routes/service.py:121-150 | the counter is incremented first and the request is refused iff the new count exceeds the tier's limit |
| RateLimiter.FirstRequestKeepsCounterForWindow | src/api/routes/service.py:139-141 | the deadline set on a minute's first request keeps the counter live for the rest of that minute |
| RateLimiter.BurstAdmitsExactlyLimit | src/api/routes/service.py:136-150 | from an absent counter, the k-th request of a burst within one minute is admitted iff k <= limit |
| RateLimiter.BurstTouchesOnlyItsCounter | src/api/routes/service.py:132-137 | a burst within one minute creates or removes no other counter |
| RateLimiter.NextWindowAdmitted | src/api/routes/service.py:132-150 | after any burst in one minute, the first request of the next minute is admitted |
| Service.BearerTokenIsFirstWord | src/api/routes/service.py:60 | the token is the text after "Bearer " up to the next space, and holds no space |
| Service.BearerTokenRoundTrip | src/api/routes/service.py:60 | "Bearer " followed by a space-free token yields that token |
| Service.Authenticate | src/api/routes/service.py:54-73 | a missing, empty or non-"Bearer " header gives MissingToken; otherwise the decoder's verdict on the second field maps to pass, ExpiredToken or InvalidToken |
| Service.ResolveKey | src/api/routes/service.py:75-87 | an empty key gives MissingApiKey; otherwise InvalidApiKey iff no row carries the key; success returns a row of the table with that key |
| Service.Step | src/api/routes/service.py:42-114 | auth and key failures change nothing; past them the counter always increments and 429 is returned iff the tier limit is exceeded; an admitted request is always served: a hit returns the stored list with cache=True and leaves the cache alone; a miss ranks the raw input (relation 5, top 10), stores the result and returns it with cache=False |
| Service.RejectionStatus | src/api/routes/service.py:55-150 | a refusal has status 429 iff it is the rate limit and 401 otherwise, and every refusal other than the rate limit leaves counters and cache unchanged |
| Service.MissingTokenFirst | src/api/routes/service.py:53-60 | without a usable bearer header the reply and state do not depend on the key table, model, scorer, clock or decoder |
| Service.SecondRequestHitsCache | src/api/routes/service.py:93-114 | after a served request, an admitted request for the same entity gets cache=True with the identical list |
| Service.InvalidEntityIsServedAndCached | src/api/routes/service.py:103-114 | an entity that fails validation is served as the sentinel list with cache=False, and the sentinel is what the cache then holds |
| Database.AccountTypeFor | src/core/database.py:97 | PREMIUM iff the email contains "gmail.com", otherwise FREEMIUM |
| Database.PremiumIffOccurs | src/core/database.py:97 | PREMIUM iff "gmail.com" occurs at some position of the email |
| Database.GetApiKeyInfo | src/core/database.py:70-83 | nothing iff no row has the key; otherwise a row carrying the key (the first in table order) |
| Database.InsertApiKey | src/core/database.py:86-116 | on success exactly one row (key, email, tier) is appended and (key, tier) returned; on any error nothing changes and "" is returned |
| Database.InsertThenLookup | src/core/database.py:94-116 | a freshly inserted key is then found with its email and tier; other lookups are unaffected |
| Database.GetUserInfo | src/core/database.py:137-145 | a document iff the email is stored, holding the stored password |
| Database.CreateUser | src/core/database.py:148-172 | True iff the store works and the email is new, in which case exactly {email: password} is added; otherwise nothing changes |
| Database.CreateThenGet | src/core/database.py:158-168 | a created user reads back with exactly the given password; other users are unchanged |
| Session.Register | src/api/routes/session.py:39-68 | refused with 400 iff the email exists or the store fails, changing nothing; otherwise hash(password) is stored; it succeeds iff the key insert works, returning that key and tier |
| Session.VerifyCredentials | src/api/routes/session.py:102-116 | true iff the email is known and verify(password, stored hash) holds |
| Session.GenerateJwt | src/api/routes/session.py:119-139 | no token iff SECRET_KEY is unset or empty; otherwise the signature of {sub: email, exp: now + 3600} |
| Session.Login | src/api/routes/session.py:71-96 | 400 "Invalid email or password." iff the credentials fail; otherwise a token with sub = email and exp = now + 3600, or an error without token when the secret is missing |
| Session.RegisterStoresHash | src/api/routes/session.py:53-55 | registration stores hash(password) under the email |
| Session.DuplicateRegistrationChangesNothing | src/api/routes/session.py:55-60 | registering an existing email is refused with 400 and leaves both stores unchanged |
| Session.RegisterTwice | src/api/routes/session.py:53-68 | the first registration returns its key; the second is refused and keeps the first's records |
| Session.KeyFailureStrandsUser | src/api/routes/session.py:55-68 | a failed key insert leaves the user stored without a key, and that email can no longer register |
| Session.LoginDoesNotRevealAccounts | src/api/routes/session.py:83-88 | an unknown email and a wrong password give the identical reply |
| Session.RegisterThenLogin | src/api/routes/session.py:53-116 | under verify(p, hash(p)), logging in with the registered password yields the token for that email expiring an hour later |

## Left out

- Concurrency is not modelled: the atomicity of INCR, duplicate work on simultaneous cache misses, and the cached connection singletons. The model is sequential.
- Floating point is not modelled. Scores are `real`, the -1.0 sentinel is the constant `ErrorScore`, and time is whole seconds.
- `torch.topk` internals: the ordering is a stable insertion sort by score. Tied scores therefore keep index order, which torch does not promise.
- JSON encoding is not modelled. A cache entry is either the encoded list or a blank value written by someone else. The route's re-validation of a cached list through the response schema is not modelled either.
- Rate counters and cached results share one Redis keyspace in the source. The model keeps them in two maps, so a label shaped like `usage:…` cannot hit a counter.
- `jwt.decode` is reduced to a three-way verdict. Other exceptions it may raise, such as a missing secret at decode time, are not modelled.
- bcrypt salting is not modelled: `hash` is a deterministic function.
- A key insert whose `RETURNING` yields no row counts as the same failure as a database error, because both return "".
- Email-format validation by the request schema is not modelled.
- Python's `bool` being an `int` is not modelled.
- Loading files and the model (`torch.load`, `TriplesFactory.from_path`, `pd.read_csv`) is not modelled. The rows and the factory's tables are given values. The `sameAs` relation lookup in `load` is not modelled because ranking never uses it.
- Ranker.ExtractTop and Ranker.PredictSimilarity require `Loaded`: every eligible id has a label. If one did not, the source would raise an unhandled `KeyError`.
- Exceptions from collaborators are not modelled. This covers `get_api_key_info` on the request path, `get_user_info` and a malformed stored hash on login, and the Redis `incr`/`expire`/`get`/`set` calls. Each would surface as an unhandled server error. A Redis failure after the increment would leave the request counted but unanswered.
- Database.GetApiKeyInfo: returns the first matching row in table order. The SQL query has no ORDER BY, so the source does not fix which row is returned. Keys come from `secrets.token_hex` and are unique in practice.
- Service.Step requires the input to be an integer or a string. The request schema admits nothing else.
- The startup and shutdown wiring (`src/api/main.py`), logging (`src/utils/logger.py`) and the metadata endpoint (`src/api/routes/home.py`) are not modelled.
