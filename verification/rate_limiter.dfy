/** The fixed-window rate limiter of the similarity route. Each API key gets one Redis
    counter per minute, under the key `usage:<api key>:<minute>`. A request increments
    the counter first and compares afterwards, so refused requests are counted too.
    Time is whole seconds since the epoch. Redis expiry is an absolute deadline: a
    counter whose deadline has passed reads as absent. */
module RateLimiter {
  import opened Wrappers
  import Text

  const WindowSeconds: nat := 60
  const Freemium: string := "FREEMIUM"
  const Premium: string := "PREMIUM"
  const FreemiumLimit: nat := 5
  const PremiumLimit: nat := 50

  datatype Counter = Counter(count: nat, expiresAt: Option<nat>)

  type Counters = map<string, Counter>

  /** `RATE_LIMITS.get(account_type, RATE_LIMITS["FREEMIUM"])`; a NULL account type
      also falls back to the FREEMIUM limit. */
  function Limit(accountType: Option<string>): (limit: nat)
    ensures limit == (if accountType == Some(Premium) then PremiumLimit else FreemiumLimit)
    ensures limit >= 1
  {
    match accountType
    case Some(t) => if t == Freemium then FreemiumLimit else if t == Premium then PremiumLimit else FreemiumLimit
    case None => FreemiumLimit
  }

  /** `int(time.time() // 60)`. */
  function Window(now: nat): nat {
    now / WindowSeconds
  }

  /** `f"usage:{api_key}:{current_minute}"`. */
  function CounterKey(apiKey: string, window: nat): string {
    "usage:" + apiKey + ":" + Text.NatToString(window)
  }

  /** Two counters share a key only for the same API key in the same minute. */
  lemma CounterKeyInjective(k1: string, w1: nat, k2: string, w2: nat)
    ensures CounterKey(k1, w1) == CounterKey(k2, w2) <==> k1 == k2 && w1 == w2
  {
    if CounterKey(k1, w1) == CounterKey(k2, w2) {
      var d1 := Text.NatToString(w1);
      var d2 := Text.NatToString(w2);
      assert ':' !in d1 && ':' !in d2 by {
        assert forall i :: 0 <= i < |d1| ==> Text.IsDigit(d1[i]);
        assert forall i :: 0 <= i < |d2| ==> Text.IsDigit(d2[i]);
      }
      Text.LastSeparator("usage:" + k1, d1, "usage:" + k2, d2, ':');
      assert k1 == ("usage:" + k1)[6..] && k2 == ("usage:" + k2)[6..];
      Text.NatToStringInjective(w1, w2);
    }
  }

  /** Requests in the same minute use the same counter; requests in different
      minutes never do. */
  lemma SameCounterIffSameWindow(apiKey: string, t1: nat, t2: nat)
    ensures CounterKey(apiKey, Window(t1)) == CounterKey(apiKey, Window(t2)) <==> Window(t1) == Window(t2)
  {
    CounterKeyInjective(apiKey, Window(t1), apiKey, Window(t2));
  }

  /** A counter that exists and whose deadline, if any, has not passed. */
  predicate Live(cs: Counters, key: string, now: nat) {
    key in cs && (cs[key].expiresAt.None? || now < cs[key].expiresAt.value)
  }

  /** What Redis `GET` would report for the counter: zero when absent or expired. */
  function CurrentCount(cs: Counters, key: string, now: nat): nat {
    if Live(cs, key, now) then cs[key].count else 0
  }

  /** Redis `INCR`, followed by `EXPIRE key 60` when the new count is 1. INCR keeps an
      existing deadline. */
  function Incr(cs: Counters, key: string, now: nat): (r: (Counters, nat))
    ensures r.1 == CurrentCount(cs, key, now) + 1
    ensures key in r.0 && r.0[key].count == r.1
    ensures r.1 == 1 ==> r.0[key].expiresAt == Some(now + WindowSeconds)
    ensures r.1 > 1 ==> r.0[key].expiresAt == cs[key].expiresAt
    ensures forall k :: k != key ==> (k in r.0 <==> k in cs) && (k in cs ==> r.0[k] == cs[k])
  {
    var count := CurrentCount(cs, key, now) + 1;
    var expiresAt := if count == 1 then Some(now + WindowSeconds) else cs[key].expiresAt;
    (cs[key := Counter(count, expiresAt)], count)
  }

  datatype Decision = Admitted | Limited

  /** `_check_rate_limit`: the new counters, the post-increment count, and whether the
      request may proceed. */
  datatype Check = Check(counters: Counters, count: nat, decision: Decision)

  function CheckRateLimit(cs: Counters, apiKey: string, accountType: Option<string>, now: nat): (r: Check)
    ensures r.count == CurrentCount(cs, CounterKey(apiKey, Window(now)), now) + 1
    ensures r.decision == Limited <==> r.count > Limit(accountType)
    ensures r.counters == Incr(cs, CounterKey(apiKey, Window(now)), now).0
  {
    var key := CounterKey(apiKey, Window(now));
    var (counters, count) := Incr(cs, key, now);
    Check(counters, count, if count > Limit(accountType) then Limited else Admitted)
  }

  /** The deadline set on the first request of a minute lies at or after the end of that
      minute, so the counter stays live for every later second of the same minute. */
  lemma FirstRequestKeepsCounterForWindow(cs: Counters, apiKey: string, accountType: Option<string>, now: nat, later: nat)
    requires CurrentCount(cs, CounterKey(apiKey, Window(now)), now) == 0
    requires now <= later && Window(later) == Window(now)
    ensures var r := CheckRateLimit(cs, apiKey, accountType, now);
            Live(r.counters, CounterKey(apiKey, Window(now)), later)
  {
  }

  /** The decisions for requests from one API key at the given times, in order. */
  function Burst(cs: Counters, apiKey: string, accountType: Option<string>, times: seq<nat>): (r: (Counters, seq<Decision>))
    ensures |r.1| == |times|
    decreases |times|
  {
    if |times| == 0 then (cs, [])
    else
      var c := CheckRateLimit(cs, apiKey, accountType, times[0]);
      var rest := Burst(c.counters, apiKey, accountType, times[1..]);
      (rest.0, [c.decision] + rest.1)
  }

  /** All times fall in one minute, in non-decreasing order. */
  predicate OneWindow(times: seq<nat>, window: nat) {
    (forall k :: 0 <= k < |times| ==> Window(times[k]) == window) &&
    (forall i, j :: 0 <= i < j < |times| ==> times[i] <= times[j])
  }

  /** The counter of the window holds `count` and stays live for the whole window. */
  predicate CounterThroughWindow(cs: Counters, key: string, window: nat, count: nat) {
    if count == 0 then key !in cs
    else key in cs && cs[key].count == count &&
         cs[key].expiresAt.Some? && cs[key].expiresAt.value >= (window + 1) * WindowSeconds
  }

  lemma {:induction false} BurstFrom(cs: Counters, apiKey: string, accountType: Option<string>,
                                     times: seq<nat>, window: nat, count: nat)
    requires OneWindow(times, window)
    requires CounterThroughWindow(cs, CounterKey(apiKey, window), window, count)
    ensures forall k :: 0 <= k < |times| ==>
              (Burst(cs, apiKey, accountType, times).1[k] == Admitted <==> count + k + 1 <= Limit(accountType))
    decreases |times|
  {
    if |times| > 0 {
      var key := CounterKey(apiKey, window);
      var c := CheckRateLimit(cs, apiKey, accountType, times[0]);
      assert c.count == count + 1;
      assert CounterThroughWindow(c.counters, key, window, count + 1);
      assert OneWindow(times[1..], window);
      BurstFrom(c.counters, apiKey, accountType, times[1..], window, count + 1);
    }
  }

  /** Starting with no counter for the minute, exactly the first `limit` requests of a
      burst within that minute are admitted. */
  lemma BurstAdmitsExactlyLimit(cs: Counters, apiKey: string, accountType: Option<string>,
                                times: seq<nat>, window: nat)
    requires OneWindow(times, window)
    requires CounterKey(apiKey, window) !in cs
    ensures forall k :: 0 <= k < |times| ==>
              (Burst(cs, apiKey, accountType, times).1[k] == Admitted <==> k < Limit(accountType))
  {
    BurstFrom(cs, apiKey, accountType, times, window, 0);
  }

  /** A burst in one minute touches only that minute's counter. */
  lemma {:induction false} BurstTouchesOnlyItsCounter(cs: Counters, apiKey: string, accountType: Option<string>,
                                                      times: seq<nat>, window: nat, other: string)
    requires OneWindow(times, window)
    requires other != CounterKey(apiKey, window)
    ensures other in Burst(cs, apiKey, accountType, times).0 <==> other in cs
    decreases |times|
  {
    if |times| > 0 {
      assert OneWindow(times[1..], window);
      var c := CheckRateLimit(cs, apiKey, accountType, times[0]);
      BurstTouchesOnlyItsCounter(c.counters, apiKey, accountType, times[1..], window, other);
    }
  }

  /** However many requests one minute saw, the first request of the next minute is
      admitted, provided that minute's counter did not exist before the burst. */
  lemma NextWindowAdmitted(cs: Counters, apiKey: string, accountType: Option<string>,
                           times: seq<nat>, window: nat, next: nat)
    requires OneWindow(times, window)
    requires Window(next) == window + 1
    requires CounterKey(apiKey, window + 1) !in cs
    ensures CheckRateLimit(Burst(cs, apiKey, accountType, times).0, apiKey, accountType, next).decision == Admitted
  {
    CounterKeyInjective(apiKey, window, apiKey, window + 1);
    BurstTouchesOnlyItsCounter(cs, apiKey, accountType, times, window, CounterKey(apiKey, window + 1));
  }
}
