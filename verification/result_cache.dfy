/** The Redis-backed result cache. Redis is a map from key strings to stored values;
    a stored value is either the JSON encoding of a result list or an empty string
    written by someone else. JSON itself is not modelled: `Encoded(r)` stands for
    `json.dumps(r)`, which for any list starts with '[' and so is never empty. */
module ResultCache {
  import opened Wrappers
  import Text
  import Ranker

  type Results = seq<Ranker.Pair>

  datatype Entry = Encoded(results: Results) | Blank

  type Store = map<string, Entry>

  /** The dictionary `get_cached_results` returns on a hit. */
  datatype Cached = Cached(cache: bool, result: Results)

  /** The key the Redis client sends for an `entity_input`: a string as is, an integer
      as its decimal text. */
  function KeyOf(e: Ranker.EntityInput): string
    requires e.EntityId? || e.EntityLabel?
  {
    match e
    case EntityId(id) => Text.IntToString(id)
    case EntityLabel(name) => name
  }

  /** Distinct ids get distinct keys, and distinct labels get distinct keys. */
  lemma KeyOfInjectiveWithinKind(a: Ranker.EntityInput, b: Ranker.EntityInput)
    requires (a.EntityId? && b.EntityId?) || (a.EntityLabel? && b.EntityLabel?)
    requires KeyOf(a) == KeyOf(b)
    ensures a == b
  {
    if a.EntityId? {
      Text.IntToStringInjective(a.id, b.id);
    }
  }

  /** An id and the label spelling the same digits share one key. */
  lemma IdAndDigitLabelShareKey(id: int)
    ensures KeyOf(Ranker.EntityId(id)) == KeyOf(Ranker.EntityLabel(Text.IntToString(id)))
  {
  }

  /** `get_cached_results`: a miss when nothing, or an empty string, is stored under the
      key; otherwise the decoded list flagged as coming from the cache. */
  function Get(s: Store, key: string): (r: Option<Cached>)
    ensures r.None? <==> key !in s || s[key] == Blank
    ensures r.Some? ==> r.value.cache && r.value.result == s[key].results
  {
    if key in s && s[key].Encoded? then Some(Cached(true, s[key].results)) else None
  }

  /** `set_cached_results`: overwrite whatever is stored under the key, with no expiry,
      and report success. */
  function Set(s: Store, key: string, results: Results): (r: (Store, bool))
    ensures r.1
    ensures key in r.0 && r.0[key] == Encoded(results)
    ensures r.0.Keys == s.Keys + {key}
    ensures forall k :: k in s && k != key ==> r.0[k] == s[k]
  {
    (s[key := Encoded(results)], true)
  }

  /** Reading back a key just written gives the written list as a hit; every other
      key reads as before. */
  lemma GetAfterSet(s: Store, key: string, results: Results, other: string)
    ensures Get(Set(s, key, results).0, key) == Some(Cached(true, results))
    ensures other != key ==> Get(Set(s, key, results).0, other) == Get(s, other)
  {
  }

  /** Writing twice under one key leaves only the second list visible. */
  lemma SetOverwrites(s: Store, key: string, first: Results, second: Results)
    ensures Set(Set(s, key, first).0, key, second).0 == Set(s, key, second).0
  {
  }

  /** An empty result list still reads back as a hit. */
  lemma EmptyResultIsHit(s: Store, key: string)
    ensures Get(Set(s, key, []).0, key).Some?
  {
  }
}
