/** The TransH similarity ranker: which heads are eligible as query subjects, how an
    entity input (an id, a label, or anything else) is validated against them, and how
    the oracle's score vector becomes a bounded list of (label, score) pairs.
    The trained model is an uninterpreted function `score(entity, relation)` that
    returns one score per entity; scores are reals. */
module Ranker {
  import opened Wrappers
  import Text

  /** Substring every eligible head must contain. */
  const SiteMarker: string := "pronto.owl#space_site"
  /** Defaults of `predict_similarity`. */
  const DefaultRelation: int := 5
  const DefaultTopK: int := 10
  /** Score paired with the error message when validation fails. */
  const ErrorScore: real := -1.0

  /** One row of the raw triples file. */
  datatype Triple = Triple(head: string, relation: string, tail: string)

  /** The two lookup tables of the PyKEEN triples factory. */
  datatype TriplesFactory = TriplesFactory(entityToId: map<string, int>, idToLabel: map<int, string>)

  /** A loaded model: the factory plus the ids of the eligible heads (`heads_idx`). */
  datatype Model = Model(factory: TriplesFactory, headsIdx: seq<int>)

  /** One entry of a ranked result. */
  datatype Pair = Pair(uri: string, score: real)

  /** What a caller may pass as `entity_input`. */
  datatype EntityInput = EntityId(id: int) | EntityLabel(name: string) | OtherInput

  /** The three exceptions `_validate_input` raises (two texts of ValueError, one TypeError). */
  datatype ValidationError =
    | IdNotInHeads(id: int)
    | LabelNotAllowed(name: string, labelId: int)
    | LabelNotFound(name: string)
    | NotIdOrLabel

  // ---------------------------------------------------------------------------
  // Candidate heads
  // ---------------------------------------------------------------------------

  lemma MarkerHasHash(x: string)
    requires Text.Contains(x, SiteMarker)
    ensures '#' in x
  {
    Text.ContainsIff(x, SiteMarker);
    var i :| Text.OccursAt(x, SiteMarker, i);
    assert x[i + 10] == x[i..i + |SiteMarker|][10] == '#';
  }

  /** `_filter_head`: the marker occurs, and the text after the first '#' splits on
      '_' into exactly three tokens. */
  predicate FilterHead(x: string) {
    Text.Contains(x, SiteMarker) &&
    (MarkerHasHash(x); |Text.Split(Text.AfterFirst(x, '#'), '_')| == 3)
  }

  /** Three tokens means exactly two underscores after the first '#'. */
  lemma FilterHeadIff(x: string)
    ensures FilterHead(x) <==>
              Text.Contains(x, SiteMarker) &&
              (MarkerHasHash(x); multiset(Text.AfterFirst(x, '#'))['_'] == 2)
  {
    if Text.Contains(x, SiteMarker) {
      MarkerHasHash(x);
      Text.SplitCount(Text.AfterFirst(x, '#'), '_');
    }
  }

  /** The marker's only '#' is at position 10. */
  lemma MarkerHash()
    ensures SiteMarker[10] == '#' && '#' !in SiteMarker[..10]
  {
  }

  /** A string holding the marker at position |p| contains it. */
  lemma MarkerContained(x: string, p: string)
    requires |p| + |SiteMarker| <= |x| && x[|p|..|p| + |SiteMarker|] == SiteMarker
    ensures Text.Contains(x, SiteMarker)
  {
    assert Text.OccursAt(x, SiteMarker, |p|);
    Text.ContainsIff(x, SiteMarker);
  }

  /** Where the marker sits after a '#'-free prefix `p`, its '#' is the first one. */
  lemma MarkerFirstHash(x: string, p: string)
    requires |p| + |SiteMarker| <= |x| && x[|p|..|p| + |SiteMarker|] == SiteMarker
    requires '#' !in p && x[..|p|] == p
    ensures '#' in x
    ensures Text.AfterFirst(x, '#') == x[|p| + 11..]
  {
    var head := SiteMarker[..10];
    MarkerHash();
    assert x[|p|..|p| + 10] == head;
    assert x[..|p| + 10] == p + head;
    assert x[|p| + 10] == SiteMarker[10];
    Text.AfterFirstAt(x, '#', |p| + 10);
  }

  /** Reduces the filter on a string holding the marker after a '#'-free prefix `p`
      to a count of the underscores after the marker's '#'. */
  lemma FilterHeadOfMarked(x: string, p: string)
    requires |p| + |SiteMarker| <= |x| && x[|p|..|p| + |SiteMarker|] == SiteMarker
    requires '#' !in p && x[..|p|] == p
    ensures FilterHead(x) <==> multiset(x[|p| + 11..])['_'] == 2
  {
    MarkerContained(x, p);
    MarkerFirstHash(x, p);
    FilterHeadIff(x);
  }

  /** The marker contributes one underscore after its '#'. */
  lemma MarkerUnderscores(x: string, p: string, rest: string)
    requires x == p + SiteMarker + rest
    ensures multiset(x[|p| + 11..])['_'] == multiset(rest)['_'] + 1
  {
    var a, b := "space", "site";
    assert x[|p| + 11..] == a + ['_'] + b + rest;
    Text.AbsentNotCounted(a, '_');
    Text.AbsentNotCounted(b, '_');
    assert multiset(x[|p| + 11..]) == multiset(a) + multiset{'_'} + multiset(b) + multiset(rest);
  }

  /** A head of the form `p` + marker + `rest`, with no '#' in `p`, passes exactly when
      `rest` holds one underscore: "http://…/pronto.owl#space_site_1" passes, while the
      bare marker and "…pronto.owl#space_site_1_2" do not. */
  lemma FilterHeadAfterMarker(p: string, rest: string)
    requires '#' !in p
    ensures FilterHead(p + SiteMarker + rest) <==> multiset(rest)['_'] == 1
  {
    var x := p + SiteMarker + rest;
    assert x[|p|..|p| + |SiteMarker|] == SiteMarker;
    assert x[..|p|] == p;
    FilterHeadOfMarked(x, p);
    MarkerUnderscores(x, p, rest);
  }

  /** The heads of the rows that `keep` admits, in row order, duplicates kept. */
  function Select(rows: seq<Triple>, keep: string -> bool): (heads: seq<string>)
    ensures forall k :: 0 <= k < |heads| ==> keep(heads[k])
    decreases |rows|
  {
    if |rows| == 0 then []
    else (if keep(rows[0].head) then [rows[0].head] else []) + Select(rows[1..], keep)
  }

  lemma {:induction false} SelectConcat(a: seq<Triple>, b: seq<Triple>, keep: string -> bool)
    ensures Select(a + b, keep) == Select(a, keep) + Select(b, keep)
    decreases |a|
  {
    if |a| == 0 {
      assert a + b == b;
    } else {
      SelectConcat(a[1..], b, keep);
      assert (a + b)[1..] == a[1..] + b;
    }
  }

  lemma {:induction false} SelectMembership(rows: seq<Triple>, h: string, keep: string -> bool)
    ensures h in Select(rows, keep) <==> exists t :: t in rows && t.head == h && keep(h)
    decreases |rows|
  {
    if |rows| > 0 {
      SelectMembership(rows[1..], h, keep);
      if exists t :: t in rows && t.head == h && keep(h) {
        var t :| t in rows && t.head == h && keep(h);
        if t != rows[0] {
          assert t in rows[1..];
        }
      }
      if exists t :: t in rows[1..] && t.head == h && keep(h) {
        var t :| t in rows[1..] && t.head == h && keep(h);
        assert t in rows;
      }
    }
  }

  /** `df[df['head'].apply(_filter_head)]['head']`: the heads that pass the filter. */
  function Heads(rows: seq<Triple>): (heads: seq<string>)
    ensures forall k :: 0 <= k < |heads| ==> FilterHead(heads[k])
  {
    Select(rows, FilterHead)
  }

  /** Filtering distributes over concatenation of the rows, so it keeps row order and
      multiplicity. */
  lemma HeadsConcat(a: seq<Triple>, b: seq<Triple>)
    ensures Heads(a + b) == Heads(a) + Heads(b)
  {
    SelectConcat(a, b, FilterHead);
  }

  /** A string is a head exactly when some row has it as head and it passes the filter. */
  lemma HeadsMembership(rows: seq<Triple>, h: string)
    ensures h in Heads(rows) <==> exists t :: t in rows && t.head == h && FilterHead(h)
  {
    SelectMembership(rows, h, FilterHead);
  }

  /** Every filtered head has an id in the factory (the factory is built from the same rows). */
  ghost predicate HeadsKnown(rows: seq<Triple>, tf: TriplesFactory) {
    forall t :: t in rows && FilterHead(t.head) ==> t.head in tf.entityToId
  }

  /** The part of `load` that builds `heads` and `heads_idx`. */
  function Load(rows: seq<Triple>, tf: TriplesFactory): (m: Model)
    requires HeadsKnown(rows, tf)
    ensures m.factory == tf
    ensures |m.headsIdx| == |Heads(rows)|
    ensures forall k :: 0 <= k < |m.headsIdx| ==>
              Heads(rows)[k] in tf.entityToId && m.headsIdx[k] == tf.entityToId[Heads(rows)[k]]
  {
    var heads := Heads(rows);
    assert forall h :: h in heads ==> h in tf.entityToId by {
      forall h | h in heads
        ensures h in tf.entityToId
      {
        HeadsMembership(rows, h);
      }
    }
    Model(tf, seq(|heads|, k requires 0 <= k < |heads| => tf.entityToId[heads[k]]))
  }

  /** An id is in `heads_idx` exactly when it is the id of some matching row's head. */
  lemma LoadMembership(rows: seq<Triple>, tf: TriplesFactory, id: int)
    requires HeadsKnown(rows, tf)
    ensures id in Load(rows, tf).headsIdx <==>
              exists t :: t in rows && FilterHead(t.head) && t.head in tf.entityToId
                            && tf.entityToId[t.head] == id
  {
    var m := Load(rows, tf);
    var heads := Heads(rows);
    if id in m.headsIdx {
      var k :| 0 <= k < |m.headsIdx| && m.headsIdx[k] == id;
      assert heads[k] in heads;
      HeadsMembership(rows, heads[k]);
    }
    if exists t :: t in rows && FilterHead(t.head) && t.head in tf.entityToId
                   && tf.entityToId[t.head] == id {
      var t :| t in rows && FilterHead(t.head) && t.head in tf.entityToId
               && tf.entityToId[t.head] == id;
      HeadsMembership(rows, t.head);
      var k :| 0 <= k < |heads| && heads[k] == t.head;
      assert m.headsIdx[k] == id;
    }
  }

  /** Every eligible id has a label: what `_extract_top_entities` relies on. */
  predicate Loaded(m: Model) {
    forall id :: id in m.headsIdx ==> id in m.factory.idToLabel
  }

  /** Loading against a factory whose ids all have labels yields a usable model. */
  lemma LoadIsLoaded(rows: seq<Triple>, tf: TriplesFactory)
    requires HeadsKnown(rows, tf)
    requires forall l :: l in tf.entityToId ==> tf.entityToId[l] in tf.idToLabel
    ensures Loaded(Load(rows, tf))
  {
    var m := Load(rows, tf);
    forall id | id in m.headsIdx
      ensures id in tf.idToLabel
    {
      var k :| 0 <= k < |m.headsIdx| && m.headsIdx[k] == id;
    }
  }

  // ---------------------------------------------------------------------------
  // Input validation
  // ---------------------------------------------------------------------------

  /** `_validate_input`: an id must already be eligible; a label must be known and its
      id eligible; anything else is a type error. */
  function ValidateInput(m: Model, e: EntityInput): (r: Result<int, ValidationError>)
    ensures r.Success? ==> r.value in m.headsIdx
    ensures e.EntityId? ==> (r.Success? <==> e.id in m.headsIdx) && (r.Success? ==> r.value == e.id)
    ensures e.EntityId? && r.Failure? ==> r.error == IdNotInHeads(e.id)
    ensures e.EntityLabel? ==>
              (e.name !in m.factory.entityToId <==> r == Failure(LabelNotFound(e.name)))
    ensures e.EntityLabel? && e.name in m.factory.entityToId ==>
              var id := m.factory.entityToId[e.name];
              (r.Success? <==> id in m.headsIdx) &&
              (r.Success? ==> r.value == id) &&
              (r.Failure? ==> r.error == LabelNotAllowed(e.name, id))
    ensures e.OtherInput? ==> r == Failure(NotIdOrLabel)
  {
    match e
    case EntityId(id) =>
      if id in m.headsIdx then Success(id) else Failure(IdNotInHeads(id))
    case EntityLabel(name) =>
      if name !in m.factory.entityToId then Failure(LabelNotFound(name))
      else
        var id := m.factory.entityToId[name];
        if id in m.headsIdx then Success(id) else Failure(LabelNotAllowed(name, id))
    case OtherInput =>
      Failure(NotIdOrLabel)
  }

  /** A known label and its id are accepted or refused together, and resolve to the same id. */
  lemma LabelAndIdAgree(m: Model, name: string)
    requires name in m.factory.entityToId
    ensures var byLabel := ValidateInput(m, EntityLabel(name));
            var byId := ValidateInput(m, EntityId(m.factory.entityToId[name]));
            byLabel.Success? <==> byId.Success?
    ensures var byLabel := ValidateInput(m, EntityLabel(name));
            var byId := ValidateInput(m, EntityId(m.factory.entityToId[name]));
            byLabel.Success? ==> byLabel.value == byId.value
  {
  }

  /** `str(e)` of the exception raised for each validation failure. */
  function Message(err: ValidationError): string {
    match err
    case IdNotInHeads(id) =>
      "ID '" + Text.IntToString(id) + "' not found in heads_idx."
    case LabelNotAllowed(name, id) =>
      "Entity label '" + name + "' (ID " + Text.IntToString(id) + ") not allowed (not in heads_idx)."
    case LabelNotFound(name) =>
      "Entity label '" + name + "' not found in TriplesFactory."
    case NotIdOrLabel =>
      "entity_input must be an integer (ID) or a string (label)."
  }

  // ---------------------------------------------------------------------------
  // Ordering the scores (torch.topk with k = N and largest = False)
  // ---------------------------------------------------------------------------

  predicate InBounds(xs: seq<nat>, n: nat) {
    forall k :: 0 <= k < |xs| ==> xs[k] < n
  }

  /** The indices are listed in non-decreasing order of their scores. */
  predicate SortedBy(scores: seq<real>, xs: seq<nat>)
    requires InBounds(xs, |scores|)
  {
    forall i, j :: 0 <= i < j < |xs| ==> scores[xs[i]] <= scores[xs[j]]
  }

  /** How many of the indices fall below `bound`. */
  function CountBelow(xs: seq<nat>, bound: nat): nat
    decreases |xs|
  {
    if |xs| == 0 then 0 else (if xs[0] < bound then 1 else 0) + CountBelow(xs[1..], bound)
  }

  lemma {:induction false} CountBelowAppend(a: seq<nat>, b: seq<nat>, bound: nat)
    ensures CountBelow(a + b, bound) == CountBelow(a, bound) + CountBelow(b, bound)
    decreases |a|
  {
    if |a| == 0 {
      assert a + b == b;
    } else {
      CountBelowAppend(a[1..], b, bound);
      assert (a + b)[1..] == a[1..] + b;
    }
  }

  /** `0, 1, ..., n - 1`. */
  function Range(n: nat): (r: seq<nat>)
    ensures |r| == n
    ensures forall k :: 0 <= k < n ==> r[k] == k
  {
    if n == 0 then [] else Range(n - 1) + [n - 1]
  }

  lemma {:induction false} CountBelowRange(n: nat, bound: nat)
    ensures CountBelow(Range(n), bound) == if n < bound then n else bound
    decreases n
  {
    if n > 0 {
      CountBelowRange(n - 1, bound);
      CountBelowAppend(Range(n - 1), [n - 1], bound);
      assert CountBelow([n - 1], bound) == if n - 1 < bound then 1 else 0;
    }
  }

  /** Places index `x` before the first index whose score is not smaller. */
  function Insert(scores: seq<real>, x: nat, xs: seq<nat>): (r: seq<nat>)
    requires x < |scores| && InBounds(xs, |scores|)
    ensures |r| == |xs| + 1 && InBounds(r, |scores|)
    ensures forall k :: 0 <= k < |r| ==> r[k] == x || r[k] in xs
    decreases |xs|
  {
    if |xs| == 0 || scores[x] <= scores[xs[0]] then [x] + xs
    else [xs[0]] + Insert(scores, x, xs[1..])
  }

  lemma {:induction false} InsertSorted(scores: seq<real>, x: nat, xs: seq<nat>)
    requires x < |scores| && InBounds(xs, |scores|)
    requires SortedBy(scores, xs)
    ensures SortedBy(scores, Insert(scores, x, xs))
    decreases |xs|
  {
    if |xs| > 0 && scores[x] > scores[xs[0]] {
      InsertSorted(scores, x, xs[1..]);
      var rest := Insert(scores, x, xs[1..]);
      forall k | 0 <= k < |rest|
        ensures scores[xs[0]] <= scores[rest[k]]
      {
        if rest[k] != x {
          var j :| 0 <= j < |xs[1..]| && xs[1..][j] == rest[k];
          assert xs[j + 1] == rest[k];
        }
      }
    }
  }

  lemma {:induction false} InsertMultiset(scores: seq<real>, x: nat, xs: seq<nat>)
    requires x < |scores| && InBounds(xs, |scores|)
    ensures multiset(Insert(scores, x, xs)) == multiset(xs) + multiset{x}
    decreases |xs|
  {
    if |xs| > 0 && scores[x] > scores[xs[0]] {
      InsertMultiset(scores, x, xs[1..]);
      assert xs == [xs[0]] + xs[1..];
    }
  }

  lemma {:induction false} InsertCount(scores: seq<real>, x: nat, xs: seq<nat>, bound: nat)
    requires x < |scores| && InBounds(xs, |scores|)
    ensures CountBelow(Insert(scores, x, xs), bound) == CountBelow([x], bound) + CountBelow(xs, bound)
    decreases |xs|
  {
    if |xs| == 0 || scores[x] <= scores[xs[0]] {
      CountBelowAppend([x], xs, bound);
    } else {
      InsertCount(scores, x, xs[1..], bound);
      assert Insert(scores, x, xs)[1..] == Insert(scores, x, xs[1..]);
    }
  }

  /** Insertion sort of a list of indices by score; ties keep their order. */
  function SortIndices(scores: seq<real>, xs: seq<nat>): (r: seq<nat>)
    requires InBounds(xs, |scores|)
    ensures |r| == |xs| && InBounds(r, |scores|) && SortedBy(scores, r)
    decreases |xs|
  {
    if |xs| == 0 then []
    else
      assert InBounds(xs[1..], |scores|);
      var rest := SortIndices(scores, xs[1..]);
      InsertSorted(scores, xs[0], rest);
      Insert(scores, xs[0], rest)
  }

  lemma MultisetCons(xs: seq<nat>)
    requires |xs| > 0
    ensures multiset(xs) == multiset(xs[1..]) + multiset{xs[0]}
  {
    assert xs == [xs[0]] + xs[1..];
  }

  /** Sorting permutes the indices: nothing is added or dropped. */
  lemma {:induction false} SortMultiset(scores: seq<real>, xs: seq<nat>)
    requires InBounds(xs, |scores|)
    ensures multiset(SortIndices(scores, xs)) == multiset(xs)
    decreases |xs|
  {
    if |xs| > 0 {
      SortMultiset(scores, xs[1..]);
      var rest := SortIndices(scores, xs[1..]);
      InsertMultiset(scores, xs[0], rest);
      MultisetCons(xs);
    }
  }

  /** Sorting neither adds nor drops indices below any bound. */
  lemma {:induction false} SortCount(scores: seq<real>, xs: seq<nat>, bound: nat)
    requires InBounds(xs, |scores|)
    ensures CountBelow(SortIndices(scores, xs), bound) == CountBelow(xs, bound)
    decreases |xs|
  {
    if |xs| > 0 {
      SortCount(scores, xs[1..], bound);
      InsertCount(scores, xs[0], SortIndices(scores, xs[1..]), bound);
    }
  }

  /** The `indices` output of `torch.topk(scores, k=N, largest=False)`: every entity
      index once, in ascending order of score. */
  function AscendingOrder(scores: seq<real>): (order: seq<nat>)
    ensures |order| == |scores| && InBounds(order, |scores|) && SortedBy(scores, order)
    ensures multiset(order) == multiset(Range(|scores|))
  {
    SortMultiset(scores, Range(|scores|));
    SortIndices(scores, Range(|scores|))
  }

  /** Exactly `min(N, bound)` of the ordered indices fall below `bound`. */
  lemma AscendingOrderCount(scores: seq<real>, bound: nat)
    ensures CountBelow(AscendingOrder(scores), bound) == if |scores| < bound then |scores| else bound
  {
    SortCount(scores, Range(|scores|), bound);
    CountBelowRange(|scores|, bound);
  }

  // ---------------------------------------------------------------------------
  // Projecting the ordering onto heads_idx
  // ---------------------------------------------------------------------------

  /** `_safe_resolve`: Python list indexing into `heads_idx`, negative indices included;
      an `IndexError` becomes `None`. */
  function SafeResolve(headsIdx: seq<int>, index: int): (r: Option<int>)
    ensures r.Some? <==> -|headsIdx| <= index < |headsIdx|
    ensures r.Some? ==> r.value in headsIdx
    ensures 0 <= index < |headsIdx| ==> r == Some(headsIdx[index])
  {
    if 0 <= index < |headsIdx| then Some(headsIdx[index])
    else if -|headsIdx| <= index < 0 then Some(headsIdx[|headsIdx| + index])
    else None
  }

  /** The label of the head at position `pos` of `heads_idx`. */
  function LabelAt(m: Model, pos: nat): string
    requires Loaded(m) && pos < |m.headsIdx|
  {
    var id := m.headsIdx[pos];
    assert id in m.headsIdx;
    m.factory.idToLabel[id]
  }

  /** All (label, score) pairs the walk would produce with no cut-off: one for each
      position whose index resolves, in order. */
  function Project(m: Model, values: seq<real>, indices: seq<nat>): (r: seq<Pair>)
    requires Loaded(m)
    ensures forall k :: 0 <= k < |r| ==> r[k].score in values
    ensures forall k :: 0 <= k < |r| ==>
              exists id :: id in m.headsIdx && id in m.factory.idToLabel && r[k].uri == m.factory.idToLabel[id]
    decreases |indices|
  {
    if |values| == 0 || |indices| == 0 then []
    else
      var rest := Project(m, values[1..], indices[1..]);
      match SafeResolve(m.headsIdx, indices[0])
      case None => rest
      case Some(id) => [Pair(m.factory.idToLabel[id], values[0])] + rest
  }

  /** Each collected pair is the label of `heads_idx[indices[i]]` with `values[i]`, for
      an in-range position `i`. */
  lemma {:induction false} ProjectPairs(m: Model, values: seq<real>, indices: seq<nat>)
    requires Loaded(m)
    ensures forall k :: 0 <= k < |Project(m, values, indices)| ==>
              exists i :: 0 <= i < |values| && i < |indices| && indices[i] < |m.headsIdx| &&
                          Project(m, values, indices)[k] == Pair(LabelAt(m, indices[i]), values[i])
    decreases |indices|
  {
    if |values| > 0 && |indices| > 0 {
      ProjectPairs(m, values[1..], indices[1..]);
      var r := Project(m, values, indices);
      var rest := Project(m, values[1..], indices[1..]);
      var lead := |r| - |rest|;
      assert r[lead..] == rest;
      forall k | 0 <= k < |r|
        ensures exists i :: 0 <= i < |values| && i < |indices| && indices[i] < |m.headsIdx| &&
                            r[k] == Pair(LabelAt(m, indices[i]), values[i])
      {
        if k < lead {
          assert r[k] == Pair(LabelAt(m, indices[0]), values[0]);
        } else {
          assert 0 <= k - lead < |rest| && r[k] == rest[k - lead];
          var j :| 0 <= j < |values[1..]| && j < |indices[1..]| && indices[1..][j] < |m.headsIdx| &&
                   rest[k - lead] == Pair(LabelAt(m, indices[1..][j]), values[1..][j]);
          assert indices[j + 1] == indices[1..][j] && values[j + 1] == values[1..][j];
          assert r[k] == Pair(LabelAt(m, indices[j + 1]), values[j + 1]);
        }
      }
    } else {
      assert Project(m, values, indices) == [];
    }
  }

  /** With non-negative indices, the pairs are as many as the in-range positions. */
  lemma {:induction false} ProjectLength(m: Model, values: seq<real>, indices: seq<nat>)
    requires Loaded(m)
    requires |values| == |indices|
    ensures |Project(m, values, indices)| == CountBelow(indices, |m.headsIdx|)
    decreases |indices|
  {
    if |indices| > 0 {
      ProjectLength(m, values[1..], indices[1..]);
    }
  }

  /** Scores in non-decreasing order. */
  predicate NonDecreasing(r: seq<Pair>) {
    forall i, j :: 0 <= i < j < |r| ==> r[i].score <= r[j].score
  }

  predicate Ascending(values: seq<real>) {
    forall i, j :: 0 <= i < j < |values| ==> values[i] <= values[j]
  }

  /** Projection keeps the ascending order of the values it draws from. */
  lemma {:induction false} ProjectAscending(m: Model, values: seq<real>, indices: seq<nat>)
    requires Loaded(m)
    requires Ascending(values)
    ensures NonDecreasing(Project(m, values, indices))
    decreases |indices|
  {
    if |values| > 0 && |indices| > 0 {
      ProjectAscending(m, values[1..], indices[1..]);
      var rest := Project(m, values[1..], indices[1..]);
      forall k | 0 <= k < |rest|
        ensures values[0] <= rest[k].score
      {
        var j :| 0 <= j < |values[1..]| && values[1..][j] == rest[k].score;
        assert values[j + 1] == rest[k].score;
      }
    }
  }

  /** The cut-off: at least one entry is kept once one exists, because the length test
      follows the append. */
  function Cap(topK: int): nat {
    if topK < 1 then 1 else topK
  }

  function Take(s: seq<Pair>, n: nat): (r: seq<Pair>)
    ensures |r| == if |s| < n then |s| else n
    ensures r == s[..|r|]
  {
    if |s| <= n then s else s[..n]
  }

  /** `_extract_top_entities`, continuing the walk with `acc` already collected: append
      each resolvable pair and return as soon as the list holds `topK` or more. */
  function ExtractTop(m: Model, values: seq<real>, indices: seq<nat>, topK: int, acc: seq<Pair>): seq<Pair>
    requires Loaded(m)
    decreases |indices|
  {
    if |values| == 0 || |indices| == 0 then acc
    else
      match SafeResolve(m.headsIdx, indices[0])
      case None => ExtractTop(m, values[1..], indices[1..], topK, acc)
      case Some(id) =>
        var acc' := acc + [Pair(m.factory.idToLabel[id], values[0])];
        if |acc'| >= topK then acc' else ExtractTop(m, values[1..], indices[1..], topK, acc')
  }

  /** The early-returning walk equals the full projection cut to `Cap(topK)` entries. */
  lemma {:induction false} ExtractTopIsPrefix(m: Model, values: seq<real>, indices: seq<nat>, topK: int, acc: seq<Pair>)
    requires Loaded(m)
    requires |acc| < Cap(topK)
    ensures ExtractTop(m, values, indices, topK, acc) == Take(acc + Project(m, values, indices), Cap(topK))
    decreases |indices|
  {
    if |values| == 0 || |indices| == 0 {
      assert acc + [] == acc;
    } else {
      var rest := Project(m, values[1..], indices[1..]);
      match SafeResolve(m.headsIdx, indices[0])
      case None =>
        ExtractTopIsPrefix(m, values[1..], indices[1..], topK, acc);
      case Some(id) =>
        var p := Pair(m.factory.idToLabel[id], values[0]);
        var acc' := acc + [p];
        assert acc + Project(m, values, indices) == acc' + rest;
        if |acc'| >= topK {
          assert |acc'| == Cap(topK);
          assert (acc' + rest)[..Cap(topK)] == acc';
        } else {
          ExtractTopIsPrefix(m, values[1..], indices[1..], topK, acc');
        }
    }
  }

  /** The `values` output of the same `torch.topk` call: the scores in that order. */
  function OrderedValues(scores: seq<real>, order: seq<nat>): (values: seq<real>)
    requires InBounds(order, |scores|)
    ensures |values| == |order|
    ensures SortedBy(scores, order) ==> Ascending(values)
  {
    seq(|order|, k requires 0 <= k < |order| => scores[order[k]])
  }

  /** The cut projection of the ascending order: its length, order and labels. */
  lemma RankedPrefix(m: Model, scores: seq<real>, topK: int)
    requires Loaded(m)
    ensures var order := AscendingOrder(scores);
            var t := Take(Project(m, OrderedValues(scores, order), order), Cap(topK));
            var available := if |scores| < |m.headsIdx| then |scores| else |m.headsIdx|;
            && |t| == (if available < Cap(topK) then available else Cap(topK))
            && NonDecreasing(t)
            && forall k :: 0 <= k < |t| ==>
                 exists id :: id in m.headsIdx && id in m.factory.idToLabel && t[k].uri == m.factory.idToLabel[id]
  {
    var order := AscendingOrder(scores);
    var values := OrderedValues(scores, order);
    ProjectLength(m, values, order);
    AscendingOrderCount(scores, |m.headsIdx|);
    ProjectAscending(m, values, order);
    var p := Project(m, values, order);
    var t := Take(p, Cap(topK));
    assert forall k :: 0 <= k < |t| ==> t[k] == p[k];
  }

  /** Steps 3 and 4 of `predict_similarity` on an oracle output `scores`: at most
      `Cap(topK)` pairs, as many as there are both entities and eligible heads, in
      ascending score order, each labelled with an eligible head. */
  function Rank(m: Model, scores: seq<real>, topK: int): (r: seq<Pair>)
    requires Loaded(m)
    ensures var available := if |scores| < |m.headsIdx| then |scores| else |m.headsIdx|;
            |r| == if available < Cap(topK) then available else Cap(topK)
    ensures NonDecreasing(r)
    ensures forall k :: 0 <= k < |r| ==>
              exists id :: id in m.headsIdx && id in m.factory.idToLabel && r[k].uri == m.factory.idToLabel[id]
    // Which pairs: the first `Cap(topK)` in-range positions of the ascending order.
    ensures var order := AscendingOrder(scores);
            r == Take(Project(m, OrderedValues(scores, order), order), Cap(topK))
  {
    var order := AscendingOrder(scores);
    var values := OrderedValues(scores, order);
    ExtractTopIsPrefix(m, values, order, topK, []);
    assert [] + Project(m, values, order) == Project(m, values, order);
    RankedPrefix(m, scores, topK);
    ExtractTop(m, values, order, topK, [])
  }

  /** `predict_similarity`: validate, then score and rank. A validation failure becomes
      the one-entry sentinel list, whatever the scorer would have returned. */
  function PredictSimilarity(m: Model, e: EntityInput, relation: int, topK: int,
                             score: (int, int) -> seq<real>): (r: seq<Pair>)
    requires Loaded(m)
    ensures ValidateInput(m, e).Failure? ==>
              r == [Pair(Message(ValidateInput(m, e).error), ErrorScore)]
    ensures ValidateInput(m, e).Success? ==>
              r == Rank(m, score(ValidateInput(m, e).value, relation), topK)
  {
    match ValidateInput(m, e)
    case Failure(err) => [Pair(Message(err), ErrorScore)]
    case Success(id) => Rank(m, score(id, relation), topK)
  }
}
