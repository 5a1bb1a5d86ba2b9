/**
 Query sessions of `core/chaincode`: an iterator is streamed to the chaincode in batches, one batch
 for each call, under a limit on the total number of results.
 */
module QuerySessions {
  import opened Wrappers

  /** What the iterator yields: a result, or an error in fetching or marshalling it. */
  datatype Item = Good(bytes: Bytes) | Bad

  /** An open query: what is left of its iterator, the results not sent yet, and how many were fetched. */
  datatype Query = Query(rest: seq<Item>, pending: seq<Bytes>, count: nat)

  datatype Response = Failed | Batch(results: seq<Bytes>, hasMore: bool)

  /** A response and the query as it is afterwards; `None` once its context has been cleaned up. */
  datatype Outcome = Outcome(response: Response, query: Option<Query>)

  /** `MaxResultLimit`, `isPaginated` and `totalReturnLimit`. */
  datatype Mode = Mode(maxResults: nat, paginated: bool, limit: nat)

  /** `BuildQueryResponse` */
  function Build(mode: Mode, q: Query): (o: Outcome)
    ensures o.query.Some? <==> o.response.Batch? && o.response.hasMore
    ensures o.query.Some? ==> |o.query.value.rest| < |q.rest|
    decreases |q.rest|
  {
    if q.count >= mode.limit || q.rest == [] then Outcome(Batch(q.pending, false), None)
    else if q.rest[0].Bad? then Outcome(Failed, None)
    else
      var b := q.rest[0].bytes;
      if !mode.paginated && |q.pending| == mode.maxResults then
        Outcome(Batch(q.pending, true), Some(Query(q.rest[1..], [b], q.count + 1)))
      else
        Build(mode, Query(q.rest[1..], q.pending + [b], q.count + 1))
  }

  /** All responses of a session, one call after the other until no more are announced. */
  function Session(mode: Mode, q: Query): seq<Response>
    decreases |q.rest|
  {
    var o := Build(mode, q);
    if o.query.Some? then [o.response] + Session(mode, o.query.value) else [o.response]
  }

  function Start(items: seq<Item>): Query {
    Query(items, [], 0)
  }

  // ---------------------------------------------------------------------------------------------
  // The transaction context
  // ---------------------------------------------------------------------------------------------

  /** The three per-query maps of `TransactionContext`; pointers are modelled by the values they point to. */
  class TransactionContext {
    var iterators: map<string, seq<Item>>
    var pendingResults: map<string, seq<Bytes>>
    var returnCounts: map<string, nat>

    constructor ()
      ensures Valid() && iterators == map[]
    {
      iterators, pendingResults, returnCounts := map[], map[], map[];
    }

    /** The three maps have the same keys. */
    ghost predicate Valid()
      reads this
    {
      iterators.Keys == pendingResults.Keys == returnCounts.Keys
    }

    /** The state of an open query. */
    ghost function QueryOf(id: string): Query
      requires Valid() && id in iterators
      reads this
    {
      Query(iterators[id], pendingResults[id], returnCounts[id])
    }

    /** `InitializeQueryContext` */
    method InitializeQueryContext(id: string, items: seq<Item>)
      requires Valid()
      modifies this
      ensures Valid() && id in iterators && QueryOf(id) == Start(items)
      ensures iterators - {id} == old(iterators) - {id}
      ensures pendingResults - {id} == old(pendingResults) - {id}
      ensures returnCounts - {id} == old(returnCounts) - {id}
    {
      UpdateKeepsOthers(iterators, id, items);
      UpdateKeepsOthers(pendingResults, id, []);
      UpdateKeepsOthers(returnCounts, id, 0);
      iterators := iterators[id := items];
      pendingResults := pendingResults[id := []];
      returnCounts := returnCounts[id := 0];
    }

    /** `CleanupQueryContext` */
    method CleanupQueryContext(id: string)
      requires Valid()
      modifies this
      ensures Valid()
      ensures iterators == old(iterators) - {id}
      ensures pendingResults == old(pendingResults) - {id}
      ensures returnCounts == old(returnCounts) - {id}
    {
      iterators := iterators - {id};
      pendingResults := pendingResults - {id};
      returnCounts := returnCounts - {id};
    }

    /** `BuildQueryResponse`, for a query that is open. What the loop changes is written back when it ends. */
    method BuildQueryResponse(id: string, mode: Mode) returns (response: Response)
      requires Valid() && id in iterators
      modifies this
      ensures Valid()
      ensures var o := Build(mode, old(QueryOf(id)));
              && response == o.response
              && (o.query.None? ==>
                    && iterators == old(iterators) - {id}
                    && pendingResults == old(pendingResults) - {id}
                    && returnCounts == old(returnCounts) - {id})
              && (o.query.Some? ==>
                    && iterators == old(iterators)[id := o.query.value.rest]
                    && pendingResults == old(pendingResults)[id := o.query.value.pending]
                    && returnCounts == old(returnCounts)[id := o.query.value.count])
    {
      var o := Fetch(mode, Query(iterators[id], pendingResults[id], returnCounts[id]));
      response := o.response;
      if o.query.None? {
        CleanupQueryContext(id);
      } else {
        iterators := iterators[id := o.query.value.rest];
        pendingResults := pendingResults[id := o.query.value.pending];
        returnCounts := returnCounts[id := o.query.value.count];
      }
    }
  }

  lemma UpdateKeepsOthers<T>(m: map<string, T>, id: string, v: T)
    ensures m[id := v] - {id} == m - {id}
  {
  }

  /** The loop of `BuildQueryResponse`. */
  method Fetch(mode: Mode, q: Query) returns (o: Outcome)
    ensures o == Build(mode, q)
  {
    var rest, batch := q.rest, q.pending;
    var count: nat := q.count;
    while true
      invariant Build(mode, q) == Build(mode, Query(rest, batch, count))
      decreases |rest|
    {
      if count >= mode.limit || |rest| == 0 {
        return Outcome(Batch(batch, false), None);
      }
      var item := rest[0];
      rest := rest[1..];
      if item.Bad? {
        return Outcome(Failed, None);
      }
      if !mode.paginated && |batch| == mode.maxResults {
        return Outcome(Batch(batch, true), Some(Query(rest, [item.bytes], count + 1)));
      }
      batch := batch + [item.bytes];
      count := count + 1;
    }
  }

  // ---------------------------------------------------------------------------------------------
  // Whole sessions
  // ---------------------------------------------------------------------------------------------

  predicate AllGood(items: seq<Item>) {
    forall i | 0 <= i < |items| :: items[i].Good?
  }

  function Payload(items: seq<Item>): seq<Bytes>
    requires AllGood(items)
  {
    seq(|items|, i requires 0 <= i < |items| => items[i].bytes)
  }

  /** How many more items the query may still fetch. */
  function Reach(mode: Mode, q: Query): nat {
    var left := if q.count < mode.limit then mode.limit - q.count else 0;
    if left < |q.rest| then left else |q.rest|
  }

  /** The results sent, in order. */
  function Sent(rs: seq<Response>): seq<Bytes> {
    if rs == [] then []
    else (if rs[0].Batch? then rs[0].results else []) + Sent(rs[1..])
  }

  /** ceil(n / k), and at least one. */
  function Batches(n: nat, k: nat): nat
    requires k > 0
  {
    if n <= k then 1 else 1 + Batches(n - k, k)
  }

  /** What a session sends: all but the last batch are full and announce more, the last does not. */
  predicate WellBatched(rs: seq<Response>, k: nat) {
    && rs != []
    && (forall i | 0 <= i < |rs| :: rs[i].Batch? && |rs[i].results| <= k)
    && (forall i | 0 <= i < |rs| - 1 :: rs[i].hasMore && |rs[i].results| == k)
    && !rs[|rs| - 1].hasMore
  }

  /** The query is at the start of a call: nothing is overdue. */
  predicate AtCall(mode: Mode, q: Query) {
    !mode.paginated && mode.maxResults > 0 && |q.pending| <= mode.maxResults
  }

  /** One call: it sends what is pending, filled up from the iterator, and keeps back the one result it fetched beyond. */
  lemma {:induction false} BuildExact(mode: Mode, q: Query)
    requires AtCall(mode, q) && AllGood(q.rest[..Reach(mode, q)])
    ensures var o, n, have := Build(mode, q), Reach(mode, q), q.pending + Payload(q.rest[..Reach(mode, q)]);
            var k := mode.maxResults;
            if |q.pending| + n <= k then o == Outcome(Batch(have, false), None)
            else
              && o.response == Batch(have[..k], true)
              && o.query == Some(Query(q.rest[k - |q.pending| + 1..], [have[k]], q.count + k - |q.pending| + 1))
    decreases |q.rest|
  {
    var n := Reach(mode, q);
    var have := q.pending + Payload(q.rest[..n]);
    if q.count >= mode.limit || q.rest == [] {
      assert have == q.pending;
    } else {
      var first := q.rest[..n];
      assert first[0] == q.rest[0];
      var b := q.rest[0].bytes;
      assert Payload(first)[0] == b;
      if |q.pending| == mode.maxResults {
        assert have[..mode.maxResults] == q.pending;
      } else {
        var next := Query(q.rest[1..], q.pending + [b], q.count + 1);
        assert next.rest[..Reach(mode, next)] == first[1..];
        BuildExact(mode, next);
        assert next.pending + Payload(next.rest[..Reach(mode, next)]) == have;
      }
    }
  }

  /** What the query has in hand and may still fetch. */
  function InReach(mode: Mode, q: Query): seq<Bytes>
    requires AllGood(q.rest[..Reach(mode, q)])
  {
    q.pending + Payload(q.rest[..Reach(mode, q)])
  }

  lemma ReachAfter(mode: Mode, q: Query)
    requires AtCall(mode, q) && AllGood(q.rest[..Reach(mode, q)]) && |q.pending| + Reach(mode, q) > mode.maxResults
    ensures var o, k := Build(mode, q), mode.maxResults;
            && o.query.Some? && AtCall(mode, o.query.value)
            && AllGood(o.query.value.rest[..Reach(mode, o.query.value)])
            && InReach(mode, o.query.value) == InReach(mode, q)[k..]
  {
    BuildExact(mode, q);
    hide Build;
    var n, d := Reach(mode, q), mode.maxResults - |q.pending| + 1;
    var q' := Build(mode, q).query.value;
    assert Reach(mode, q') == n - d;
    assert q'.rest[..n - d] == q.rest[..n][d..];
    assert InReach(mode, q') == InReach(mode, q)[mode.maxResults..];
  }

  /** The batches of a session, put together, are exactly the results in reach; all but the last are full. */
  lemma {:induction false} SessionExact(mode: Mode, q: Query)
    requires AtCall(mode, q) && AllGood(q.rest[..Reach(mode, q)])
    ensures var rs := Session(mode, q);
            && WellBatched(rs, mode.maxResults)
            && Sent(rs) == InReach(mode, q)
            && |rs| == Batches(|InReach(mode, q)|, mode.maxResults)
    decreases |q.rest|
  {
    var have, k, o := InReach(mode, q), mode.maxResults, Build(mode, q);
    BuildExact(mode, q);
    if |have| <= k {
      assert Session(mode, q) == [o.response];
      assert Sent([o.response][1..]) == [];
    } else {
      ReachAfter(mode, q);
      hide Build; hide Payload;
      SessionExact(mode, o.query.value);
      var rest := Session(mode, o.query.value);
      assert Session(mode, q)[1..] == rest;
      assert have[..k] + have[k..] == have;
    }
  }

  /** From the start, with no error in reach: the first results up to the limit, in order, in as many batches as it takes. */
  lemma WholeSession(mode: Mode, items: seq<Item>)
    requires !mode.paginated && mode.maxResults > 0
    requires AllGood(items[..Reach(mode, Start(items))])
    ensures var n, rs := if mode.limit < |items| then mode.limit else |items|, Session(mode, Start(items));
            && n == Reach(mode, Start(items))
            && Sent(rs) == Payload(items[..n])
            && WellBatched(rs, mode.maxResults)
            && |rs| == Batches(n, mode.maxResults)
  {
    hide Session;
    SessionExact(mode, Start(items));
  }

  /** The number of batches is n / k rounded up, except that there always is one. */
  lemma {:induction false} BatchesIsCeiling(n: nat, k: nat)
    requires k > 0
    ensures n == 0 ==> Batches(n, k) == 1
    ensures n > 0 ==> (Batches(n, k) - 1) * k < n <= Batches(n, k) * k
    decreases n
  {
    if n > k {
      BatchesIsCeiling(n - k, k);
      var b := Batches(n - k, k);
      assert b * k == (b - 1) * k + k && (b + 1) * k == b * k + k;
    }
  }

  // ---------------------------------------------------------------------------------------------
  // Sessions that are not cut into batches
  // ---------------------------------------------------------------------------------------------

  /** The pending results never have the size at which a batch is cut. */
  predicate Uncut(mode: Mode, q: Query) {
    mode.paginated || |q.pending| > mode.maxResults
  }

  /** Then one call sends everything in reach, whatever the size of a batch. */
  lemma {:induction false} UncutExact(mode: Mode, q: Query)
    requires Uncut(mode, q) && AllGood(q.rest[..Reach(mode, q)])
    ensures Build(mode, q) == Outcome(Batch(q.pending + Payload(q.rest[..Reach(mode, q)]), false), None)
    decreases |q.rest|
  {
    var n := Reach(mode, q);
    if q.count >= mode.limit || q.rest == [] {
      assert q.pending + Payload(q.rest[..n]) == q.pending;
    } else {
      var first := q.rest[..n];
      assert first[0] == q.rest[0];
      var next := Query(q.rest[1..], q.pending + [q.rest[0].bytes], q.count + 1);
      assert next.rest[..Reach(mode, next)] == first[1..];
      UncutExact(mode, next);
      assert next.pending + Payload(first[1..]) == q.pending + Payload(first);
    }
  }

  /** A paginated session is one response with the first results up to the limit. */
  lemma PaginatedSession(mode: Mode, items: seq<Item>)
    requires mode.paginated && AllGood(items[..Reach(mode, Start(items))])
    ensures var n := if mode.limit < |items| then mode.limit else |items|;
            n == Reach(mode, Start(items)) && Session(mode, Start(items)) == [Batch(Payload(items[..n]), false)]
  {
    UncutExact(mode, Start(items));
    assert [] + Payload(items[..Reach(mode, Start(items))]) == Payload(items[..Reach(mode, Start(items))]);
  }

  /** With batches of size zero, an empty batch comes first and all results in the second, if there are any. */
  lemma SessionOfEmptyBatches(mode: Mode, items: seq<Item>)
    requires !mode.paginated && mode.maxResults == 0 && AllGood(items[..Reach(mode, Start(items))])
    ensures var n, rs := Reach(mode, Start(items)), Session(mode, Start(items));
            if n == 0 then rs == [Batch([], false)] else rs == [Batch([], true), Batch(Payload(items[..n]), false)]
  {
    var q, n := Start(items), Reach(mode, Start(items));
    if n > 0 {
      var first := items[..n];
      assert first[0] == items[0];
      var next := Query(items[1..], [items[0].bytes], 1);
      assert Build(mode, q) == Outcome(Batch([], true), Some(next));
      assert next.rest[..Reach(mode, next)] == first[1..];
      UncutExact(mode, next);
      assert [items[0].bytes] + Payload(first[1..]) == Payload(first);
      assert Session(mode, next) == [Batch(Payload(first), false)];
    }
  }

  // ---------------------------------------------------------------------------------------------
  // Errors
  // ---------------------------------------------------------------------------------------------

  /** An error in reach ends the session with a failure, whatever the mode. */
  lemma {:induction false} ErrorInReach(mode: Mode, q: Query)
    requires !AllGood(q.rest[..Reach(mode, q)])
    ensures var o := Build(mode, q);
            o.response.Failed? || (o.query.Some? && !AllGood(o.query.value.rest[..Reach(mode, o.query.value)]))
    decreases |q.rest|
  {
    var n := Reach(mode, q);
    if q.rest[0].Good? {
      var next := Query(q.rest[1..], q.pending + [q.rest[0].bytes], q.count + 1);
      var i :| 0 <= i < n && q.rest[..n][i].Bad?;
      assert next.rest[..Reach(mode, next)][i - 1].Bad?;
      if mode.paginated || |q.pending| != mode.maxResults {
        ErrorInReach(mode, next);
      } else {
        assert Build(mode, q).query.value.rest[..Reach(mode, next)][i - 1].Bad?;
      }
    }
  }

  /** With no error in reach a call does not fail, and leaves none in reach of the next. */
  lemma {:induction false} NoErrorInReach(mode: Mode, q: Query)
    requires AllGood(q.rest[..Reach(mode, q)])
    ensures var o := Build(mode, q);
            o.response.Batch? && (o.query.Some? ==> AllGood(o.query.value.rest[..Reach(mode, o.query.value)]))
    decreases |q.rest|
  {
    if q.count < mode.limit && q.rest != [] {
      var first := q.rest[..Reach(mode, q)];
      assert first[0] == q.rest[0];
      var next := Query(q.rest[1..], q.pending + [q.rest[0].bytes], q.count + 1);
      assert next.rest[..Reach(mode, next)] == first[1..];
      if mode.paginated || |q.pending| != mode.maxResults {
        NoErrorInReach(mode, next);
      } else {
        assert Build(mode, q).query.value.rest[..Reach(mode, next)] == first[1..];
      }
    }
  }

  /** A session fails exactly when an error lies within the limit, whatever the mode. */
  lemma {:induction false} SessionFailsOnError(mode: Mode, q: Query)
    ensures Session(mode, q)[|Session(mode, q)| - 1].Failed? <==> !AllGood(q.rest[..Reach(mode, q)])
    decreases |q.rest|
  {
    var o := Build(mode, q);
    if AllGood(q.rest[..Reach(mode, q)]) {
      NoErrorInReach(mode, q);
    } else {
      ErrorInReach(mode, q);
    }
    if o.query.Some? {
      hide Build;
      SessionFailsOnError(mode, o.query.value);
    }
  }
}
