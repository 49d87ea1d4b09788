/**
 * loadIndex: the three index files are fetched in list order and the items
 * of each one that loaded are appended to the index; the fetches themselves
 * are given as their outcomes.
 */
module Loader {
  import opened Search

  /** The index files, in the order loadIndex fetches them. */
  const IndexFiles: seq<string> := ["spec-index-kenchiku.json", "spec-index-denki.json", "spec-index-kikai.json"]

  /** The parsed JSON body of a response: an `items` array, no (or a falsy)
      `items` field, or a body res.json() cannot parse. */
  datatype Body = Items(items: seq<Item>) | NoItems | Unparseable

  /** What fetching one file gave: a response with its HTTP status, or an
      exception thrown by fetch. */
  datatype FetchOutcome = Response(status: int, body: Body) | NetworkError

  /** Response.ok: a status in the range 200-299. */
  predicate IsOk(status: int) {
    200 <= status <= 299
  }

  /** The items one file adds: none for a thrown fetch, a status that is not
      ok or a body that does not parse; `json.items || []` otherwise. */
  function Contribution(o: FetchOutcome): seq<Item> {
    match o
    case NetworkError => []
    case Response(status, body) =>
      if !IsOk(status) then []
      else
        match body
        case Items(items) => items
        case NoItems => []
        case Unparseable => []
  }

  /** The index after the given files were fetched, in order, starting
      from an empty index. */
  function Accumulate(outcomes: seq<FetchOutcome>): seq<Item> {
    if outcomes == [] then []
    else Accumulate(outcomes[..|outcomes| - 1]) + Contribution(outcomes[|outcomes| - 1])
  }

  /** A file adds items only when its response was ok and its body held them,
      and then adds exactly those. */
  lemma ContributionIff(o: FetchOutcome)
    ensures Contribution(o) != [] <==> o.Response? && IsOk(o.status) && o.body.Items? && o.body.items != []
    ensures Contribution(o) != [] ==> Contribution(o) == o.body.items
  {
  }

  /** Loading the files of one list and then of another gives the two
      indexes one after the other: the index follows file-list order. */
  lemma {:induction false} AccumulateAppend(a: seq<FetchOutcome>, b: seq<FetchOutcome>)
    ensures Accumulate(a + b) == Accumulate(a) + Accumulate(b)
    decreases |b|
  {
    if b == [] {
      assert a + b == a;
    } else {
      var b', o := b[..|b| - 1], b[|b| - 1];
      var ab := a + b;
      assert ab[..|ab| - 1] == a + b' && ab[|ab| - 1] == o;
      assert Accumulate(ab) == Accumulate(a + b') + Contribution(o);
      AccumulateAppend(a, b');
      assert Accumulate(b) == Accumulate(b') + Contribution(o);
    }
  }

  /** A file that failed (or held no items) leaves no trace in the index:
      the others are loaded as if it had not been in the list. */
  lemma FailedFileSkipped(a: seq<FetchOutcome>, o: FetchOutcome, b: seq<FetchOutcome>)
    requires Contribution(o) == []
    ensures Accumulate(a + [o] + b) == Accumulate(a + b)
  {
    AccumulateAppend(a + [o], b);
    AccumulateAppend(a, [o]);
    AccumulateAppend(a, b);
    assert [o][..0] == [];
    assert Accumulate([o]) == [];
  }

  /** Every item of the index comes from a file that loaded. */
  lemma {:induction false} AccumulateSources(outcomes: seq<FetchOutcome>, x: Item)
    requires x in Accumulate(outcomes)
    ensures exists k :: 0 <= k < |outcomes| && x in Contribution(outcomes[k])
    decreases |outcomes|
  {
    var last := |outcomes| - 1;
    if x in Contribution(outcomes[last]) {
    } else {
      AccumulateSources(outcomes[..last], x);
      var k :| 0 <= k < last && x in Contribution(outcomes[..last][k]);
      assert outcomes[..last][k] == outcomes[k];
    }
  }

  /** Two files that load and one that answers with a status such as 404:
      the index holds the items of the two, in file-list order. */
  lemma OneOfThreeMissing(first: seq<Item>, status: int, body: Body, third: seq<Item>)
    requires !IsOk(status)
    ensures Accumulate([Response(200, Items(first)), Response(status, body), Response(200, Items(third))])
         == first + third
  {
    var os := [Response(200, Items(first)), Response(status, body), Response(200, Items(third))];
    assert os[..2][..1] == [os[0]];
    assert os[..2] == [os[0], os[1]];
    assert Accumulate([os[0]]) == first;
  }
}
