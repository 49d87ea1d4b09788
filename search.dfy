/**
 * The hit computation of search(): trim the query, keep the index items of
 * the selected manual whose lower-cased text contains the lower-cased query,
 * in index order, and cut the list at fifty.
 */
module Search {
  import opened Wrappers
  import opened Text

  /** One entry of an index file. A missing `part` is read as the empty
      string, which equals none of the manual labels; a missing `page` or
      `text` is None. */
  datatype Item = Item(
    part: string,
    chapter: Option<string>,
    section: Option<string>,
    page: Option<int>,
    text: Option<string>)

  /** item.text || '': missing text reads as the empty string. */
  function TextOf(item: Item): (t: string)
    ensures item.text.Some? ==> t == item.text.value
    ensures item.text.None? ==> t == []
  {
    match item.text
    case Some(t) => t
    case None => []
  }

  /** item.page || 1: an absent page and page 0 (the falsy numbers) read
      as 1; any other number is kept. */
  function PageOf(item: Item): (n: int)
    ensures n != 0
    ensures item.page.Some? && item.page.value != 0 ==> n == item.page.value
    ensures item.page.None? || item.page.value == 0 ==> n == 1
  {
    match item.page
    case Some(p) => if p != 0 then p else 1
    case None => 1
  }

  /** The most hits search() shows (the slice(0, 50)). */
  const MaxHits: nat := 50

  /** The filter callback: a non-empty `part` must equal the item's part,
      and the item's lower-cased text must contain `keyword`, which the
      caller has already lower-cased. */
  predicate Passes(item: Item, part: string, keyword: string) {
    (part == [] || item.part == part) && Contains(Lower(TextOf(item)), keyword)
  }

  /** `a` is `b` with some elements removed, the rest kept in order. */
  predicate Subseq<T(==)>(a: seq<T>, b: seq<T>)
    decreases |b|
  {
    a == [] || (b != [] && ((a[0] == b[0] && Subseq(a[1..], b[1..])) || Subseq(a, b[1..])))
  }

  /** Array.prototype.filter with the callback above. */
  function Filter(items: seq<Item>, part: string, keyword: string): (r: seq<Item>)
    ensures forall x :: x in r ==> Passes(x, part, keyword)
    ensures forall x :: x in items && Passes(x, part, keyword) ==> x in r
    ensures Subseq(r, items)
  {
    if items == [] then []
    else if Passes(items[0], part, keyword) then [items[0]] + Filter(items[1..], part, keyword)
    else Filter(items[1..], part, keyword)
  }

  /** What search() shows: the placeholder for an empty query, the
      "no results" message for zero hits, or the hits. */
  datatype Outcome = NoQuery | NoResults | Hits(hits: seq<Item>)

  /** search() without its DOM reads and writes: `query` is the raw input
      value, `part` the selected manual filter. */
  function SearchOutcome(items: seq<Item>, query: string, part: string): Outcome {
    var q := Trim(query);
    if q == [] then NoQuery
    else
      var hits := Filter(items, part, Lower(q));
      var shown := hits[..Min(MaxHits, |hits|)];
      if shown == [] then NoResults else Hits(shown)
  }

  lemma {:induction false} SubseqLength<T>(a: seq<T>, b: seq<T>)
    requires Subseq(a, b)
    ensures |a| <= |b|
    decreases |b|
  {
    if a != [] {
      if a[0] == b[0] && Subseq(a[1..], b[1..]) {
        SubseqLength(a[1..], b[1..]);
      } else {
        SubseqLength(a, b[1..]);
      }
    }
  }

  /** Every element of a subsequence is an element of the sequence. */
  lemma {:induction false} SubseqElements<T>(a: seq<T>, b: seq<T>)
    requires Subseq(a, b)
    ensures forall x :: x in a ==> x in b
    decreases |b|
  {
    if a != [] {
      if a[0] == b[0] && Subseq(a[1..], b[1..]) {
        SubseqElements(a[1..], b[1..]);
        assert forall x :: x in a ==> x == a[0] || x in a[1..];
      } else {
        SubseqElements(a, b[1..]);
      }
    }
  }

  /** A prefix of a subsequence is a subsequence. */
  lemma {:induction false} SubseqPrefix<T>(a: seq<T>, b: seq<T>, k: nat)
    requires Subseq(a, b) && k <= |a|
    ensures Subseq(a[..k], b)
    decreases |b|
  {
    if k > 0 {
      if a[0] == b[0] && Subseq(a[1..], b[1..]) {
        SubseqPrefix(a[1..], b[1..], k - 1);
        assert a[..k][1..] == a[1..][..k - 1];
      } else {
        SubseqPrefix(a, b[1..], k);
      }
    }
  }

  /** No subsequence whose elements all pass is longer than the filter's
      result. */
  lemma {:induction false} FilterIsLongest(items: seq<Item>, part: string, keyword: string, r: seq<Item>)
    requires Subseq(r, items)
    requires forall x :: x in r ==> Passes(x, part, keyword)
    ensures |r| <= |Filter(items, part, keyword)|
    decreases |items|
  {
    if r != [] {
      if r[0] == items[0] && Subseq(r[1..], items[1..]) {
        FilterIsLongest(items[1..], part, keyword, r[1..]);
      } else {
        FilterIsLongest(items[1..], part, keyword, r);
      }
    }
  }

  /** The filter's result is the one subsequence of the items made of
      passing items that is as long as it: the hits are exactly the passing
      items, in their original order. */
  lemma {:induction false} FilterUnique(items: seq<Item>, part: string, keyword: string, r: seq<Item>)
    requires Subseq(r, items)
    requires forall x :: x in r ==> Passes(x, part, keyword)
    requires |r| == |Filter(items, part, keyword)|
    ensures r == Filter(items, part, keyword)
    decreases |items|
  {
    if items != [] {
      var rest := Filter(items[1..], part, keyword);
      if Passes(items[0], part, keyword) {
        if r[0] == items[0] && Subseq(r[1..], items[1..]) {
          FilterUnique(items[1..], part, keyword, r[1..]);
          assert r == [r[0]] + r[1..];
        } else {
          FilterIsLongest(items[1..], part, keyword, r);
          assert false;
        }
      } else if r != [] {
        assert r[0] in r;
        FilterUnique(items[1..], part, keyword, r);
      }
    }
  }

  /** Filtering the concatenation of two lists filters each in turn. */
  lemma {:induction false} FilterAppend(a: seq<Item>, b: seq<Item>, part: string, keyword: string)
    ensures Filter(a + b, part, keyword) == Filter(a, part, keyword) + Filter(b, part, keyword)
  {
    if a == [] {
      assert a + b == b;
    } else {
      assert (a + b)[1..] == a[1..] + b;
      FilterAppend(a[1..], b, part, keyword);
    }
  }

  /** The placeholder is shown exactly when the query is white space only. */
  lemma SearchNoQueryIff(items: seq<Item>, query: string, part: string)
    ensures SearchOutcome(items, query, part) == NoQuery <==> AllSpace(query)
  {
    TrimEmptyIff(query);
  }

  /** The "no results" message is shown exactly when the query is not blank
      and no item passes the filter. */
  lemma SearchNoResultsIff(items: seq<Item>, query: string, part: string)
    ensures SearchOutcome(items, query, part) == NoResults
        <==> !AllSpace(query) && forall x :: x in items ==> !Passes(x, part, Lower(Trim(query)))
  {
    TrimEmptyIff(query);
    var f := Filter(items, part, Lower(Trim(query)));
    if f != [] {
      SubseqElements(f, items);
      assert f[0] in f;
      assert f[..Min(MaxHits, |f|)][0] == f[0];
    }
  }

  /** The hits are the first min(50, n) of the n passing items: every hit
      passes, the hits keep index order, there are between 1 and 50 of them,
      and fewer than 50 hits means no passing item was dropped. */
  lemma SearchHits(items: seq<Item>, query: string, part: string)
    requires SearchOutcome(items, query, part).Hits?
    ensures var hits := SearchOutcome(items, query, part).hits;
            var all := Filter(items, part, Lower(Trim(query)));
            && 1 <= |hits| <= MaxHits
            && |hits| == Min(MaxHits, |all|)
            && hits == all[..|hits|]
            && (forall x :: x in hits ==> Passes(x, part, Lower(Trim(query))))
            && Subseq(hits, items)
            && (|hits| < MaxHits ==> forall x :: x in items && Passes(x, part, Lower(Trim(query))) ==> x in hits)
  {
    var all := Filter(items, part, Lower(Trim(query)));
    var hits := SearchOutcome(items, query, part).hits;
    SubseqPrefix(all, items, |hits|);
    assert forall x :: x in hits ==> x in all;
    if |hits| < MaxHits {
      assert hits == all;
    }
  }

  /** The keyword is matched as text, never as a pattern: "a.b" does not
      find "aXb". */
  lemma DotIsLiteral()
    ensures !Passes(Item("", None, None, None, Some("aXb")), "", Lower("a.b"))
  {
    var t := Lower("aXb");
    assert t == "axb";
    assert !("a.b" <= t);
    assert t[1..] == "xb";
    assert t[1..][1..] == "b";
    assert t[1..][1..][1..] == [];
  }
}
