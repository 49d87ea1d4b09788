/**
 * The script's two pieces of page-session state, `currentKeyword` and
 * `indexData`, and the three entry points that use them: loadIndex
 * rebuilds the index, search records the keyword and lays out the results,
 * openPdf reads the keyword into the viewer URL.
 */
module App {
  import opened Wrappers
  import opened Text
  import opened Uri
  import opened Search
  import opened Highlight
  import opened Navigator
  import opened Loader

  /** One rendered result: the item (kept so that a click can open it) and
      its snippet. */
  datatype Row = Row(item: Item, snippet: seq<Piece>)

  /** What the results container shows after a search. */
  datatype View = Placeholder | NoResultsMessage | Results(rows: seq<Row>)

  function RowOf(item: Item, keyword: string): Row {
    Row(item, Snippet(TextOf(item), keyword))
  }

  function ViewOf(o: Outcome, keyword: string): View {
    match o
    case NoQuery => Placeholder
    case NoResults => NoResultsMessage
    case Hits(hits) => Results(seq(|hits|, k requires 0 <= k < |hits| => RowOf(hits[k], keyword)))
  }

  /** Each hit becomes one row, in hit order, whose snippet spells the first
      80 characters of that hit's text. */
  lemma ResultRows(o: Outcome, keyword: string)
    requires o.Hits?
    ensures ViewOf(o, keyword).Results? && |ViewOf(o, keyword).rows| == |o.hits|
    ensures forall k :: 0 <= k < |o.hits| ==>
              ViewOf(o, keyword).rows[k].item == o.hits[k]
              && Flatten(ViewOf(o, keyword).rows[k].snippet)
                 == TextOf(o.hits[k])[..Min(SnippetLength, |TextOf(o.hits[k])|)]
  {
    forall k | 0 <= k < |o.hits|
      ensures Flatten(ViewOf(o, keyword).rows[k].snippet)
              == TextOf(o.hits[k])[..Min(SnippetLength, |TextOf(o.hits[k])|)]
    {
      SnippetText(TextOf(o.hits[k]), keyword);
    }
  }

  /** The filter's text test and the highlighter agree on what a match is:
      the lower-cased text contains the lower-cased query exactly when the
      query occurs in the text up to case at some index. */
  lemma PassesIffMatch(item: Item, part: string, q: string)
    ensures Passes(item, part, Lower(q))
        <==> (part == [] || item.part == part) && exists i: nat :: MatchAt(TextOf(item), i, q)
  {
    var t := TextOf(item);
    ContainsIff(Lower(t), Lower(q));
    forall i: nat
      ensures OccursAt(Lower(t), Lower(q), i) == MatchAt(t, i, q)
    {
      if i + |q| <= |t| {
        LowerSlice(t, i, i + |q|);
      }
    }
  }

  class Session {
    /** The trimmed query of the last search; empty means no active search. */
    var currentKeyword: string
    /** Every loaded item, in file-list order, then item order. */
    var indexData: seq<Item>

    constructor ()
      ensures currentKeyword == [] && indexData == []
    {
      currentKeyword := [];
      indexData := [];
    }

    /** loadIndex: `outcomes[k]` is what fetching IndexFiles[k] gave. The
        old index is dropped first, then each file that loaded is appended. */
    method LoadIndex(outcomes: seq<FetchOutcome>)
      requires |outcomes| == |IndexFiles|
      modifies this`indexData
      ensures indexData == Accumulate(outcomes)
    {
      indexData := [];
      for i := 0 to |outcomes|
        invariant indexData == Accumulate(outcomes[..i])
      {
        assert outcomes[..i + 1][..i] == outcomes[..i];
        match outcomes[i]
        case NetworkError =>
          // fetch threw: logged, nothing added
        case Response(status, body) =>
          if !IsOk(status) {
            // res.ok is false: logged, nothing added
          } else {
            match body
            case Unparseable =>
              // res.json() threw: logged, nothing added
            case NoItems =>
              indexData := indexData + [];
            case Items(items) =>
              indexData := indexData + items;
          }
      }
      assert outcomes[..|outcomes|] == outcomes;
    }

    /** search: records the trimmed query as the keyword, then shows the
        placeholder, the "no results" message, or one row per hit. */
    method Search(query: string, part: string) returns (view: View)
      modifies this`currentKeyword
      ensures currentKeyword == Trim(query)
      ensures view == ViewOf(SearchOutcome(indexData, query, part), currentKeyword)
    {
      var q := Trim(query);
      currentKeyword := q;
      if q == [] {
        return Placeholder;
      }
      var keyword := Lower(q);
      var matching := Filter(indexData, part, keyword);
      var hits := matching[..Min(MaxHits, |matching|)];
      if |hits| == 0 {
        return NoResultsMessage;
      }
      var rows: seq<Row> := [];
      for i := 0 to |hits|
        invariant |rows| == i
        invariant forall k :: 0 <= k < i ==> rows[k] == RowOf(hits[k], currentKeyword)
      {
        var item := hits[i];
        var raw := TextOf(item);
        var snippet := PlainText(Prefix(raw, SnippetLength));
        if currentKeyword != [] {
          snippet := HighlightMatches(Prefix(raw, SnippetLength), currentKeyword);
        }
        rows := rows + [Row(item, snippet)];
      }
      view := Results(rows);
    }

    /** The two if/else chains of openPdf: the file a kind string or an
        item's part names ("" when none), and the page. `manual` is the
        manual that file belongs to. */
    static method ChooseFile(target: Target) returns (pdf: string, page: int, ghost manual: Manual)
      ensures pdf == "" <==> Resolve(target).None?
      ensures pdf != "" ==> pdf == FileName(manual) && Resolve(target) == Some((manual, page))
    {
      pdf := "";
      page := 1;
      manual := Kenchiku;
      match target
      case Header(kind) =>
        if kind == "kenchiku" {
          pdf, manual := "kenchiku.pdf", Kenchiku;
        } else if kind == "denki" {
          pdf, manual := "denki.pdf", Denki;
        } else if kind == "kikai" {
          pdf, manual := "kikai.pdf", Kikai;
        }
        page := 1;
      case ResultItem(item) =>
        if item.part == "建築編" {
          pdf, manual := "kenchiku.pdf", Kenchiku;
        } else if item.part == "電気編" {
          pdf, manual := "denki.pdf", Denki;
        } else if item.part == "機械編" {
          pdf, manual := "kikai.pdf", Kikai;
        }
        page := PageOf(item);
    }

    /** openPdf up to the frame reload: no navigation when no file was
        chosen, otherwise the URL with the page and, when a keyword is
        active, the search fragment. */
    method OpenPdf(target: Target) returns (nav: Navigation)
      ensures nav == NavigationFor(target, currentKeyword)
    {
      var pdf, page;
      ghost var manual;
      pdf, page, manual := ChooseFile(target);
      if pdf == "" {
        return NoPdf;
      }
      var url := EncodeURI(pdf) + "#" + PageKey + IntToString(page);
      if currentKeyword != [] {
        url := url + ("&" + SearchKey + EncodeURIComponent(currentKeyword));
      }
      assert url == BuildUrl(manual, page, currentKeyword);
      nav := Navigate(url);
    }
  }
}
