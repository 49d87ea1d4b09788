/**
 * openPdf: which of the three manuals a header button or a result item
 * opens, at which page, and the URL the viewer frame is pointed at.
 */
module Navigator {
  import opened Wrappers
  import opened Text
  import opened Uri
  import opened Search

  datatype Manual = Kenchiku | Denki | Kikai

  /** The PDF file of each manual. */
  function FileName(m: Manual): string {
    match m
    case Kenchiku => "kenchiku.pdf"
    case Denki => "denki.pdf"
    case Kikai => "kikai.pdf"
  }

  /** The kind string a header button passes. */
  function HeaderKind(m: Manual): string {
    match m
    case Kenchiku => "kenchiku"
    case Denki => "denki"
    case Kikai => "kikai"
  }

  /** The `part` label index items of the manual carry. */
  function PartLabel(m: Manual): string {
    match m
    case Kenchiku => "建築編"
    case Denki => "電気編"
    case Kikai => "機械編"
  }

  /** What openPdf is called with: a kind string (typeof 'string') or a
      result item. */
  datatype Target = Header(kind: string) | ResultItem(item: Item)

  /** The first if/else chain: a kind string to its manual. */
  function ManualOfKind(kind: string): Option<Manual> {
    if kind == "kenchiku" then Some(Kenchiku)
    else if kind == "denki" then Some(Denki)
    else if kind == "kikai" then Some(Kikai)
    else None
  }

  /** The second if/else chain: an item's part to its manual. */
  function ManualOfPart(part: string): Option<Manual> {
    if part == "建築編" then Some(Kenchiku)
    else if part == "電気編" then Some(Denki)
    else if part == "機械編" then Some(Kikai)
    else None
  }

  /** The file and page openPdf resolves a target to; None when no file
      is chosen (the alert path). */
  function Resolve(t: Target): Option<(Manual, int)> {
    match t
    case Header(kind) =>
      (match ManualOfKind(kind) case Some(m) => Some((m, 1)) case None => None)
    case ResultItem(item) =>
      (match ManualOfPart(item.part) case Some(m) => Some((m, PageOf(item))) case None => None)
  }

  const PageKey: string := "page="
  const SearchKey: string := "search="

  /** `${encodeURI(pdf)}#page=${page}`, then `&search=${encodeURIComponent(keyword)}`
      when the keyword is non-empty. */
  function BuildUrl(m: Manual, page: int, keyword: string): string {
    EncodeURI(FileName(m)) + "#" + PageKey + IntToString(page)
    + (if keyword != [] then "&" + SearchKey + EncodeURIComponent(keyword) else [])
  }

  /** What openPdf does with the frame: nothing (after the alert), or load
      the URL. */
  datatype Navigation = NoPdf | Navigate(url: string)

  function NavigationFor(t: Target, keyword: string): Navigation {
    match Resolve(t)
    case None => NoPdf
    case Some((m, page)) => Navigate(BuildUrl(m, page, keyword))
  }

  /** The pieces a viewer reads out of the URL. */
  datatype UrlParts = UrlParts(file: string, page: string, search: Option<string>)

  /** Splits at the first `sep`: the part before, and the part after when
      `sep` occurs. */
  function SplitFirst(s: string, sep: char): (string, Option<string>)
    decreases |s|
  {
    if s == [] then ([], None)
    else if s[0] == sep then ([], Some(s[1..]))
    else
      var (before, after) := SplitFirst(s[1..], sep);
      ([s[0]] + before, after)
  }

  /** How a viewer splits `file#page=N&search=K`. */
  function ParseUrl(url: string): Option<UrlParts> {
    var (file, fragment) := SplitFirst(url, '#');
    if fragment.None? || !(PageKey <= fragment.value) then None
    else
      var (page, tail) := SplitFirst(fragment.value[|PageKey|..], '&');
      if tail.None? then Some(UrlParts(file, page, None))
      else if SearchKey <= tail.value then Some(UrlParts(file, page, Some(tail.value[|SearchKey|..])))
      else None
  }

  lemma {:induction false} SplitFirstFound(a: string, sep: char, b: string)
    requires forall k :: 0 <= k < |a| ==> a[k] != sep
    ensures SplitFirst(a + [sep] + b, sep) == (a, Some(b))
  {
    if a == [] {
      assert a + [sep] + b == [sep] + b;
    } else {
      assert (a + [sep] + b)[1..] == a[1..] + [sep] + b;
      SplitFirstFound(a[1..], sep, b);
      assert [a[0]] + a[1..] == a;
    }
  }

  lemma {:induction false} SplitFirstAbsent(a: string, sep: char)
    requires forall k :: 0 <= k < |a| ==> a[k] != sep
    ensures SplitFirst(a, sep) == (a, None)
  {
    if a != [] {
      SplitFirstAbsent(a[1..], sep);
      assert [a[0]] + a[1..] == a;
    }
  }

  /** The file names need no encoding. */
  lemma FileNameEncoded(m: Manual)
    ensures EncodeURI(FileName(m)) == FileName(m)
    ensures forall k :: 0 <= k < |FileName(m)| ==> FileName(m)[k] != '#'
  {
    var f := FileName(m);
    assert forall k :: 0 <= k < |f| ==> 'a' <= f[k] <= 'z' || f[k] == '.';
    EncodeURIIdentity(f);
  }

  /** A URL without a search fragment splits into its file and page. */
  lemma ParseUrlPlain(file: string, page: string)
    requires forall k :: 0 <= k < |file| ==> file[k] != '#'
    requires forall k :: 0 <= k < |page| ==> page[k] != '&'
    ensures ParseUrl(file + "#" + PageKey + page) == Some(UrlParts(file, page, None))
  {
    var fragment := PageKey + page;
    assert file + "#" + PageKey + page == file + ['#'] + fragment;
    SplitFirstFound(file, '#', fragment);
    assert fragment[|PageKey|..] == page;
    SplitFirstAbsent(page, '&');
  }

  /** A URL with a search fragment splits into its file, page and search
      value. */
  lemma ParseUrlSearch(file: string, page: string, search: string)
    requires forall k :: 0 <= k < |file| ==> file[k] != '#'
    requires forall k :: 0 <= k < |page| ==> page[k] != '&'
    ensures ParseUrl(file + "#" + PageKey + page + ("&" + SearchKey + search))
         == Some(UrlParts(file, page, Some(search)))
  {
    var fragment := PageKey + page + ("&" + SearchKey + search);
    assert file + "#" + PageKey + page + ("&" + SearchKey + search) == file + ['#'] + fragment;
    SplitFirstFound(file, '#', fragment);
    assert fragment[|PageKey|..] == page + ['&'] + (SearchKey + search);
    SplitFirstFound(page, '&', SearchKey + search);
    assert (SearchKey + search)[|SearchKey|..] == search;
  }

  /** The URL carries the file, the page and, exactly when the keyword is
      non-empty, the encoded keyword, each where a viewer looks for it; the
      page reads back as the resolved number. */
  lemma BuildUrlParses(m: Manual, page: int, keyword: string)
    ensures ParseUrl(BuildUrl(m, page, keyword))
         == Some(UrlParts(FileName(m), IntToString(page),
                          if keyword == [] then None else Some(EncodeURIComponent(keyword))))
    ensures ParseInt(ParseUrl(BuildUrl(m, page, keyword)).value.page) == page
  {
    FileNameEncoded(m);
    var n := IntToString(page);
    if keyword == [] {
      assert BuildUrl(m, page, keyword) == FileName(m) + "#" + PageKey + n;
      ParseUrlPlain(FileName(m), n);
    } else {
      ParseUrlSearch(FileName(m), n, EncodeURIComponent(keyword));
    }
    IntToStringRoundTrip(page);
  }

  /** A kind string resolves exactly when it is one of the three header
      kinds, to that manual at page 1. */
  lemma ResolveHeader(kind: string, m: Manual)
    ensures Resolve(Header(kind)) == Some((m, 1)) <==> kind == HeaderKind(m)
    ensures Resolve(Header(kind)).None? <==> kind !in {"kenchiku", "denki", "kikai"}
  {
  }

  /** An item resolves exactly when its part is one of the three manual
      labels, to that manual at its page (1 when the page is falsy). */
  lemma ResolveItem(item: Item, m: Manual)
    ensures Resolve(ResultItem(item)) == Some((m, PageOf(item))) <==> item.part == PartLabel(m)
    ensures Resolve(ResultItem(item)).None? <==> item.part !in {"建築編", "電気編", "機械編"}
  {
  }

  /** A header button and a result item of the same manual open the same
      file. */
  lemma HeaderAndItemAgree(m: Manual, item: Item)
    requires item.part == PartLabel(m)
    ensures Resolve(Header(HeaderKind(m))).value.0 == Resolve(ResultItem(item)).value.0 == m
  {
  }

  /** No navigation happens exactly when the target does not resolve; the
      search fragment is present exactly when the keyword is non-empty. */
  lemma NavigationIff(t: Target, keyword: string)
    ensures NavigationFor(t, keyword) == NoPdf <==> Resolve(t).None?
    ensures NavigationFor(t, keyword).Navigate? ==>
              var (m, page) := Resolve(t).value;
              ParseUrl(NavigationFor(t, keyword).url).Some?
              && (ParseUrl(NavigationFor(t, keyword).url).value.search.Some? <==> keyword != [])
              && ParseUrl(NavigationFor(t, keyword).url).value.file == FileName(m)
              && ParseInt(ParseUrl(NavigationFor(t, keyword).url).value.page) == page
  {
    if Resolve(t).Some? {
      var (m, page) := Resolve(t).value;
      BuildUrlParses(m, page, keyword);
    }
  }

  /** The kenchiku header button with no keyword opens kenchiku.pdf at
      page 1 without a search fragment. */
  lemma OpenKenchikuHeader()
    ensures NavigationFor(Header("kenchiku"), "").Navigate?
    ensures ParseUrl(NavigationFor(Header("kenchiku"), "").url) == Some(UrlParts("kenchiku.pdf", "1", None))
  {
    assert Resolve(Header("kenchiku")) == Some((Kenchiku, 1));
    BuildUrlParses(Kenchiku, 1, "");
    assert IntToString(1) == "1";
  }

  /** A 電気編 item on page 42 with a keyword such as 配線 opens denki.pdf
      at page 42 with the encoded keyword as its search value. */
  lemma OpenDenkiItem(keyword: string)
    requires keyword != []
    ensures var nav := NavigationFor(ResultItem(Item("電気編", None, None, Some(42), None)), keyword);
            nav.Navigate?
            && ParseUrl(nav.url) == Some(UrlParts("denki.pdf", "42", Some(EncodeURIComponent(keyword))))
  {
    ResolveItem(Item("電気編", None, None, Some(42), None), Denki);
    BuildUrlParses(Denki, 42, keyword);
    PageFortyTwo();
  }

  lemma PageFortyTwo()
    ensures IntToString(42) == "42"
  {
  }

  /** A part no manual carries gives no navigation. */
  lemma UnknownPartFails(item: Item, keyword: string)
    requires ManualOfPart(item.part).None?
    ensures NavigationFor(ResultItem(item), keyword) == NoPdf
  {
  }
}
