/**
 * The result snippet: the first 80 characters of an item's text, with each
 * case-insensitive occurrence of the keyword wrapped in <mark>...</mark> by
 * a global, case-insensitive replace, scanning left to right.
 *
 * The replace's output is kept as a list of pieces, a plain character or a
 * marked run, so that what was inserted stays apart from what was already
 * in the text; Render gives the HTML string the script writes.
 */
module Highlight {
  import opened Text

  /** How many characters of the text the snippet shows (substring(0, 80)). */
  const SnippetLength: nat := 80

  const OpenTag: string := "<mark>"
  const CloseTag: string := "</mark>"

  datatype Piece = Plain(c: char) | Marked(m: string)

  /** The text the pieces stand for, without the marks. */
  function Flatten(ps: seq<Piece>): string {
    if ps == [] then []
    else (match ps[0] case Plain(c) => [c] case Marked(m) => m) + Flatten(ps[1..])
  }

  /** The snippet as the script writes it into the page. */
  function Render(ps: seq<Piece>): string {
    if ps == [] then []
    else (match ps[0] case Plain(c) => [c] case Marked(m) => OpenTag + m + CloseTag) + Render(ps[1..])
  }

  /** Two strings are equal up to the case fold (the regular expression's
      `i` flag). */
  predicate FoldEq(a: string, b: string) {
    |a| == |b| && Lower(a) == Lower(b)
  }

  /** The keyword occurs, case-insensitively, at index `i` of `s`. */
  predicate MatchAt(s: string, i: nat, kw: string) {
    i + |kw| <= |s| && FoldEq(s[i..i + |kw|], kw)
  }

  /** snippet.replace(new RegExp(escapeRegExp(kw), 'ig'), m => `<mark>${m}</mark>`),
      with the escaped pattern read as the literal `kw` (see
      RegExpEscape.EscapeIsLiteral): at each position, a match is wrapped
      and the scan resumes after it; otherwise one character is kept. */
  function HighlightMatches(s: string, kw: string): (ps: seq<Piece>)
    requires kw != []
    ensures Flatten(ps) == s
    decreases |s|
  {
    if s == [] then []
    else if MatchAt(s, 0, kw) then
      var ps := [Marked(s[..|kw|])] + HighlightMatches(s[|kw|..], kw);
      assert ps[1..] == HighlightMatches(s[|kw|..], kw);
      assert s == s[..|kw|] + s[|kw|..];
      ps
    else
      var ps := [Plain(s[0])] + HighlightMatches(s[1..], kw);
      assert ps[1..] == HighlightMatches(s[1..], kw);
      assert s == [s[0]] + s[1..];
      ps
  }

  /** Every character shown plainly. */
  function PlainText(s: string): (ps: seq<Piece>)
    ensures Flatten(ps) == s
    ensures forall k :: 0 <= k < |ps| ==> ps[k].Plain?
  {
    if s == [] then []
    else
      var ps := [Plain(s[0])] + PlainText(s[1..]);
      assert ps[1..] == PlainText(s[1..]);
      assert s == [s[0]] + s[1..];
      ps
  }

  /** The snippet of one result: the first 80 characters of the text,
      highlighted when the keyword is non-empty. */
  function Snippet(text: string, kw: string): seq<Piece> {
    var s := Prefix(text, SnippetLength);
    if kw == [] then PlainText(s) else HighlightMatches(s, kw)
  }

  lemma {:induction false} FlattenAppend(a: seq<Piece>, b: seq<Piece>)
    ensures Flatten(a + b) == Flatten(a) + Flatten(b)
  {
    if a == [] {
      assert a + b == b;
    } else {
      assert (a + b)[1..] == a[1..] + b;
      FlattenAppend(a[1..], b);
    }
  }

  lemma MatchAtShift(s: string, d: nat, j: nat, kw: string)
    requires d <= |s|
    ensures MatchAt(s, d + j, kw) == MatchAt(s[d..], j, kw)
  {
    if d + j + |kw| <= |s| {
      assert s[d..][j..j + |kw|] == s[d + j..d + j + |kw|];
    }
  }

  /** The offset in the snippet at which piece k starts. */
  function StartOf(ps: seq<Piece>, k: nat): nat
    requires k <= |ps|
  {
    |Flatten(ps[..k])|
  }

  /** A piece is marked exactly when the keyword occurs (case-insensitively)
      where that piece starts in `s`, and every marked run equals the keyword
      up to case. */
  predicate MarksExactly(s: string, kw: string, ps: seq<Piece>) {
    forall k :: 0 <= k < |ps| ==>
      (ps[k].Marked? <==> MatchAt(s, StartOf(ps, k), kw))
      && (ps[k].Marked? ==> FoldEq(ps[k].m, kw))
  }

  lemma StartOfCons(head: Piece, rest: seq<Piece>, k: nat)
    requires 0 < k <= |rest| + 1
    ensures StartOf([head] + rest, k) == |Flatten([head])| + StartOf(rest, k - 1)
  {
    assert ([head] + rest)[..k] == [head] + rest[..k - 1];
    FlattenAppend([head], rest[..k - 1]);
  }

  /** The k+1-th piece of [head] + rest starts where the k-th piece of rest
      starts, shifted by the length of head. */
  lemma PieceShift(s: string, kw: string, head: Piece, rest: seq<Piece>, k: nat)
    requires |Flatten([head])| <= |s| && k < |rest|
    ensures StartOf([head] + rest, k + 1) == |Flatten([head])| + StartOf(rest, k)
    ensures MatchAt(s, StartOf([head] + rest, k + 1), kw)
            == MatchAt(s[|Flatten([head])|..], StartOf(rest, k), kw)
  {
    StartOfCons(head, rest, k + 1);
    MatchAtShift(s, |Flatten([head])|, StartOf(rest, k), kw);
  }

  /** MarksExactly for a list splits into its first piece and the rest. */
  lemma MarksExactlyCons(s: string, kw: string, head: Piece, rest: seq<Piece>)
    requires |Flatten([head])| <= |s|
    ensures var d := |Flatten([head])|;
            MarksExactly(s, kw, [head] + rest)
            <==> (head.Marked? <==> MatchAt(s, 0, kw)) && (head.Marked? ==> FoldEq(head.m, kw))
                 && MarksExactly(s[d..], kw, rest)
  {
    var d := |Flatten([head])|;
    var ps := [head] + rest;
    assert StartOf(ps, 0) == 0 by { assert ps[..0] == []; }
    if MarksExactly(s, kw, ps) {
      assert ps[0] == head;
      MarksExactlyTail(s, kw, head, rest);
    }
    if (head.Marked? <==> MatchAt(s, 0, kw)) && (head.Marked? ==> FoldEq(head.m, kw))
       && MarksExactly(s[d..], kw, rest) {
      MarksExactlyExtend(s, kw, head, rest);
    }
  }

  /** A first piece that marks exactly, in front of a list that does. */
  lemma MarksExactlyExtend(s: string, kw: string, head: Piece, rest: seq<Piece>)
    requires |Flatten([head])| <= |s|
    requires (head.Marked? <==> MatchAt(s, 0, kw)) && (head.Marked? ==> FoldEq(head.m, kw))
    requires MarksExactly(s[|Flatten([head])|..], kw, rest)
    ensures MarksExactly(s, kw, [head] + rest)
  {
    var ps := [head] + rest;
    assert StartOf(ps, 0) == 0 by { assert ps[..0] == []; }
    forall k | 0 <= k < |ps|
      ensures (ps[k].Marked? <==> MatchAt(s, StartOf(ps, k), kw))
              && (ps[k].Marked? ==> FoldEq(ps[k].m, kw))
    {
      if k > 0 {
        assert ps[k] == rest[k - 1];
        PieceShift(s, kw, head, rest, k - 1);
      }
    }
  }

  /** A list that marks exactly keeps doing so without its first piece. */
  lemma MarksExactlyTail(s: string, kw: string, head: Piece, rest: seq<Piece>)
    requires |Flatten([head])| <= |s|
    requires MarksExactly(s, kw, [head] + rest)
    ensures MarksExactly(s[|Flatten([head])|..], kw, rest)
  {
    var ps := [head] + rest;
    forall k | 0 <= k < |rest|
      ensures (rest[k].Marked? <==> MatchAt(s[|Flatten([head])|..], StartOf(rest, k), kw))
              && (rest[k].Marked? ==> FoldEq(rest[k].m, kw))
    {
      assert ps[k + 1] == rest[k];
      PieceShift(s, kw, head, rest, k);
    }
  }

  /** The scan is the leftmost, non-overlapping one. */
  lemma {:induction false} HighlightMarksMatches(s: string, kw: string)
    requires kw != []
    ensures MarksExactly(s, kw, HighlightMatches(s, kw))
    decreases |s|
  {
    if s != [] {
      var d := if MatchAt(s, 0, kw) then |kw| else 1;
      var head := if MatchAt(s, 0, kw) then Marked(s[..|kw|]) else Plain(s[0]);
      var rest := HighlightMatches(s[d..], kw);
      assert HighlightMatches(s, kw) == [head] + rest;
      assert Flatten([head]) == (if MatchAt(s, 0, kw) then s[..|kw|] else [s[0]]);
      HighlightMarksMatches(s[d..], kw);
      MarksExactlyCons(s, kw, head, rest);
    }
  }

  /** The leftmost scan is the only marking with these properties: any
      piece list that spells the snippet and marks a piece, with a run
      equal to the keyword up to case, exactly where the keyword occurs at
      its start, is the one HighlightMatches builds. */
  lemma {:induction false} HighlightUnique(s: string, kw: string, ps: seq<Piece>)
    requires kw != []
    requires Flatten(ps) == s
    requires MarksExactly(s, kw, ps)
    ensures ps == HighlightMatches(s, kw)
    decreases |ps|
  {
    if ps != [] {
      var head, rest := ps[0], ps[1..];
      assert ps == [head] + rest;
      FlattenAppend([head], rest);
      var d := |Flatten([head])|;
      assert s == Flatten([head]) + Flatten(rest);
      MarksExactlyCons(s, kw, head, rest);
      assert s[d..] == Flatten(rest);
      HighlightUnique(s[d..], kw, rest);
      if head.Marked? {
        assert s[..|kw|] == head.m;
      } else {
        assert s[0] == head.c;
      }
    }
  }

  /** Deleting the inserted <mark> and </mark> tags. */
  function StripMarks(h: string): string
    decreases |h|
  {
    if h == [] then []
    else if OpenTag <= h then StripMarks(h[|OpenTag|..])
    else if CloseTag <= h then StripMarks(h[|CloseTag|..])
    else [h[0]] + StripMarks(h[1..])
  }

  /** Text without '<' passes through StripMarks unchanged. */
  lemma {:induction false} StripMarksKeeps(a: string, t: string)
    requires forall k :: 0 <= k < |a| ==> a[k] != '<'
    ensures StripMarks(a + t) == a + StripMarks(t)
  {
    if a == [] {
      assert a + t == t;
    } else {
      var h := a + t;
      assert h[0] == a[0] && a[0] != '<';
      assert !(OpenTag <= h) && !(CloseTag <= h);
      assert h[1..] == a[1..] + t;
      StripMarksKeeps(a[1..], t);
    }
  }

  /** One wrapped run loses its two tags and keeps its text. */
  lemma StripMarksWrapped(m: string, r: string)
    requires forall k :: 0 <= k < |m| ==> m[k] != '<'
    ensures StripMarks(OpenTag + m + CloseTag + r) == m + StripMarks(r)
  {
    var tail := CloseTag + r;
    assert OpenTag + m + CloseTag + r == OpenTag + (m + tail);
    StripOpenTag(m + tail);
    StripMarksKeeps(m, tail);
    StripCloseTag(r);
  }

  lemma StripOpenTag(r: string)
    ensures StripMarks(OpenTag + r) == StripMarks(r)
  {
    var h := OpenTag + r;
    assert OpenTag <= h;
    assert h[|OpenTag|..] == r;
  }

  lemma StripCloseTag(r: string)
    ensures StripMarks(CloseTag + r) == StripMarks(r)
  {
    var h := CloseTag + r;
    assert h[1] == '/' && OpenTag[1] == 'm';
    assert CloseTag <= h;
    assert h[|CloseTag|..] == r;
  }

  /** Removing the tags from the rendered snippet gives back the text, when
      the text holds no '<' of its own. */
  lemma {:induction false} StripMarksRender(ps: seq<Piece>)
    requires forall k :: 0 <= k < |Flatten(ps)| ==> Flatten(ps)[k] != '<'
    ensures StripMarks(Render(ps)) == Flatten(ps)
  {
    if ps != [] {
      var rest := ps[1..];
      assert Flatten(ps) == Flatten([ps[0]]) + Flatten(rest) by {
        assert ps == [ps[0]] + rest;
        FlattenAppend([ps[0]], rest);
      }
      assert forall k :: 0 <= k < |Flatten(rest)| ==> Flatten(rest)[k] == Flatten(ps)[k + |Flatten([ps[0]])|];
      StripMarksRender(rest);
      match ps[0]
      case Plain(c) =>
        assert Flatten(ps)[0] == c;
        StripMarksKeeps([c], Render(rest));
      case Marked(m) =>
        assert forall k :: 0 <= k < |m| ==> m[k] == Flatten(ps)[k];
        StripMarksWrapped(m, Render(rest));
    }
  }

  /** The snippet spells the first min(80, |text|) characters of the text;
      with an empty keyword nothing is marked. */
  lemma SnippetText(text: string, kw: string)
    ensures Flatten(Snippet(text, kw)) == text[..Min(SnippetLength, |text|)]
    ensures kw == [] ==> forall k :: 0 <= k < |Snippet(text, kw)| ==> Snippet(text, kw)[k].Plain?
  {
  }

  /** With a keyword, deleting the tags from the rendered snippet restores
      the truncated text (when it holds no '<'), and every marked run is an
      occurrence of the keyword up to case. */
  lemma SnippetRoundTrip(text: string, kw: string)
    requires kw != []
    requires forall k :: 0 <= k < Min(SnippetLength, |text|) ==> text[k] != '<'
    ensures StripMarks(Render(Snippet(text, kw))) == text[..Min(SnippetLength, |text|)]
    ensures forall k :: 0 <= k < |Snippet(text, kw)| && Snippet(text, kw)[k].Marked? ==>
              FoldEq(Snippet(text, kw)[k].m, kw)
  {
    var s := Prefix(text, SnippetLength);
    assert Snippet(text, kw) == HighlightMatches(s, kw);
    StripMarksRender(HighlightMatches(s, kw));
    HighlightMarksMatches(s, kw);
  }

  /** Highlighting a keyword with a syntax character is literal: "a.b"
      marks nothing in "aXb". */
  lemma DotMarksNothing()
    ensures HighlightMatches("aXb", "a.b") == [Plain('a'), Plain('X'), Plain('b')]
  {
    assert !MatchAt("aXb", 0, "a.b") by {
      assert Lower("aXb") == "axb";
    }
    assert "aXb"[1..] == "Xb";
    assert "Xb"[1..] == "b";
    assert "b"[1..] == [];
  }
}
