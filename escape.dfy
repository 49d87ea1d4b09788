/**
 * escapeRegExp: a backslash is put before every regular-expression syntax
 * character of the keyword, so that the pattern built from it matches the
 * keyword literally.
 */
module RegExpEscape {
  import opened Wrappers

  /** The characters of the class [.*+?^${}()|[\]\\] that escapeRegExp
      replaces by '\' followed by the character (the replacement '\\$&'). */
  predicate IsMeta(c: char) {
    c == '.' || c == '*' || c == '+' || c == '?' || c == '^' || c == '$'
    || c == '{' || c == '}' || c == '(' || c == ')' || c == '|'
    || c == '[' || c == ']' || c == '\\'
  }

  function CountMeta(s: string): nat {
    if s == [] then 0 else (if IsMeta(s[0]) then 1 else 0) + CountMeta(s[1..])
  }

  /** One character of the input, as escapeRegExp writes it. */
  function EscapeChar(c: char): (r: string)
    ensures IsMeta(c) ==> r == ['\\', c]
    ensures !IsMeta(c) ==> r == [c]
  {
    if IsMeta(c) then ['\\', c] else [c]
  }

  /** escapeRegExp (a global replace, so every character is visited once, left
      to right). */
  function EscapeRegExp(s: string): (r: string)
  {
    if s == [] then [] else EscapeChar(s[0]) + EscapeRegExp(s[1..])
  }

  /** Reads a pattern as a regular expression made only of literal
      characters and escaped syntax characters, giving the string it
      matches; None when the pattern holds an unescaped syntax character
      (or a trailing or non-identity backslash), i.e. when it is more
      than a literal. */
  function ParseLiteral(p: string): (r: Option<string>)
  {
    if p == [] then Some([])
    else if p[0] == '\\' then
      if |p| >= 2 && IsMeta(p[1]) then
        match ParseLiteral(p[2..])
        case Some(rest) => Some([p[1]] + rest)
        case None => None
      else None
    else if IsMeta(p[0]) then None
    else
      match ParseLiteral(p[1..])
      case Some(rest) => Some([p[0]] + rest)
      case None => None
  }

  /** The escaped keyword is a pure literal pattern, and the literal it
      denotes is the keyword itself: removing the inserted backslashes gives
      back the input. */
  lemma {:induction false} EscapeIsLiteral(s: string)
    ensures ParseLiteral(EscapeRegExp(s)) == Some(s)
  {
    if s != [] {
      EscapeIsLiteral(s[1..]);
      var e := EscapeRegExp(s);
      if IsMeta(s[0]) {
        assert e[2..] == EscapeRegExp(s[1..]);
      } else {
        assert e[1..] == EscapeRegExp(s[1..]);
      }
      assert [s[0]] + s[1..] == s;
    }
  }

  /** Escaping is injective: two keywords with the same pattern are equal. */
  lemma EscapeInjective(s: string, t: string)
    requires EscapeRegExp(s) == EscapeRegExp(t)
    ensures s == t
  {
    EscapeIsLiteral(s);
    EscapeIsLiteral(t);
  }

  /** The output grows by exactly one backslash per syntax character. */
  lemma {:induction false} EscapeLength(s: string)
    ensures |EscapeRegExp(s)| == |s| + CountMeta(s)
  {
    if s != [] {
      EscapeLength(s[1..]);
    }
  }

  /** A keyword without syntax characters is its own pattern. */
  lemma {:induction false} EscapeIdentity(s: string)
    requires forall k :: 0 <= k < |s| ==> !IsMeta(s[k])
    ensures EscapeRegExp(s) == s
  {
    if s != [] {
      EscapeIdentity(s[1..]);
      assert [s[0]] + s[1..] == s;
    }
  }

  /** Escaping distributes over concatenation, so each character of the
      input is escaped independently of its neighbours. */
  lemma {:induction false} EscapeAppend(a: string, b: string)
    ensures EscapeRegExp(a + b) == EscapeRegExp(a) + EscapeRegExp(b)
  {
    if a == [] {
      assert a + b == b;
    } else {
      assert (a + b)[1..] == a[1..] + b;
      EscapeAppend(a[1..], b);
    }
  }
}
