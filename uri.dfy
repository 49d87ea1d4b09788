/**
 * The two URI encoders openPdf uses, encodeURI and encodeURIComponent
 * (percent-encoding of the UTF-8 bytes of every character outside the set
 * each one keeps), and the decimal form of the page number in `#page=N`.
 */
module Uri {

  predicate IsAlnum(c: char) {
    ('a' <= c <= 'z') || ('A' <= c <= 'Z') || ('0' <= c <= '9')
  }

  /** Characters encodeURIComponent keeps: letters, digits and - _ . ! ~ * ' ( ). */
  predicate KeptByComponent(c: char) {
    IsAlnum(c) || c == '-' || c == '_' || c == '.' || c == '!' || c == '~'
    || c == '*' || c == '\'' || c == '(' || c == ')'
  }

  /** Characters encodeURI keeps: those above and ; / ? : @ & = + $ , #. */
  predicate KeptByUri(c: char) {
    KeptByComponent(c) || c == ';' || c == '/' || c == '?' || c == ':' || c == '@'
    || c == '&' || c == '=' || c == '+' || c == '$' || c == ',' || c == '#'
  }

  /** The UTF-8 bytes of one character. */
  function Utf8(c: char): (bs: seq<int>)
    ensures 1 <= |bs| <= 4
    ensures forall k :: 0 <= k < |bs| ==> 0 <= bs[k] < 256
    ensures c as int < 0x80 <==> |bs| == 1
  {
    var n := c as int;
    if n < 0x80 then [n]
    else if n < 0x800 then [0xC0 + n / 64, 0x80 + n % 64]
    else if n < 0x10000 then [0xE0 + n / 4096, 0x80 + (n / 64) % 64, 0x80 + n % 64]
    else [0xF0 + n / 262144, 0x80 + (n / 4096) % 64, 0x80 + (n / 64) % 64, 0x80 + n % 64]
  }

  function HexDigit(n: int): (c: char)
    requires 0 <= n < 16
    ensures IsAlnum(c)
  {
    "0123456789ABCDEF"[n]
  }

  /** %XX for every byte, upper-case hexadecimal. */
  function Percent(bs: seq<int>): (r: string)
    requires forall k :: 0 <= k < |bs| ==> 0 <= bs[k] < 256
    ensures |r| == 3 * |bs|
    ensures forall k :: 0 <= k < |r| ==> r[k] == '%' || IsAlnum(r[k])
  {
    if bs == [] then []
    else ['%', HexDigit(bs[0] / 16), HexDigit(bs[0] % 16)] + Percent(bs[1..])
  }

  /** One character as an encoder writes it: itself when `keep` holds of
      it, otherwise its percent-encoded UTF-8 bytes. */
  function EncodeChar(c: char, keep: bool): (r: string)
    ensures keep ==> r == [c]
    ensures !keep ==> 3 <= |r| <= 12 && r[0] == '%'
    ensures !keep ==> forall k :: 0 <= k < |r| ==> r[k] == '%' || IsAlnum(r[k])
  {
    if keep then [c] else Percent(Utf8(c))
  }

  /** encodeURIComponent. */
  function EncodeURIComponent(s: string): (r: string)
    ensures forall k :: 0 <= k < |r| ==> KeptByComponent(r[k]) || r[k] == '%'
    ensures |s| <= |r|
    ensures r == [] <==> s == []
  {
    if s == [] then []
    else
      var r := EncodeChar(s[0], KeptByComponent(s[0])) + EncodeURIComponent(s[1..]);
      assert forall k :: 0 <= k < |r| ==> KeptByComponent(r[k]) || r[k] == '%';
      r
  }

  /** encodeURI. */
  function EncodeURI(s: string): (r: string)
    ensures |s| <= |r|
  {
    if s == [] then [] else EncodeChar(s[0], KeptByUri(s[0])) + EncodeURI(s[1..])
  }

  /** encodeURI leaves a string alone when every character is one it keeps. */
  lemma {:induction false} EncodeURIIdentity(s: string)
    requires forall k :: 0 <= k < |s| ==> KeptByUri(s[k])
    ensures EncodeURI(s) == s
  {
    if s != [] {
      EncodeURIIdentity(s[1..]);
      assert [s[0]] + s[1..] == s;
    }
  }

  /** encodeURIComponent encodes the characters of a string one by one. */
  lemma {:induction false} EncodeComponentAppend(a: string, b: string)
    ensures EncodeURIComponent(a + b) == EncodeURIComponent(a) + EncodeURIComponent(b)
  {
    if a == [] {
      assert a + b == b;
    } else {
      assert (a + b)[1..] == a[1..] + b;
      EncodeComponentAppend(a[1..], b);
    }
  }

  function DigitChar(d: int): (c: char)
    requires 0 <= d < 10
    ensures '0' <= c <= '9'
  {
    (d + '0' as int) as char
  }

  function DigitValue(c: char): int {
    c as int - '0' as int
  }

  /** The decimal digits of a natural number, most significant first, with
      no leading zero. */
  function NatToString(n: nat): (r: string)
    ensures r != []
    ensures forall k :: 0 <= k < |r| ==> '0' <= r[k] <= '9'
    ensures r[0] == '0' ==> n == 0
    decreases n
  {
    if n < 10 then [DigitChar(n)] else NatToString(n / 10) + [DigitChar(n % 10)]
  }

  /** How `${page}` prints an integer page number. */
  function IntToString(n: int): (r: string)
    ensures r != []
    ensures forall k :: 0 <= k < |r| ==> ('0' <= r[k] <= '9') || (k == 0 && r[k] == '-')
  {
    if n < 0 then "-" + NatToString(-n) else NatToString(n)
  }

  /** Reads a string of decimal digits back. */
  function ParseNat(s: string): int
    decreases |s|
  {
    if s == [] then 0 else 10 * ParseNat(s[..|s| - 1]) + DigitValue(s[|s| - 1])
  }

  function ParseInt(s: string): int {
    if s != [] && s[0] == '-' then -ParseNat(s[1..]) else ParseNat(s)
  }

  lemma {:induction false} ParseNatToString(n: nat)
    ensures ParseNat(NatToString(n)) == n
    decreases n
  {
    if n >= 10 {
      ParseNatToString(n / 10);
      var r := NatToString(n);
      assert r[..|r| - 1] == NatToString(n / 10);
    }
  }

  /** The page number written into the URL reads back as the same number. */
  lemma IntToStringRoundTrip(n: int)
    ensures ParseInt(IntToString(n)) == n
  {
    if n < 0 {
      ParseNatToString(-n);
      assert ("-" + NatToString(-n))[1..] == NatToString(-n);
    } else {
      ParseNatToString(n);
    }
  }
}
