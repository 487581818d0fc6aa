/** The string functions of Go's standard library that the chat server relies on:
    strings.TrimSpace, strings.ReplaceAll(s, "\r", ""), strings.HasPrefix,
    strings.Index and strings.SplitN(s, " ", 2), strings.ToLower, and the `%d` verb
    of fmt.Sprintf. A Go string is modelled as the sequence of its runes. */
module Text {

  /** unicode.IsSpace: the runes with the Unicode White_Space property. */
  predicate IsSpace(c: char) {
    ('\t' <= c <= '\r') || c == ' ' || c == '\U{85}' || c == '\U{A0}' || c == '\U{1680}'
    || ('\U{2000}' <= c <= '\U{200A}') || c == '\U{2028}' || c == '\U{2029}'
    || c == '\U{202F}' || c == '\U{205F}' || c == '\U{3000}'
  }

  ghost predicate AllSpace(s: string) {
    forall i :: 0 <= i < |s| ==> IsSpace(s[i])
  }

  /** Neither end of `s` is white space. */
  predicate Trimmed(s: string) {
    s == [] || (!IsSpace(s[0]) && !IsSpace(s[|s| - 1]))
  }

  /** The first position at or after `i` that is not white space (or |s|). */
  function SkipLeft(s: string, i: nat): (k: nat)
    requires i <= |s|
    ensures i <= k <= |s| && (k == |s| || !IsSpace(s[k]))
    ensures forall j :: i <= j < k ==> IsSpace(s[j])
    decreases |s| - i
  {
    if i < |s| && IsSpace(s[i]) then SkipLeft(s, i + 1) else i
  }

  /** The position after the last rune before `j` (and at or after `lo`) that
      is not white space (or `lo`). */
  function SkipRight(s: string, lo: nat, j: nat): (k: nat)
    requires lo <= j <= |s|
    ensures lo <= k <= j && (k == lo || !IsSpace(s[k - 1]))
    ensures forall m :: k <= m < j ==> IsSpace(s[m])
    decreases j
  {
    if lo < j && IsSpace(s[j - 1]) then SkipRight(s, lo, j - 1) else j
  }

  /** strings.TrimSpace: what is left of `s` after removing all leading and
      trailing white space (TrimSpaceInfix says which part of `s` that is). */
  function TrimSpace(s: string): (r: string)
    ensures Trimmed(r)
    ensures r == [] <==> AllSpace(s)
    ensures Trimmed(s) ==> r == s
  {
    var lo := SkipLeft(s, 0);
    var hi := SkipRight(s, lo, |s|);
    s[lo..hi]
  }

  /** TrimSpace keeps an infix of `s` and drops only white space around it. */
  lemma TrimSpaceInfix(s: string) returns (lo: nat)
    ensures lo + |TrimSpace(s)| <= |s| && TrimSpace(s) == s[lo..lo + |TrimSpace(s)|]
    ensures AllSpace(s[..lo]) && AllSpace(s[lo + |TrimSpace(s)|..])
  {
    lo := SkipLeft(s, 0);
    var hi := SkipRight(s, lo, |s|);
    assert TrimSpace(s) == s[lo..hi];
  }

  /** Skipping from the start of white space `pre` stops where `x` begins. */
  lemma {:induction false} SkipLeftStops(pre: string, x: string, i: nat)
    requires i <= |pre| && AllSpace(pre) && (x == [] || !IsSpace(x[0]))
    ensures SkipLeft(pre + x, i) == |pre|
    decreases |pre| - i
  {
    if i < |pre| {
      assert (pre + x)[i] == pre[i];
      SkipLeftStops(pre, x, i + 1);
    } else if x != [] {
      assert (pre + x)[i] == x[0];
    }
  }

  /** Skipping back from the end of white space `post` stops where `post` begins. */
  lemma {:induction false} SkipRightStops(s: string, lo: nat, x: nat, j: nat)
    requires lo <= x <= j <= |s| && (x == lo || !IsSpace(s[x - 1]))
    requires forall m :: x <= m < j ==> IsSpace(s[m])
    ensures SkipRight(s, lo, j) == x
    decreases j
  {
    if x < j {
      SkipRightStops(s, lo, x, j - 1);
    }
  }

  /** TrimSpace removes exactly the white space around a trimmed core. */
  lemma TrimSpaceAround(pre: string, core: string, post: string)
    requires AllSpace(pre) && AllSpace(post) && Trimmed(core)
    ensures TrimSpace(pre + core + post) == core
  {
    var s := pre + core + post;
    if core == [] {
      assert AllSpace(s);
    } else {
      assert s == pre + (core + post);
      SkipLeftStops(pre, core + post, 0);
      var x := |pre| + |core|;
      assert s[x - 1] == core[|core| - 1];
      assert forall m :: x <= m < |s| ==> s[m] == post[m - x];
      SkipRightStops(s, |pre|, x, |s|);
      assert s[|pre|..x] == core;
    }
  }

  /** strings.ReplaceAll(s, "\r", ""): `s` with every carriage return deleted. */
  function RemoveCR(s: string): (r: string)
    ensures '\r' !in r
    ensures '\r' !in s ==> r == s
    ensures forall c :: c != '\r' ==> multiset(r)[c] == multiset(s)[c]
  {
    if s == [] then []
    else
      var rest := RemoveCR(s[1..]);
      assert s == [s[0]] + s[1..];
      if s[0] == '\r' then rest else [s[0]] + rest
  }

  /** RemoveCR works rune by rune: the remaining runes keep their order. */
  lemma {:induction false} RemoveCRAppend(a: string, b: string)
    ensures RemoveCR(a + b) == RemoveCR(a) + RemoveCR(b)
  {
    if a != [] {
      assert (a + b)[1..] == a[1..] + b;
      RemoveCRAppend(a[1..], b);
    } else {
      assert a + b == b;
    }
  }

  predicate HasPrefix(s: string, prefix: string) {
    |prefix| <= |s| && s[..|prefix|] == prefix
  }

  /** strings.Index for a one-rune separator: the position of the first `c`
      in `s`, or -1 when there is none. */
  function IndexOf(s: string, c: char): (k: int)
    ensures -1 <= k < |s|
    ensures k == -1 <==> c !in s
    ensures 0 <= k ==> s[k] == c && c !in s[..k]
  {
    if s == [] then -1
    else if s[0] == c then 0
    else
      var k := IndexOf(s[1..], c);
      assert s == [s[0]] + s[1..];
      if k == -1 then -1
      else
        assert s[..k + 1] == [s[0]] + s[1..][..k];
        k + 1
  }

  /** strings.SplitN(s, sep, 2) for a one-rune separator: `[s]` when `sep`
      does not occur, else the text before and after its first occurrence. */
  function SplitFirst(s: string, sep: char): (parts: seq<string>)
    ensures 1 <= |parts| <= 2
    ensures |parts| == 1 <==> sep !in s
    ensures |parts| == 1 ==> parts[0] == s
    ensures |parts| == 2 ==> parts[0] + [sep] + parts[1] == s && sep !in parts[0]
  {
    var k := IndexOf(s, sep);
    if k < 0 then [s]
    else
      assert s == s[..k] + [sep] + s[k + 1..];
      [s[..k], s[k + 1..]]
  }

  /** unicode.ToLower, restricted to the runes it maps to an ASCII letter: 'A'..'Z',
      U+0130 (capital I with dot above, lowered to 'i') and U+212A (the Kelvin sign,
      lowered to 'k'). Every other rune is returned unchanged. */
  function LowerRune(c: char): (l: char)
  {
    if 'A' <= c <= 'Z' then (c as int + 32) as char
    else if c == '\U{130}' then 'i'
    else if c == '\U{212A}' then 'k'
    else c
  }

  /** strings.ToLower: lowers each rune in place. */
  function ToLower(s: string): (r: string)
    ensures |r| == |s|
    ensures forall i :: 0 <= i < |s| ==> r[i] == LowerRune(s[i])
  {
    if s == [] then [] else [LowerRune(s[0])] + ToLower(s[1..])
  }

  predicate IsDigit(c: char) {
    '0' <= c <= '9'
  }

  function DigitChar(d: nat): (c: char)
    requires d < 10
    ensures IsDigit(c)
  {
    ('0' as int + d) as char
  }

  function DigitValue(c: char): (d: nat)
    requires IsDigit(c)
    ensures d < 10 && DigitChar(d) == c
  {
    c as int - '0' as int
  }

  /** The `%d` verb of fmt.Sprintf for a non-negative integer: its decimal
      digits, most significant first, with no leading zero. */
  function Decimal(n: nat): (r: string)
    ensures |r| >= 1
    ensures forall i :: 0 <= i < |r| ==> IsDigit(r[i])
    ensures r[0] == '0' ==> n == 0 && r == "0"
  {
    if n < 10 then [DigitChar(n)] else Decimal(n / 10) + [DigitChar(n % 10)]
  }

  /** The value of a string of decimal digits (the inverse of Decimal). */
  function ParseDecimal(s: string): nat
    requires forall i :: 0 <= i < |s| ==> IsDigit(s[i])
  {
    if s == [] then 0 else ParseDecimal(s[..|s| - 1]) * 10 + DigitValue(s[|s| - 1])
  }

  /** Decimal loses nothing: the rendered ID reads back as the ID. */
  lemma {:induction false} DecimalRoundTrip(n: nat)
    ensures ParseDecimal(Decimal(n)) == n
  {
    var r := Decimal(n);
    if n >= 10 {
      DecimalRoundTrip(n / 10);
      assert r[..|r| - 1] == Decimal(n / 10);
    }
  }

  /** Two different IDs never render to the same text. */
  lemma DecimalInjective(m: nat, n: nat)
    requires Decimal(m) == Decimal(n)
    ensures m == n
  {
    DecimalRoundTrip(m);
    DecimalRoundTrip(n);
  }
}
