/** Python string operations the model needs, on `string` = `seq<char>`:
    substring and prefix tests, `strip()`, `rstrip(c)`, decimal formatting of
    integers and the code-point ordering used by `sorted`. */
module Text {

  predicate IsPrefix(p: string, s: string) {
    |p| <= |s| && s[..|p|] == p
  }

  /** Python's `sub in s`; the empty string is in every string. */
  predicate Contains(s: string, sub: string)
    decreases |s|
  {
    IsPrefix(sub, s) || (|s| > 0 && Contains(s[1..], sub))
  }

  /** A string contains its own prefixes' matches: if `a + b` occurs in s,
      so does `a`. */
  lemma {:induction false} ContainsPrefixOf(s: string, a: string, b: string)
    requires Contains(s, a + b)
    ensures Contains(s, a)
    decreases |s|
  {
    if IsPrefix(a + b, s) {
      assert s[..|a|] == (a + b)[..|a|] == a;
    } else {
      ContainsPrefixOf(s[1..], a, b);
    }
  }

  /** A string is found in itself. */
  lemma ContainsSelf(s: string)
    ensures Contains(s, s)
  {
    assert IsPrefix(s, s);
  }

  /** Python's `str.isspace()` for one character: the Unicode white space
      characters, including the ideographic space U+3000. */
  predicate IsSpace(c: char) {
    c == ' ' || ('\t' <= c <= '\r') || ('\U{1C}' <= c <= '\U{1F}')
    || c == '\U{85}' || c == '\U{A0}' || c == '\U{1680}'
    || ('\U{2000}' <= c <= '\U{200A}') || c == '\U{2028}' || c == '\U{2029}'
    || c == '\U{202F}' || c == '\U{205F}' || c == '\U{3000}'
  }

  function StripLeft(s: string): (r: string)
    ensures |r| <= |s| && r == s[|s| - |r|..]
    ensures forall i :: 0 <= i < |s| - |r| ==> IsSpace(s[i])
    ensures |r| > 0 ==> !IsSpace(r[0])
  {
    if |s| > 0 && IsSpace(s[0]) then StripLeft(s[1..]) else s
  }

  function StripRight(s: string): (r: string)
    ensures |r| <= |s| && r == s[..|r|]
    ensures forall i :: |r| <= i < |s| ==> IsSpace(s[i])
    ensures |r| > 0 ==> !IsSpace(r[|r| - 1])
  {
    if |s| > 0 && IsSpace(s[|s| - 1]) then StripRight(s[..|s| - 1]) else s
  }

  /** r is s[lo..lo + |r|] and everything of s outside that piece is white
      space. */
  predicate TrimmedAt(s: string, r: string, lo: int) {
    && 0 <= lo && lo + |r| <= |s| && r == s[lo..lo + |r|]
    && (forall i :: 0 <= i < lo ==> IsSpace(s[i]))
    && (forall i :: lo + |r| <= i < |s| ==> IsSpace(s[i]))
  }

  /** Python's `str.strip()`: the result is a contiguous piece of s; what was
      cut on either side is white space, and the result neither starts nor
      ends with white space. */
  function Strip(s: string): (r: string)
    ensures exists lo :: TrimmedAt(s, r, lo)
    ensures |r| > 0 ==> !IsSpace(r[0]) && !IsSpace(r[|r| - 1])
  {
    var l := StripLeft(s);
    var r := StripRight(l);
    assert r == s[|s| - |l|..][..|r|] == s[|s| - |l|..|s| - |l| + |r|];
    assert TrimmedAt(s, r, |s| - |l|);
    r
  }

  /** Stripping a string that neither starts nor ends with white space
      changes nothing. */
  lemma StripNoop(s: string)
    requires |s| > 0 ==> !IsSpace(s[0]) && !IsSpace(s[|s| - 1])
    ensures Strip(s) == s
  {
  }

  /** `strip()` is idempotent. */
  lemma StripIdempotent(s: string)
    ensures Strip(Strip(s)) == Strip(s)
  {
    StripNoop(Strip(s));
  }

  /** Python's `s.rstrip(c)` for a single character c: every trailing c is
      removed and nothing else. */
  function RStripChar(s: string, c: char): (r: string)
    ensures |r| <= |s| && r == s[..|r|]
    ensures forall i :: |r| <= i < |s| ==> s[i] == c
    ensures |r| > 0 ==> r[|r| - 1] != c
  {
    if |s| > 0 && s[|s| - 1] == c then RStripChar(s[..|s| - 1], c) else s
  }

  predicate IsDigit(c: char) {
    '0' <= c <= '9'
  }

  predicate AllDigits(s: string) {
    forall i :: 0 <= i < |s| ==> IsDigit(s[i])
  }

  predicate NoDigits(s: string) {
    forall i :: 0 <= i < |s| ==> !IsDigit(s[i])
  }

  function DigitChar(d: nat): (c: char)
    requires d < 10
    ensures IsDigit(c)
  {
    (d + 48) as char
  }

  /** Python's `str(n)` for a natural number: decimal digits without leading
      zeros. */
  function NatStr(n: nat): (r: string)
    ensures |r| >= 1 && AllDigits(r)
    ensures |r| == 1 <==> n < 10
    decreases n
  {
    if n < 10 then [DigitChar(n)] else NatStr(n / 10) + [DigitChar(n % 10)]
  }

  /** Python's `str(i)` for any integer. */
  function IntStr(i: int): string {
    if i < 0 then "-" + NatStr(-i) else NatStr(i)
  }

  /** Different numbers print differently. */
  lemma {:induction false} NatStrInjective(a: nat, b: nat)
    requires NatStr(a) == NatStr(b)
    ensures a == b
    decreases a
  {
    if a >= 10 && b >= 10 {
      var sa, sb := NatStr(a), NatStr(b);
      assert sa[|sa| - 1] == sb[|sb| - 1];
      assert a % 10 == b % 10;
      assert sa[..|sa| - 1] == NatStr(a / 10);
      assert sb[..|sb| - 1] == NatStr(b / 10);
      NatStrInjective(a / 10, b / 10);
    }
  }

  /** Python's ordering of strings: lexicographic by code point, a proper
      prefix first. */
  predicate LexLe(a: string, b: string)
    decreases |a|
  {
    |a| == 0 || (|b| > 0 && (a[0] < b[0] || (a[0] == b[0] && LexLe(a[1..], b[1..]))))
  }

  lemma {:induction false} LexLeTotal(a: string, b: string)
    ensures LexLe(a, b) || LexLe(b, a)
    decreases |a|
  {
    if |a| > 0 && |b| > 0 && a[0] == b[0] {
      LexLeTotal(a[1..], b[1..]);
    }
  }

  lemma {:induction false} LexLeAntisymmetric(a: string, b: string)
    requires LexLe(a, b) && LexLe(b, a)
    ensures a == b
    decreases |a|
  {
    if |a| > 0 {
      LexLeAntisymmetric(a[1..], b[1..]);
      assert a == [a[0]] + a[1..];
      assert b == [b[0]] + b[1..];
    }
  }

  lemma {:induction false} LexLeTransitive(a: string, b: string, c: string)
    requires LexLe(a, b) && LexLe(b, c)
    ensures LexLe(a, c)
    decreases |a|
  {
    if |a| > 0 && a[0] == b[0] && b[0] == c[0] {
      LexLeTransitive(a[1..], b[1..], c[1..]);
    }
  }

  /** Python's `s.split(sep)[0]`: everything before the first occurrence of
      the separator, or the whole string when it does not occur. */
  function BeforeFirst(s: string, sep: string): (r: string)
    requires |sep| > 0
    ensures IsPrefix(r, s)
    ensures !Contains(r, sep)
    ensures r == s <==> !Contains(s, sep)
    ensures r != s ==> IsPrefix(r + sep, s)
    decreases |s|
  {
    if |s| == 0 || IsPrefix(sep, s) then ""
    else
      var t := BeforeFirst(s[1..], sep);
      var r := [s[0]] + t;
      assert r[1..] == t;
      assert !IsPrefix(sep, r) by {
        assert IsPrefix(r, s);
      }
      assert t != s[1..] ==> (r + sep)[1..] == t + sep;
      r
  }

  /** An occurrence at any position makes the string contain sub. */
  lemma {:induction false} ContainsAt(s: string, q: nat, sub: string)
    requires q <= |s| && IsPrefix(sub, s[q..])
    ensures Contains(s, sub)
    decreases q
  {
    if q == 0 {
      assert s[q..] == s;
    } else {
      assert s[1..][q - 1..] == s[q..];
      ContainsAt(s[1..], q - 1, sub);
    }
  }

  /** When the first occurrence of sep starts at p, BeforeFirst keeps
      exactly the p characters before it. */
  lemma {:induction false} BeforeFirstAt(s: string, sep: string, p: nat)
    requires |sep| > 0 && p + |sep| <= |s| && s[p..p + |sep|] == sep
    requires forall q :: 0 <= q < p ==> !IsPrefix(sep, s[q..])
    ensures BeforeFirst(s, sep) == s[..p]
    decreases p
  {
    if p == 0 {
      assert IsPrefix(sep, s);
    } else {
      assert s[0..] == s;
      forall q | 0 <= q < p - 1 ensures !IsPrefix(sep, s[1..][q..]) {
        assert s[1..][q..] == s[q + 1..];
      }
      assert s[1..][p - 1..p - 1 + |sep|] == sep;
      BeforeFirstAt(s[1..], sep, p - 1);
      assert [s[0]] + s[1..][..p - 1] == s[..p];
    }
  }

  /** A match survives text appended after it. */
  lemma {:induction false} ContainsExtend(s: string, b: string, sub: string)
    requires Contains(s, sub)
    ensures Contains(s + b, sub)
    decreases |s|
  {
    if IsPrefix(sub, s) {
      assert (s + b)[..|sub|] == s[..|sub|];
    } else {
      assert (s + b)[1..] == s[1..] + b;
      ContainsExtend(s[1..], b, sub);
    }
  }

  /** A match survives text put in front of it. */
  lemma {:induction false} ContainsAfter(a: string, s: string, sub: string)
    requires Contains(s, sub)
    ensures Contains(a + s, sub)
    decreases |a|
  {
    if a == [] {
      assert a + s == s;
    } else {
      ContainsAfter(a[1..], s, sub);
      assert (a + s)[1..] == a[1..] + s;
    }
  }

  /** Python's `sep.join(parts)`: the parts in order, one separator between
      neighbours and none at either end. */
  function Join(parts: seq<string>, sep: string): (r: string)
    ensures |parts| == 0 ==> r == ""
    ensures |parts| > 0 ==> IsPrefix(parts[0], r)
    ensures |parts| > 1 ==> IsPrefix(parts[0] + sep, r)
  {
    if |parts| == 0 then ""
    else if |parts| == 1 then parts[0]
    else
      var r := parts[0] + sep + Join(parts[1..], sep);
      assert r[..|parts[0] + sep|] == parts[0] + sep;
      r
  }

  /** Every part can be found in the joined string. */
  lemma {:induction false} JoinContainsPart(parts: seq<string>, sep: string, i: nat)
    requires i < |parts|
    ensures Contains(Join(parts, sep), parts[i])
    decreases i
  {
    if i == 0 {
      ContainsAt(Join(parts, sep), 0, parts[0]);
    } else {
      JoinContainsPart(parts[1..], sep, i - 1);
      ContainsAfter(parts[0] + sep, Join(parts[1..], sep), parts[i]);
    }
  }
}
