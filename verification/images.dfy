/** The pure helpers of the image fetcher (image_fetcher.py): the file-name
    sanitiser, the removal of bracketed suffixes from a station name before
    an image search, and the test that a search hit is about the station.
    The searches and downloads themselves are not modelled. */
module Images {
  import opened Seqs
  import opened Text

  /** The characters `[\\/:*?"<>|]` that cannot appear in a file name. */
  predicate Forbidden(c: char) {
    c == '\\' || c == '/' || c == ':' || c == '*' || c == '?' || c == '"' || c == '<' || c == '>' || c == '|'
  }

  /** One character as the sanitiser leaves it. */
  function Fix(c: char): (d: char)
    ensures !Forbidden(d)
    ensures Forbidden(c) <==> d != c
  {
    if Forbidden(c) then '_' else c
  }

  /** Every forbidden character replaced by `_`, position by position. */
  function ReplaceForbidden(s: string): (r: string)
    ensures |r| == |s|
    ensures forall i :: 0 <= i < |s| ==> r[i] == Fix(s[i])
  {
    if |s| == 0 then "" else [Fix(s[0])] + ReplaceForbidden(s[1..])
  }

  /** `_sanitize_filename` (image_fetcher.py:37-40; the same helper is
      repeated in the two mode scripts): forbidden characters become `_`,
      then surrounding white space is trimmed. The result has no forbidden
      character; it is a contiguous piece of the replaced string, so every
      kept character sits at its input offset, and only white space is cut
      on either side. */
  function Sanitize(s: string): (r: string)
    ensures forall i :: 0 <= i < |r| ==> !Forbidden(r[i])
    ensures exists lo :: TrimmedAt(ReplaceForbidden(s), r, lo)
    ensures |r| > 0 ==> !IsSpace(r[0]) && !IsSpace(r[|r| - 1])
  {
    var t := ReplaceForbidden(s);
    PieceKeepsNoForbidden(t, Strip(t));
    Strip(t)
  }

  lemma PieceKeepsNoForbidden(t: string, r: string)
    requires forall i :: 0 <= i < |t| ==> !Forbidden(t[i])
    requires exists lo :: TrimmedAt(t, r, lo)
    ensures forall i :: 0 <= i < |r| ==> !Forbidden(r[i])
  {
    var lo :| TrimmedAt(t, r, lo);
    forall i | 0 <= i < |r| ensures !Forbidden(r[i]) {
      assert r[i] == t[lo + i];
    }
  }

  /** Sanitising twice is sanitising once. */
  lemma SanitizeIdempotent(s: string)
    ensures Sanitize(Sanitize(s)) == Sanitize(s)
  {
    var r := Sanitize(s);
    assert forall i :: 0 <= i < |r| ==> ReplaceForbidden(r)[i] == r[i];
    assert ReplaceForbidden(r) == r;
    StripNoop(r);
  }

  /** The opening and closing brackets of the suffix pattern
      `[\(（〈\[【].+?[\)）〉\]】]`; any opener pairs with any closer. */
  predicate Opener(c: char) {
    c == '(' || c == '（' || c == '〈' || c == '[' || c == '【'
  }

  predicate Closer(c: char) {
    c == ')' || c == '）' || c == '〉' || c == ']' || c == '】'
  }

  /** No newline among s[a..b] (the part of it inside s): Python's `.`
      matches anything but a newline. */
  predicate NoNewline(s: string, a: int, b: int) {
    forall k :: a <= k < b && 0 <= k < |s| ==> s[k] != '\n'
  }

  /** A bracketed segment opened at s[0] can close at s[c]: the closer
      comes after a non-empty body `.+?` of non-newline characters. */
  predicate ClosesAt(s: string, c: int) {
    2 <= c < |s| && NoNewline(s, 1, c) && Closer(s[c])
  }

  /** The non-greedy search for the closer, from index j on: the first
      index where the segment can close. */
  function CloserFrom(s: string, j: nat): (r: Option<nat>)
    requires 2 <= j && NoNewline(s, 1, j - 1)
    ensures r.Some? ==> j <= r.value && ClosesAt(s, r.value)
    ensures r.Some? ==> forall k :: j <= k < r.value ==> !ClosesAt(s, k)
    ensures r.None? ==> forall k :: j <= k ==> !ClosesAt(s, k)
    decreases |s| - j
  {
    if j >= |s| then None
    else if s[j - 1] == '\n' then None
    else if Closer(s[j]) then Some(j)
    else CloserFrom(s, j + 1)
  }

  /** `re.sub(r'[\(（〈\[【].+?[\)）〉\]】]', '', s)`: scanning left to
      right, an opener that starts a segment has the segment up to its
      first possible closer removed; every other character is kept. */
  function StripSegments(s: string): (r: string)
    ensures IsSubseq(r, s)
    ensures (forall i :: 0 <= i < |s| ==> !Opener(s[i])) ==> r == s
    ensures |s| > 0 && Opener(s[0]) && CloserFrom(s, 2).Some? ==> IsSubseq(r, s[CloserFrom(s, 2).value + 1..])
    ensures |s| > 0 && (!Opener(s[0]) || CloserFrom(s, 2).None?) ==> |r| > 0 && r[0] == s[0]
    decreases |s|
  {
    if |s| == 0 then ""
    else
      var c := if Opener(s[0]) then CloserFrom(s, 2) else None;
      if c.Some? then
        var rest := StripSegments(s[c.value + 1..]);
        SubseqDrop(rest, s, c.value + 1);
        rest
      else
        assert forall i :: 0 <= i < |s[1..]| ==> s[1..][i] == s[i + 1];
        var rest := StripSegments(s[1..]);
        assert ([s[0]] + rest)[1..] == rest;
        [s[0]] + rest
  }

  /** A subsequence of a suffix is a subsequence of the whole. */
  lemma {:induction false} SubseqDrop(a: string, s: string, n: nat)
    requires n <= |s| && IsSubseq(a, s[n..])
    ensures IsSubseq(a, s)
    decreases n
  {
    if n > 0 {
      assert s[1..][n - 1..] == s[n..];
      SubseqDrop(a, s[1..], n - 1);
      SubseqDropFront(a, s);
    }
  }

  /** The bracket-free name used for searching (image_fetcher.py:351-352):
      segments removed, then white space trimmed. */
  function CleanName(name: string): string {
    Strip(StripSegments(name))
  }

  /** `clean_name if clean_name else station_name` (image_fetcher.py:353):
      the search name is empty only for an empty station name. */
  function SearchName(name: string): (r: string)
    ensures r == "" <==> name == ""
    ensures CleanName(name) != "" ==> r == CleanName(name)
    ensures CleanName(name) == "" ==> r == name
  {
    if CleanName(name) != "" then CleanName(name)
    else name
  }

  lemma CleanEmpty()
    ensures CleanName("") == ""
  {
    var lo :| TrimmedAt(StripSegments(""), Strip(StripSegments("")), lo);
  }

  /** The two examples the source gives: a parenthesised region and an
      angle-bracketed line name are removed. */
  lemma {:induction false} RegionSuffixExample()
    ensures SearchName("赤坂(東京)") == "赤坂"
  {
    var a := "赤坂(東京)";
    RegionSegmentGone();
    StripPlain(a[1..]);
    assert a[1..][1..] == a[2..];
    assert StripSegments(a[1..]) == "坂";
    StripPlain(a);
    assert StripSegments(a) == "赤坂";
    StripNoop("赤坂");
  }

  lemma RegionSegmentGone()
    ensures StripSegments("赤坂(東京)"[2..]) == ""
  {
    var x := "赤坂(東京)"[2..];
    assert x == "(東京)";
    assert CloserFrom(x, 3) == Some(3);
    assert CloserFrom(x, 2) == Some(3);
    assert x[4..] == "";
  }

  lemma {:induction false} LineSuffixExample()
    ensures SearchName("二重橋前〈丸の内〉") == "二重橋前"
  {
    var b := "二重橋前〈丸の内〉";
    LineSegmentGone();
    StripPlain(b[3..]);
    assert b[3..][1..] == b[4..];
    assert StripSegments(b[3..]) == "前";
    StripPlain(b[2..]);
    assert b[2..][1..] == b[3..];
    assert StripSegments(b[2..]) == "橋前";
    StripPlain(b[1..]);
    assert b[1..][1..] == b[2..];
    assert StripSegments(b[1..]) == "重橋前";
    StripPlain(b);
    assert StripSegments(b) == "二重橋前";
    StripNoop("二重橋前");
  }

  lemma LineSegmentGone()
    ensures StripSegments("二重橋前〈丸の内〉"[4..]) == ""
  {
    var x := "二重橋前〈丸の内〉"[4..];
    assert x == "〈丸の内〉";
    assert CloserFrom(x, 4) == Some(4);
    assert CloserFrom(x, 3) == Some(4);
    assert CloserFrom(x, 2) == Some(4);
    assert x[5..] == "";
  }

  /** A character that opens no segment is kept. */
  lemma StripPlain(s: string)
    requires |s| > 0 && !Opener(s[0])
    ensures StripSegments(s) == [s[0]] + StripSegments(s[1..])
  {
  }

  /** A prefix with no opener is kept as it is. */
  lemma {:induction false} KeepPlain(x: string, y: string)
    requires forall i :: 0 <= i < |x| ==> !Opener(x[i])
    ensures StripSegments(x + y) == x + StripSegments(y)
    decreases |x|
  {
    if |x| > 0 {
      var s := x + y;
      var t := x[1..];
      assert s[0] == x[0] && s[1..] == t + y;
      StripPlain(s);
      KeepPlain(t, y);
      assert x == [x[0]] + t;
      ConcatAssoc([x[0]], t, StripSegments(y));
    } else {
      assert x + y == y && x + StripSegments(y) == StripSegments(y);
    }
  }

  /** A segment is removed whole: an opener, a non-empty body without a
      newline whose characters after the first are no closers, and a
      closer. What follows is stripped on its own. */
  lemma DropSegment(o: char, body: string, c: char, y: string)
    requires Opener(o) && Closer(c) && |body| > 0
    requires forall k :: 0 <= k < |body| ==> body[k] != '\n'
    requires forall k :: 1 <= k < |body| ==> !Closer(body[k])
    ensures StripSegments([o] + body + [c] + y) == StripSegments(y)
  {
    var s := [o] + body + [c] + y;
    var e := |body| + 1;
    assert s[e] == c && s[e + 1..] == y;
    CloserAt(s, 2, e);
    assert CloserFrom(s, 2) == Some(e);
  }

  /** The search from j finds the closer at e when nothing before it can
      close and no newline comes first. */
  lemma {:induction false} CloserAt(s: string, j: nat, e: nat)
    requires 2 <= j <= e < |s| && Closer(s[e])
    requires forall k :: 1 <= k < e ==> s[k] != '\n'
    requires forall k :: j <= k < e ==> !Closer(s[k])
    ensures NoNewline(s, 1, j - 1) && CloserFrom(s, j) == Some(e)
    decreases e - j
  {
    if j < e {
      CloserAt(s, j + 1, e);
    }
  }

  /** An opener that no closer answers is kept. */
  lemma KeepUnclosed(s: string)
    requires |s| > 0 && Opener(s[0]) && CloserFrom(s, 2).None?
    ensures StripSegments(s) == [s[0]] + StripSegments(s[1..])
  {
  }

  /** The fields of a search hit that are searched for the name; a missing
      field is empty. */
  datatype SearchHit = SearchHit(title: string, snippet: string, contextLink: string)

  function HitText(hit: SearchHit): string {
    hit.title + " " + hit.snippet + " " + hit.contextLink
  }

  /** The names looked for: the name, its cleaned form, and both with
      駅 appended. */
  function NamesToCheck(name: string): seq<string> {
    [name, CleanName(name), name + "駅", CleanName(name) + "駅"]
  }

  /** Some non-empty name to check occurs in the text. */
  predicate AnyFound(text: string, name: string) {
    exists n :: n in NamesToCheck(name) && n != "" && Contains(text, n)
  }

  /** The names with 駅 appended add nothing beyond the plain ones except
      when a name is empty, where they look for 駅 itself. */
  lemma FoundReduced(text: string, name: string)
    ensures AnyFound(text, name) <==>
      || (name != "" && Contains(text, name))
      || (CleanName(name) != "" && Contains(text, CleanName(name)))
      || (CleanName(name) == "" && Contains(text, "駅"))
  {
    AnyFoundFour(text, name);
    if name == "" {
      CleanEmpty();
    }
    FoundLogic(text, name, CleanName(name));
  }

  /** The reasoning behind FoundReduced, for any cleaned form that is
      empty when the name is: a name followed by 駅 occurs only where the
      name occurs, and an empty name followed by 駅 is just 駅. */
  lemma FoundLogic(text: string, name: string, clean: string)
    requires name == "" ==> clean == ""
    ensures
      (|| (name != "" && Contains(text, name))
       || (clean != "" && Contains(text, clean))
       || (name + "駅" != "" && Contains(text, name + "駅"))
       || (clean + "駅" != "" && Contains(text, clean + "駅")))
      <==>
      (|| (name != "" && Contains(text, name))
       || (clean != "" && Contains(text, clean))
       || (clean == "" && Contains(text, "駅")))
  {
    if Contains(text, name + "駅") {
      ContainsPrefixOf(text, name, "駅");
    }
    if Contains(text, clean + "駅") {
      ContainsPrefixOf(text, clean, "駅");
    }
    if name == "" {
      assert name + "駅" == "駅";
    }
    if clean == "" {
      assert clean + "駅" == "駅";
    }
  }

  /** The four names to check, one by one. */
  lemma AnyFoundFour(text: string, name: string)
    ensures var clean := CleanName(name);
      AnyFound(text, name) <==>
      || (name != "" && Contains(text, name))
      || (clean != "" && Contains(text, clean))
      || (name + "駅" != "" && Contains(text, name + "駅"))
      || (clean + "駅" != "" && Contains(text, clean + "駅"))
  {
    var ns := NamesToCheck(name);
    assert ns[0] == name && ns[1] == CleanName(name) && ns[2] == name + "駅" && ns[3] == CleanName(name) + "駅";
  }

  /** `_is_relevant_result` (image_fetcher.py:239-257): the station is
      mentioned when its name or its cleaned name occurs in the hit's
      text; a name that is all brackets cleans to nothing and is then
      accepted by any hit that mentions 駅. */
  function IsRelevant(hit: SearchHit, name: string): (r: bool)
    ensures r <==>
      || (name != "" && Contains(HitText(hit), name))
      || (CleanName(name) != "" && Contains(HitText(hit), CleanName(name)))
      || (CleanName(name) == "" && Contains(HitText(hit), "駅"))
  {
    FoundReduced(HitText(hit), name);
    AnyFound(HitText(hit), name)
  }
}
