/**
 * String primitives that the parsers and the reconciliation rules are built
 * from, stated for Python's `str` operations: `lower`, `title`, `split`,
 * `strip`, `in`, slicing, and the sender pattern `@([^.]+)`.
 * Case mapping covers the ASCII letters only.
 */
module Text {
  import opened Wrappers

  predicate IsUpper(c: char) { 'A' <= c <= 'Z' }
  predicate IsLower(c: char) { 'a' <= c <= 'z' }
  /** A character that has case; Python's `title` starts a word after any other character. */
  predicate IsCased(c: char) { IsUpper(c) || IsLower(c) }

  function LowerChar(c: char): char {
    if IsUpper(c) then (c as int + 32) as char else c
  }

  function UpperChar(c: char): char {
    if IsLower(c) then (c as int - 32) as char else c
  }

  /** Python's `s.lower()`: same length, no upper-case letter left, other characters kept. */
  function Lower(s: string): (r: string)
    ensures |r| == |s|
    ensures forall k :: 0 <= k < |r| ==> !IsUpper(r[k])
    ensures forall k :: 0 <= k < |r| ==> (IsCased(s[k]) <==> IsCased(r[k]))
    ensures forall k :: 0 <= k < |r| ==> !IsCased(s[k]) ==> r[k] == s[k]
  {
    seq(|s|, k requires 0 <= k < |s| => LowerChar(s[k]))
  }

  lemma LowerIdempotent(s: string)
    ensures Lower(Lower(s)) == Lower(s)
  {
  }

  /** Python's `s.title()`: a cased letter is upper-cased when the character before it is not cased and lower-cased otherwise. */
  function Title(s: string): string {
    TitleAfter(s, false)
  }

  function TitleAfter(s: string, prevCased: bool): (r: string)
    ensures |r| == |s|
  {
    if s == [] then []
    else
      var c := s[0];
      var d := if !IsCased(c) then c else if prevCased then LowerChar(c) else UpperChar(c);
      [d] + TitleAfter(s[1..], IsCased(c))
  }

  /** Character by character: upper-case after an uncased character or at the start, lower-case after a cased one. */
  lemma {:induction false} TitleAt(s: string, k: nat)
    requires k < |s|
    ensures |Title(s)| == |s|
    ensures Title(s)[k] == if k > 0 && IsCased(s[k - 1]) then LowerChar(s[k]) else UpperChar(s[k])
  {
    TitleAfterAt(s, false, k);
  }

  lemma {:induction false} TitleAfterAt(s: string, prevCased: bool, k: nat)
    requires k < |s|
    ensures TitleAfter(s, prevCased)[k] ==
      if (if k == 0 then prevCased else IsCased(s[k - 1])) then LowerChar(s[k]) else UpperChar(s[k])
    decreases k
  {
    var c, t := s[0], s[1..];
    if k > 0 {
      TitleAfterAt(t, IsCased(c), k - 1);
      assert t[k - 1] == s[k];
      assert k - 1 > 0 ==> t[k - 2] == s[k - 1];
    }
  }

  /** Title-casing changes case only: lower-casing the result gives the lower-cased input. */
  lemma TitleLower(s: string)
    ensures Lower(Title(s)) == Lower(s)
  {
    var t := Title(s);
    forall k | 0 <= k < |s| ensures Lower(t)[k] == Lower(s)[k] {
      TitleAt(s, k);
    }
  }

  lemma {:induction false} TitleWordStart(s: string)
    requires s != [] && IsCased(s[0])
    ensures |Title(s)| == |s| && IsUpper(Title(s)[0])
  {
  }

  /** The white-space characters of Python's `str.split()` and `str.strip()`. */
  predicate IsSpace(c: char) {
    || c == ' ' || c == '\t' || c == '\n' || c == '\r' || c == '\U{B}' || c == '\U{C}'
    || ('\U{1C}' <= c <= '\U{1F}') || c == '\U{85}' || c == '\U{A0}' || c == '\U{1680}'
    || ('\U{2000}' <= c <= '\U{200A}') || c == '\U{2028}' || c == '\U{2029}'
    || c == '\U{202F}' || c == '\U{205F}' || c == '\U{3000}'
  }

  predicate NoSpace(w: string) {
    forall k :: 0 <= k < |w| ==> !IsSpace(w[k])
  }

  /** Number of white-space characters at the start of `s`. */
  function LeadingSpace(s: string): (n: nat)
    ensures n <= |s|
    ensures forall k :: 0 <= k < n ==> IsSpace(s[k])
    ensures n < |s| ==> !IsSpace(s[n])
  {
    if s == [] || !IsSpace(s[0]) then 0 else 1 + LeadingSpace(s[1..])
  }

  /** Number of white-space characters at the end of `s`. */
  function TrailingSpace(s: string): (n: nat)
    ensures n <= |s|
    ensures forall k :: |s| - n <= k < |s| ==> IsSpace(s[k])
    ensures n < |s| ==> !IsSpace(s[|s| - 1 - n])
  {
    if s == [] || !IsSpace(s[|s| - 1]) then 0 else 1 + TrailingSpace(s[..|s| - 1])
  }

  /** Python's `s.strip()`. */
  function Strip(s: string): (r: string)
    ensures |r| <= |s|
    ensures r != [] ==> !IsSpace(r[0]) && !IsSpace(r[|r| - 1])
    ensures r == [] <==> forall k :: 0 <= k < |s| ==> IsSpace(s[k])
  {
    var a := LeadingSpace(s);
    var t := s[a..];
    var r := t[..|t| - TrailingSpace(t)];
    assert t != [] ==> r != [];
    assert r == [] && t != [] ==> false;
    r
  }

  /** `strip()` keeps one contiguous slice of its input and drops only white space on either side of it. */
  lemma StripIsSlice(s: string)
    ensures exists i, j ::
      && 0 <= i <= j <= |s| && Strip(s) == s[i..j]
      && (forall k :: 0 <= k < i ==> IsSpace(s[k]))
      && (forall k :: j <= k < |s| ==> IsSpace(s[k]))
  {
    var a := LeadingSpace(s);
    var t := s[a..];
    var b := |s| - TrailingSpace(t);
    assert Strip(s) == s[a..b];
    forall k | b <= k < |s| ensures IsSpace(s[k]) {
      assert s[k] == t[k - a];
    }
  }

  /** Length of the run of non-space characters at the start of `s`. */
  function WordLength(s: string): (n: nat)
    ensures n <= |s|
    ensures forall k :: 0 <= k < n ==> !IsSpace(s[k])
    ensures n < |s| ==> IsSpace(s[n])
  {
    if s == [] || IsSpace(s[0]) then 0 else 1 + WordLength(s[1..])
  }

  /** Python's `s.split()`: the maximal runs of non-space characters, in order. */
  function Words(s: string): (ws: seq<string>)
    ensures forall i :: 0 <= i < |ws| ==> ws[i] != [] && NoSpace(ws[i])
    decreases |s|
  {
    var t := s[LeadingSpace(s)..];
    if t == [] then []
    else
      var n := WordLength(t);
      [t[..n]] + Words(t[n..])
  }

  /** `set(a.split()) & set(b.split())` is non-empty. */
  predicate SharesWord(a: string, b: string) {
    CommonWord(Words(a), Words(b))
  }

  /** Some word of `ws` is also in `vs`. */
  predicate CommonWord(ws: seq<string>, vs: seq<string>)
    decreases |ws|
  {
    ws != [] && (ws[0] in vs || CommonWord(ws[1..], vs))
  }

  lemma {:induction false} CommonWordIsIntersection(ws: seq<string>, vs: seq<string>)
    ensures CommonWord(ws, vs) <==> exists w :: w in ws && w in vs
  {
    if ws != [] {
      CommonWordIsIntersection(ws[1..], vs);
      assert forall w :: w in ws <==> w == ws[0] || w in ws[1..];
    }
  }

  predicate IsPrefix(p: string, s: string) {
    |p| <= |s| && s[..|p|] == p
  }

  /** Python's `sub in s`. */
  predicate Contains(s: string, sub: string)
    decreases |s|
  {
    IsPrefix(sub, s) || (s != [] && Contains(s[1..], sub))
  }

  lemma {:induction false} ContainsAt(s: string, sub: string, i: nat)
    requires i + |sub| <= |s| && s[i..i + |sub|] == sub
    ensures Contains(s, sub)
  {
    if i > 0 {
      assert s[1..][i - 1..i - 1 + |sub|] == sub;
      ContainsAt(s[1..], sub, i - 1);
    }
  }

  lemma {:induction false} ContainsBound(s: string, sub: string)
    requires Contains(s, sub)
    ensures |sub| <= |s|
  {
    if !IsPrefix(sub, s) { ContainsBound(s[1..], sub); }
  }

  /** `any(w in content for w in words)`. */
  predicate AnyIn(words: seq<string>, content: string) {
    exists i :: 0 <= i < |words| && Contains(content, words[i])
  }

  /** Python's `s[:n]`. */
  function Prefix(s: string, n: nat): (r: string)
    ensures |r| <= n && IsPrefix(r, s)
    ensures |s| <= n ==> r == s
    ensures |s| > n ==> |r| == n
  {
    if |s| <= n then s else s[..n]
  }

  /** Python's `s.split(c)[0]`: the text before the first `c`, or all of `s`. */
  function BeforeFirst(s: string, c: char): (r: string)
    ensures IsPrefix(r, s)
    ensures c !in r
    ensures |r| < |s| ==> s[|r|] == c
  {
    if s == [] || s[0] == c then [] else [s[0]] + BeforeFirst(s[1..], c)
  }

  /**
   * `re.search(r'@([^.]+)', s).group(1)`: the run of characters other than
   * '.' that follows the first '@' which is followed by such a character.
   */
  function AtRun(s: string): (r: Option<string>)
    ensures r.Some? <==> exists i :: 0 <= i < |s| - 1 && s[i] == '@' && s[i + 1] != '.'
    ensures r.Some? ==> r.value != [] && '.' !in r.value
    decreases |s|
  {
    if |s| < 2 then None
    else if s[0] == '@' && s[1] != '.' then Some(BeforeFirst(s[1..], '.'))
    else
      var r := AtRun(s[1..]);
      assert r.Some? ==> exists i :: 0 <= i < |s| - 1 && s[i] == '@' && s[i + 1] != '.' by {
        if r.Some? {
          var i :| 0 <= i < |s[1..]| - 1 && s[1..][i] == '@' && s[1..][i + 1] != '.';
          assert s[i + 1] == '@' && s[i + 2] != '.';
        }
      }
      assert (exists i :: 0 <= i < |s| - 1 && s[i] == '@' && s[i + 1] != '.') ==> r.Some? by {
        if exists i :: 0 <= i < |s| - 1 && s[i] == '@' && s[i + 1] != '.' {
          var i :| 0 <= i < |s| - 1 && s[i] == '@' && s[i + 1] != '.';
          assert i > 0;
          assert s[1..][i - 1] == '@' && s[1..][i] != '.';
        }
      }
      r
  }

  lemma {:induction false} AtRunFollowsAt(s: string, i: nat)
    requires i < |s| - 1 && s[i] == '@' && s[i + 1] != '.'
    requires forall j :: 0 <= j < i ==> s[j] != '@' || s[j + 1] == '.'
    ensures AtRun(s) == Some(BeforeFirst(s[i + 1..], '.'))
  {
    if i > 0 {
      AtRunFollowsAt(s[1..], i - 1);
      assert s[1..][i..] == s[i + 1..];
    }
  }
}
