/**
 * The few Python string operations the memory pipeline relies on:
 * `k in s` (substring test), `s.strip(chars)`, `s.split()` with no
 * argument, and `sep.join(parts)`. Strings are sequences of Unicode
 * code points, as Python's `str` is.
 */
module Text {

  /** Python's `str.isspace()`: the separators of `str.split()` with no argument. */
  predicate IsSpace(c: char) {
    || c == ' '
    || ('\t' <= c <= '\r')
    || ('\U{1c}' <= c <= '\U{1f}')
    || c == '\U{85}' || c == '\U{a0}' || c == '\U{1680}'
    || ('\U{2000}' <= c <= '\U{200a}')
    || c == '\U{2028}' || c == '\U{2029}' || c == '\U{202f}' || c == '\U{205f}'
    || c == '\U{3000}'
  }

  predicate NoSpace(w: string) {
    forall k :: 0 <= k < |w| ==> !IsSpace(w[k])
  }

  // ---------------------------------------------------------------------
  // Substring test: Python's `k in s` on two strings.

  /** `k in s`: k occurs in s, tried at offset 0, then at the later offsets. */
  predicate IsSubstring(k: string, s: string)
    ensures IsSubstring(k, s) ==> |k| <= |s|
    ensures k == [] ==> IsSubstring(k, s)
    decreases |s|
  {
    k <= s || (|s| > 0 && IsSubstring(k, s[1..]))
  }

  /** The reference definition: k sits in s at offset i. */
  ghost predicate OccursAt(k: string, s: string, i: int) {
    0 <= i && i + |k| <= |s| && s[i..i + |k|] == k
  }

  /** The recursive test finds every occurrence the positional definition admits. */
  lemma {:induction false} OccursIsSubstring(k: string, s: string, i: int)
    requires OccursAt(k, s, i)
    ensures IsSubstring(k, s)
    decreases i
  {
    if i == 0 {
      assert s[..|k|] == k;
    } else {
      assert s[1..][i - 1..i - 1 + |k|] == s[i..i + |k|];
      OccursIsSubstring(k, s[1..], i - 1);
    }
  }

  /** The recursive test and the positional definition agree, both ways. */
  lemma {:induction false} SubstringIffOccurs(k: string, s: string)
    ensures IsSubstring(k, s) <==> exists i :: OccursAt(k, s, i)
    decreases |s|
  {
    if exists i :: OccursAt(k, s, i) {
      var i :| OccursAt(k, s, i);
      OccursIsSubstring(k, s, i);
    }
    if IsSubstring(k, s) {
      if k <= s {
        assert OccursAt(k, s, 0);
      } else {
        SubstringIffOccurs(k, s[1..]);
        var i :| OccursAt(k, s[1..], i);
        assert s[1..][i..i + |k|] == s[i + 1..i + 1 + |k|];
        assert OccursAt(k, s, i + 1);
      }
    }
  }

  /** A substring's first character occurs in the string. */
  lemma SubstringHead(k: string, s: string)
    requires IsSubstring(k, s) && |k| > 0
    ensures k[0] in s
  {
    SubstringIffOccurs(k, s);
    var i :| OccursAt(k, s, i);
    assert s[i] == s[i..i + |k|][0];
  }

  /** A substring of either half is a substring of the concatenation. */
  lemma SubstringOfConcat(k: string, a: string, b: string)
    requires IsSubstring(k, a) || IsSubstring(k, b)
    ensures IsSubstring(k, a + b)
  {
    SubstringIffOccurs(k, a);
    SubstringIffOccurs(k, b);
    if IsSubstring(k, a) {
      var i :| OccursAt(k, a, i);
      assert (a + b)[i..i + |k|] == a[i..i + |k|];
      OccursIsSubstring(k, a + b, i);
    } else {
      var i :| OccursAt(k, b, i);
      assert (a + b)[|a| + i..|a| + i + |k|] == b[i..i + |k|];
      OccursIsSubstring(k, a + b, |a| + i);
    }
  }

  /** A substring of a substring is a substring. */
  lemma SubstringTransitive(a: string, b: string, c: string)
    requires IsSubstring(a, b) && IsSubstring(b, c)
    ensures IsSubstring(a, c)
  {
    SubstringIffOccurs(a, b);
    SubstringIffOccurs(b, c);
    var i :| OccursAt(a, b, i);
    var j :| OccursAt(b, c, j);
    forall m | 0 <= m < |a| ensures c[j + i + m] == a[m] {
      assert b[i..i + |a|][m] == a[m];
      assert c[j..j + |b|][i + m] == b[i + m];
    }
    assert c[j + i..j + i + |a|] == a;
    OccursIsSubstring(a, c, j + i);
  }

  // ---------------------------------------------------------------------
  // Python's `s.strip(chars)`: removes characters of `chars` from both ends.

  /** Length of the leading run of characters in chars. */
  function LeadRun(s: string, chars: set<char>): (n: nat)
    ensures n <= |s|
    ensures forall k :: 0 <= k < n ==> s[k] in chars
    ensures n < |s| ==> s[n] !in chars
  {
    if |s| > 0 && s[0] in chars then 1 + LeadRun(s[1..], chars) else 0
  }

  function StripRight(s: string, chars: set<char>): (r: string)
    ensures |r| <= |s| && r == s[..|r|]
    ensures forall k :: |r| <= k < |s| ==> s[k] in chars
    ensures r != [] ==> r[|r| - 1] !in chars
  {
    if |s| > 0 && s[|s| - 1] in chars then StripRight(s[..|s| - 1], chars) else s
  }

  /** r is s[i..i+|r|], and everything cut off on either side is in chars. */
  ghost predicate StrippedAt(s: string, r: string, chars: set<char>, i: int) {
    && 0 <= i && i + |r| <= |s|
    && s[i..i + |r|] == r
    && (forall k :: 0 <= k < i ==> s[k] in chars)
    && (forall k :: i + |r| <= k < |s| ==> s[k] in chars)
  }

  /**
   * s without its leading and trailing runs of chars: the text starting
   * where the leading run ends, with ends that are not in chars.
   */
  function Strip(s: string, chars: set<char>): (r: string)
    ensures StrippedAt(s, r, chars, LeadRun(s, chars))
    ensures r != [] ==> r[0] !in chars && r[|r| - 1] !in chars
  {
    var i := LeadRun(s, chars);
    var r := StripRight(s[i..], chars);
    StrippedInTwoSteps(s, i, r, chars);
    r
  }

  /**
   * Cutting a prefix of chars off s, then a suffix of chars off the rest,
   * strips s at the prefix's length and leaves ends that are not in chars.
   */
  lemma StrippedInTwoSteps(s: string, i: nat, r: string, chars: set<char>)
    requires i <= |s|
    requires forall k :: 0 <= k < i ==> s[k] in chars
    requires i < |s| ==> s[i] !in chars
    requires |r| <= |s| - i && r == s[i..][..|r|]
    requires forall k :: |r| <= k < |s| - i ==> s[i..][k] in chars
    requires r != [] ==> r[|r| - 1] !in chars
    ensures StrippedAt(s, r, chars, i)
    ensures r != [] ==> r[0] !in chars && r[|r| - 1] !in chars
  {
    var l := s[i..];
    assert s[i..i + |r|] == l[..|r|];
    forall k | i + |r| <= k < |s| ensures s[k] in chars {
      assert s[k] == l[k - i];
    }
    assert r != [] ==> r[0] == s[i];
  }

  /** A string whose two ends are not in chars is left as it is. */
  lemma StripKeeps(s: string, chars: set<char>)
    requires s == [] || (s[0] !in chars && s[|s| - 1] !in chars)
    ensures Strip(s, chars) == s
  {
    assert LeadRun(s, chars) == 0 && s[0..] == s;
    assert StripRight(s, chars) == s;
  }

  /** Stripping twice is stripping once. */
  lemma StripIdempotent(s: string, chars: set<char>)
    ensures Strip(Strip(s, chars), chars) == Strip(s, chars)
  {
    StripKeeps(Strip(s, chars), chars);
  }

  /** The leading run of chars in pre + s is exactly pre when s does not start with one. */
  lemma LeadRunPrefix(pre: string, s: string, chars: set<char>)
    requires forall k :: 0 <= k < |pre| ==> pre[k] in chars
    requires s != [] && s[0] !in chars
    ensures LeadRun(pre + s, chars) == |pre|
  {
    assert forall k :: 0 <= k < |pre| ==> (pre + s)[k] == pre[k];
    assert (pre + s)[|pre|] == s[0];
  }

  lemma {:induction false} StripRightSuffix(s: string, post: string, chars: set<char>)
    requires forall k :: 0 <= k < |post| ==> post[k] in chars
    requires s != [] && s[|s| - 1] !in chars
    ensures StripRight(s + post, chars) == s
    decreases |post|
  {
    if post == [] {
      assert s + post == s;
    } else {
      assert (s + post)[..|s + post| - 1] == s + post[..|post| - 1];
      StripRightSuffix(s, post[..|post| - 1], chars);
    }
  }

  /** Strip removes exactly the runs of chars around a text whose ends are not in chars. */
  lemma StripSurrounded(pre: string, s: string, post: string, chars: set<char>)
    requires forall k :: 0 <= k < |pre| ==> pre[k] in chars
    requires forall k :: 0 <= k < |post| ==> post[k] in chars
    requires s != [] && s[0] !in chars && s[|s| - 1] !in chars
    ensures Strip(pre + s + post, chars) == s
  {
    assert (s + post)[0] == s[0];
    assert pre + s + post == pre + (s + post);
    LeadRunPrefix(pre, s + post, chars);
    assert (pre + s + post)[|pre|..] == s + post;
    StripRightSuffix(s, post, chars);
  }

  // ---------------------------------------------------------------------
  // Python's `s.split()` with no argument: the maximal runs of non-space
  // characters, in order.

  /** Length of the leading run of white space. */
  function SpaceRun(s: string): (n: nat)
    ensures n <= |s|
    ensures forall k :: 0 <= k < n ==> IsSpace(s[k])
    ensures n < |s| ==> !IsSpace(s[n])
  {
    if |s| > 0 && IsSpace(s[0]) then 1 + SpaceRun(s[1..]) else 0
  }

  /** Length of the leading run of non-space characters. */
  function WordRun(s: string): (n: nat)
    ensures n <= |s|
    ensures forall k :: 0 <= k < n ==> !IsSpace(s[k])
    ensures n < |s| ==> IsSpace(s[n])
  {
    if |s| > 0 && !IsSpace(s[0]) then 1 + WordRun(s[1..]) else 0
  }

  /** The characters of s that are not white space, in order. */
  function RemoveSpaces(s: string): string {
    if s == [] then []
    else (if IsSpace(s[0]) then [] else [s[0]]) + RemoveSpaces(s[1..])
  }

  function Concat(parts: seq<string>): string {
    if parts == [] then [] else parts[0] + Concat(parts[1..])
  }

  lemma {:induction false} RemoveSpacesAppend(a: string, b: string)
    ensures RemoveSpaces(a + b) == RemoveSpaces(a) + RemoveSpaces(b)
    decreases |a|
  {
    if a != [] {
      assert (a + b)[1..] == a[1..] + b;
      RemoveSpacesAppend(a[1..], b);
    } else {
      assert a + b == b;
    }
  }

  lemma {:induction false} RemoveSpacesOfSpaces(s: string)
    requires forall k :: 0 <= k < |s| ==> IsSpace(s[k])
    ensures RemoveSpaces(s) == []
    decreases |s|
  {
    if s != [] {
      RemoveSpacesOfSpaces(s[1..]);
    }
  }

  lemma {:induction false} RemoveSpacesOfWord(s: string)
    requires NoSpace(s)
    ensures RemoveSpaces(s) == s
    decreases |s|
  {
    if s != [] {
      RemoveSpacesOfWord(s[1..]);
    }
  }

  /** The white-space-delimited tokens of s, in order; each is non-empty and free of white space. */
  function Split(s: string): (r: seq<string>)
    ensures forall k :: 0 <= k < |r| ==> r[k] != [] && NoSpace(r[k])
    decreases |s|
  {
    var i := SpaceRun(s);
    if i == |s| then []
    else
      var n := WordRun(s[i..]);
      FirstTokenShape(s, i, n);
      [s[i..i + n]] + Split(s[i + n..])
  }

  /** The run after the leading white space is a non-empty token without white space. */
  lemma FirstTokenShape(s: string, i: nat, n: nat)
    requires i < |s| && !IsSpace(s[i])
    requires n <= |s[i..]| && forall k :: 0 <= k < n ==> !IsSpace(s[i..][k])
    requires n < |s[i..]| ==> IsSpace(s[i..][n])
    ensures i + n <= |s| && s[i..i + n] != [] && NoSpace(s[i..i + n])
  {
    assert s[i..][0] == s[i];
    assert s[i..i + n] == s[i..][..n];
  }

  /** Together the tokens are exactly the non-space characters of s, in order. */
  lemma {:induction false} SplitKeepsText(s: string)
    ensures Concat(Split(s)) == RemoveSpaces(s)
    decreases |s|
  {
    var i := SpaceRun(s);
    if i == |s| {
      RemoveSpacesOfSpaces(s);
    } else {
      var n := WordRun(s[i..]);
      var rest := s[i + n..];
      SplitFirstToken(s, i, n);
      SplitKeepsText(rest);
      RemoveSpacesAroundWord(s, i, n);
    }
  }

  /** Split takes the first token off after the leading white space. */
  lemma {:induction false} SplitFirstToken(s: string, i: nat, n: nat)
    requires i == SpaceRun(s) < |s| && n == WordRun(s[i..])
    ensures i + n <= |s|
    ensures Concat(Split(s)) == s[i..i + n] + Concat(Split(s[i + n..]))
  {
    var token, rest := s[i..i + n], s[i + n..];
    assert Split(s) == [token] + Split(rest);
    ConcatCons(token, Split(rest));
  }

  lemma ConcatCons(p: string, ps: seq<string>)
    ensures Concat([p] + ps) == p + Concat(ps)
  {
    assert ([p] + ps)[1..] == ps;
  }

  /** Removing white space from spaces, a word and a rest leaves the word and the rest's text. */
  lemma {:induction false} RemoveSpacesAroundWord(s: string, i: nat, n: nat)
    requires i + n <= |s|
    requires forall k :: 0 <= k < i ==> IsSpace(s[k])
    requires forall k :: i <= k < i + n ==> !IsSpace(s[k])
    ensures RemoveSpaces(s) == s[i..i + n] + RemoveSpaces(s[i + n..])
  {
    var rest := s[i + n..];
    assert s == s[..i] + s[i..i + n] + rest;
    RemoveSpacesAppend(s[..i] + s[i..i + n], rest);
    RemoveSpacesAppend(s[..i], s[i..i + n]);
    RemoveSpacesOfSpaces(s[..i]);
    RemoveSpacesOfWord(s[i..i + n]);
  }

  /** A non-empty string without white space is a single token. */
  lemma SplitWord(s: string)
    requires s != [] && NoSpace(s)
    ensures Split(s) == [s]
  {
    assert SpaceRun(s) == 0;
    assert s[0..] == s;
    assert WordRun(s) == |s|;
    assert s[0..|s|] == s;
    assert s[|s|..] == [];
    assert Split(s[|s|..]) == [];
  }

  /** Every character of a token is a character of the split string. */
  lemma TokenCharsInString(s: string, t: string, c: char)
    requires t in Split(s) && c in t
    ensures c in s
  {
    var r := Split(s);
    var j :| 0 <= j < |r| && r[j] == t;
    SplitKeepsText(s);
    ConcatHasPart(r, j, c);
    RemoveSpacesSubset(s, c);
  }

  lemma {:induction false} ConcatHasPart(parts: seq<string>, j: int, c: char)
    requires 0 <= j < |parts| && c in parts[j]
    ensures c in Concat(parts)
    decreases |parts|
  {
    if j > 0 {
      ConcatHasPart(parts[1..], j - 1, c);
    }
  }

  lemma {:induction false} RemoveSpacesSubset(s: string, c: char)
    requires c in RemoveSpaces(s)
    ensures c in s
    decreases |s|
  {
    if s != [] && c !in (if IsSpace(s[0]) then [] else [s[0]]) {
      RemoveSpacesSubset(s[1..], c);
    }
  }

  // ---------------------------------------------------------------------
  // Python's `sep.join(parts)`.

  /** The summed length of the parts. */
  function TotalLength(parts: seq<string>): nat {
    if parts == [] then 0 else |parts[0]| + TotalLength(parts[1..])
  }

  /**
   * `sep.join(parts)`: the parts with one separator between neighbours,
   * so the first part opens it and its length is the parts' plus one
   * separator per gap.
   */
  function Join(sep: string, parts: seq<string>): (r: string)
    ensures parts == [] ==> r == []
    ensures parts != [] ==> parts[0] <= r && |r| == TotalLength(parts) + |sep| * (|parts| - 1)
  {
    if |parts| == 0 then ""
    else if |parts| == 1 then parts[0]
    else parts[0] + sep + Join(sep, parts[1..])
  }

  /** Every part appears, as a substring, in the joined text. */
  lemma {:induction false} JoinContainsParts(sep: string, parts: seq<string>, j: int)
    requires 0 <= j < |parts|
    ensures IsSubstring(parts[j], Join(sep, parts))
    decreases |parts|
  {
    if |parts| == 1 {
      OccursIsSubstring(parts[0], parts[0], 0);
    } else if j == 0 {
      OccursIsSubstring(parts[0], parts[0], 0);
      SubstringOfConcat(parts[0], parts[0], sep + Join(sep, parts[1..]));
      assert parts[0] + (sep + Join(sep, parts[1..])) == Join(sep, parts);
    } else {
      JoinContainsParts(sep, parts[1..], j - 1);
      SubstringOfConcat(parts[j], parts[0] + sep, Join(sep, parts[1..]));
    }
  }
}
