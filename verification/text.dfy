/** Characters and strings with the meaning Python gives them: `str.isspace`, `str.lower`,
    `str.strip` and the substring test `w in s`. */
module Text {

  /** `str.isspace()`: the characters Python calls whitespace. The same set is what `\s`
      matches in a regular expression over `str`, and what `str.strip()` removes. */
  predicate IsSpace(c: char)
  {
    || c == ' '
    || ('\t' <= c <= '\r')
    || ('\U{1C}' <= c <= '\U{1F}')
    || c == '\U{85}' || c == '\U{A0}' || c == '\U{1680}'
    || ('\U{2000}' <= c <= '\U{200A}')
    || c == '\U{2028}' || c == '\U{2029}' || c == '\U{202F}' || c == '\U{205F}' || c == '\U{3000}'
  }

  predicate IsDigit(c: char)
  {
    '0' <= c <= '9'
  }

  predicate IsLowerLetter(c: char)
  {
    'a' <= c <= 'z'
  }

  /** Lower-casing of one character, restricted to the ASCII letters. */
  function Lower(c: char): char
  {
    if 'A' <= c <= 'Z' then (c as int + 32) as char else c
  }

  /** `s.lower()` on the ASCII letters; every other character is kept. */
  function LowerStr(s: string): (r: string)
    ensures |r| == |s|
    ensures forall k :: 0 <= k < |s| ==> r[k] == Lower(s[k])
  {
    if s == [] then [] else [Lower(s[0])] + LowerStr(s[1..])
  }

  lemma LowerStrConcat(a: string, b: string)
    ensures LowerStr(a + b) == LowerStr(a) + LowerStr(b)
  {
    assert forall k :: 0 <= k < |a + b| ==> LowerStr(a + b)[k] == (LowerStr(a) + LowerStr(b))[k];
  }

  /** Lower-casing twice is lower-casing once. */
  lemma LowerStrIdempotent(s: string)
    ensures LowerStr(LowerStr(s)) == LowerStr(s)
  {
    assert forall k :: 0 <= k < |s| ==> LowerStr(LowerStr(s))[k] == LowerStr(s)[k];
  }

  // ---------------------------------------------------------------------------
  // Substrings: Python's `w in s`
  // ---------------------------------------------------------------------------

  /** w sits in s as a contiguous block starting at position i. */
  predicate OccursAt(s: string, w: string, i: nat)
  {
    i + |w| <= |s| && s[i..i + |w|] == w
  }

  /** The reference meaning of `w in s`. */
  ghost predicate Occurs(s: string, w: string)
  {
    exists i: nat :: OccursAt(s, w, i)
  }

  /** Scans s from position i for a block equal to w. */
  function ContainsFrom(s: string, w: string, i: nat): (r: bool)
    requires i <= |s|
    ensures r <==> exists j: nat :: i <= j && OccursAt(s, w, j)
    decreases |s| - i
  {
    if OccursAt(s, w, i) then true
    else if i == |s| then false
    else ContainsFrom(s, w, i + 1)
  }

  /** `w in s`. */
  function Contains(s: string, w: string): (r: bool)
    ensures r <==> Occurs(s, w)
  {
    ContainsFrom(s, w, 0)
  }

  /** A substring of either part is a substring of the whole. */
  lemma OccursInConcat(a: string, b: string, w: string)
    ensures Occurs(a, w) ==> Occurs(a + b, w)
    ensures Occurs(b, w) ==> Occurs(a + b, w)
  {
    if Occurs(a, w) {
      var i: nat :| OccursAt(a, w, i);
      assert (a + b)[i..i + |w|] == a[i..i + |w|];
      assert OccursAt(a + b, w, i);
    }
    if Occurs(b, w) {
      var i: nat :| OccursAt(b, w, i);
      assert (a + b)[|a| + i..|a| + i + |w|] == b[i..i + |w|];
      assert OccursAt(a + b, w, |a| + i);
    }
  }

  /** A slice of a slice is a slice of the original. */
  lemma SliceOfSlice(s: string, p: nat, e: nat, i: nat, j: nat)
    requires p <= e <= |s| && i <= j <= e - p
    ensures s[p..e][i..j] == s[p + i..p + j]
  {
    assert forall k :: 0 <= k < j - i ==> s[p..e][i..j][k] == s[p + i..p + j][k];
  }

  // ---------------------------------------------------------------------------
  // str.strip()
  // ---------------------------------------------------------------------------

  predicate AllSpaces(t: string)
  {
    forall k :: 0 <= k < |t| ==> IsSpace(t[k])
  }

  /** Removes the leading whitespace. */
  function TrimStart(s: string): (r: string)
    ensures |r| <= |s| && r == s[|s| - |r|..]
    ensures r == [] || !IsSpace(r[0])
    ensures AllSpaces(s[..|s| - |r|])
    decreases |s|
  {
    if s != [] && IsSpace(s[0]) then TrimStart(s[1..]) else s
  }

  /** Removes the trailing whitespace. */
  function TrimEnd(s: string): (r: string)
    ensures |r| <= |s| && r == s[..|r|]
    ensures r == [] || !IsSpace(r[|r| - 1])
    ensures AllSpaces(s[|r|..])
    decreases |s|
  {
    if s != [] && IsSpace(s[|s| - 1]) then TrimEnd(s[..|s| - 1]) else s
  }

  /** r is the block s[i..i + |r|], and everything around it in s is whitespace. */
  predicate StrippedAt(s: string, r: string, i: nat)
  {
    && i + |r| <= |s|
    && r == s[i..i + |r|]
    && AllSpaces(s[..i])
    && AllSpaces(s[i + |r|..])
  }

  /** `s.strip()`: the block of s left once the whitespace at both ends is removed. */
  function Strip(s: string): (r: string)
    ensures r == [] || (!IsSpace(r[0]) && !IsSpace(r[|r| - 1]))
    ensures StrippedAt(s, r, |s| - |TrimStart(s)|)
  {
    var t := TrimStart(s);
    var r := TrimEnd(t);
    TrimmedBlock(s, t, r);
    assert r == [] || r[0] == t[0];
    r
  }

  lemma TrimmedBlock(s: string, t: string, r: string)
    requires |t| <= |s| && t == s[|s| - |t|..] && AllSpaces(s[..|s| - |t|])
    requires |r| <= |t| && r == t[..|r|] && AllSpaces(t[|r|..])
    ensures StrippedAt(s, r, |s| - |t|)
  {
    var i := |s| - |t|;
    assert forall k :: 0 <= k < |r| ==> r[k] == t[k] == s[i + k];
    assert r == s[i..i + |r|];
    assert s[i + |r|..] == t[|r|..];
  }

  /** The characterisation of `strip` is unique: whitespace around a block with no
      whitespace at its edges is exactly what `strip` removes. */
  lemma {:induction false} StripUnique(x: string, t: string, y: string)
    requires AllSpaces(x) && AllSpaces(y)
    requires t == [] || (!IsSpace(t[0]) && !IsSpace(t[|t| - 1]))
    ensures Strip(x + t + y) == t
  {
    if t == [] {
      assert x + t + y == (x + y) + [];
      assert AllSpaces(x + y);
      TrimStartSpaces(x + y, []);
      TrimEndSpaces([], []);
    } else {
      assert x + t + y == x + (t + y);
      TrimStartSpaces(x, t + y);
      TrimEndSpaces(t, y);
    }
  }

  lemma {:induction false} TrimStartSpaces(x: string, u: string)
    requires AllSpaces(x)
    requires u == [] || !IsSpace(u[0])
    ensures TrimStart(x + u) == u
    decreases |x|
  {
    if x != [] {
      assert (x + u)[1..] == x[1..] + u;
      TrimStartSpaces(x[1..], u);
    }
  }

  lemma {:induction false} TrimEndSpaces(t: string, y: string)
    requires AllSpaces(y)
    requires t == [] || !IsSpace(t[|t| - 1])
    ensures TrimEnd(t + y) == t
    decreases |y|
  {
    if y != [] {
      assert (t + y)[..|t + y| - 1] == t + y[..|y| - 1];
      TrimEndSpaces(t, y[..|y| - 1]);
    } else {
      assert t + y == t;
    }
  }

  /** Stripping twice is stripping once. */
  lemma StripIdempotent(s: string)
    ensures Strip(Strip(s)) == Strip(s)
  {
    StripNoEdges(Strip(s));
  }

  /** A string with no whitespace at either end is its own strip. */
  lemma StripNoEdges(t: string)
    requires t == [] || (!IsSpace(t[0]) && !IsSpace(t[|t| - 1]))
    ensures Strip(t) == t
  {
    assert [] + t == t;
    TrimStartSpaces([], t);
    assert t + [] == t;
    TrimEndSpaces(t, []);
  }
}
