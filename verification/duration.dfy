/** The scraper's duration extraction. Four patterns `(\d+)\s*hours?`, `(\d+)\s*mins?`,
    `(\d+)\s*minutes?`, `(\d+)\s*weeks?` are tried in that order with `re.search` and
    `re.IGNORECASE`; the whole text of the first match found is the duration. */
module Duration {
  import opened Wrappers
  import opened Text

  const NotSpecified := "Duration not specified"

  /** The unit word of each pattern, in the order the patterns are tried. */
  const Units: seq<string> := ["hour", "min", "minute", "week"]

  /** A pattern word: non-empty, lower-case ASCII letters only. */
  predicate IsWord(w: string)
  {
    |w| > 0 && forall k :: 0 <= k < |w| ==> IsLowerLetter(w[k])
  }

  lemma UnitsAreWords()
    ensures forall u :: 0 <= u < |Units| ==> IsWord(Units[u])
  {
  }

  /** Whether c matches the lower-case pattern letter l under `re.IGNORECASE`: c lower-cases
      to l, or is one of the regex engine's extra case equivalents of l (dotless i and the
      dotted capital I for i, long s for s, the Kelvin sign for k). */
  predicate FoldsTo(c: char, l: char)
  {
    || Lower(c) == l
    || (l == 'i' && (c == '\U{130}' || c == '\U{131}'))
    || (l == 's' && c == '\U{17F}')
    || (l == 'k' && c == '\U{212A}')
  }

  /** t spells w, ignoring case. */
  predicate FoldsWord(t: string, w: string)
  {
    |t| == |w| && forall k :: 0 <= k < |t| ==> FoldsTo(t[k], w[k])
  }

  predicate AllDigits(t: string)
  {
    forall k :: 0 <= k < |t| ==> IsDigit(t[k])
  }

  /** A character that matches a letter of a pattern word is neither a digit nor whitespace. */
  lemma FoldsToLetter(c: char, l: char)
    requires IsLowerLetter(l) && FoldsTo(c, l)
    ensures !IsDigit(c) && !IsSpace(c)
  {
  }

  // ---------------------------------------------------------------------------
  // The language of one pattern, and what re.search returns for it
  // ---------------------------------------------------------------------------

  /** t is a whole match of `(\d+)\s*<unit>s?`: one or more digits, then whitespace, then the
      unit word in any case, then optionally an s. */
  ghost predicate InPattern(t: string, unit: string)
  {
    exists a: nat, b: nat :: SplitsAs(t, unit, a, b)
  }

  /** t reads as a digits, then b - a whitespace characters, then the unit word, then
      possibly an s. */
  predicate SplitsAs(t: string, unit: string, a: nat, b: nat)
  {
    && 0 < a <= b
    && b + |unit| <= |t| <= b + |unit| + 1
    && AllDigits(t[..a])
    && AllSpaces(t[a..b])
    && FoldsWord(t[b..b + |unit|], unit)
    && (|t| == b + |unit| || FoldsTo(t[|t| - 1], 's'))
  }

  /** The pattern matches s[p..e]. */
  ghost predicate Matches(s: string, unit: string, p: nat, e: nat)
  {
    p <= e <= |s| && InPattern(s[p..e], unit)
  }

  /** The pattern matches somewhere in s. */
  ghost predicate HasMatch(s: string, unit: string)
  {
    exists p: nat, e: nat :: Matches(s, unit, p, e)
  }

  /** s[p..e] is the match `re.search` reports: it starts as far left as any match does, and
      it is the longest match starting there. */
  ghost predicate LeftmostLongest(s: string, unit: string, p: nat, e: nat)
  {
    && Matches(s, unit, p, e)
    && (forall p': nat, e': nat :: p' < p ==> !Matches(s, unit, p', e'))
    && (forall e': nat :: e < e' ==> !Matches(s, unit, p, e'))
  }

  /** d is the text `re.search(<unit pattern>, s, re.IGNORECASE).group(0)` returns. */
  ghost predicate SearchText(s: string, unit: string, d: string)
  {
    exists p: nat, e: nat :: p <= e <= |s| && d == s[p..e] && LeftmostLongest(s, unit, p, e)
  }

  /** t ends with the unit word, in any case, possibly followed by an s. */
  predicate EndsWithUnit(t: string, unit: string)
  {
    || (|unit| <= |t| && FoldsWord(t[|t| - |unit|..], unit))
    || (|unit| < |t| && FoldsWord(t[|t| - 1 - |unit|..|t| - 1], unit) && FoldsTo(t[|t| - 1], 's'))
  }

  /** Every match starts with a digit and ends with the unit word, possibly followed by an s. */
  lemma InPatternShape(t: string, unit: string)
    requires InPattern(t, unit)
    ensures |t| > 0 && IsDigit(t[0])
    ensures EndsWithUnit(t, unit)
  {
    var a: nat, b: nat :| SplitsAs(t, unit, a, b);
    assert t[..a][0] == t[0];
    if |t| != b + |unit| {
      assert t[|t| - 1 - |unit|..|t| - 1] == t[b..b + |unit|];
    }
  }

  // ---------------------------------------------------------------------------
  // Matching at one position
  // ---------------------------------------------------------------------------

  /** The end of the longest run of characters satisfying p that starts at i. */
  function RunEnd(s: string, i: nat, p: char -> bool): (j: nat)
    requires i <= |s|
    ensures i <= j <= |s|
    ensures forall k :: i <= k < j ==> p(s[k])
    ensures j == |s| || !p(s[j])
    decreases |s| - i
  {
    if i < |s| && p(s[i]) then RunEnd(s, i + 1, p) else i
  }

  /** The match of the pattern that starts at p, as the regex engine finds it: `\d+` and `\s*`
      take every digit and every whitespace character there is, and `s?` takes an s when one
      follows. The end of the match, or None. */
  function MatchAt(s: string, unit: string, p: nat): (r: Option<nat>)
    requires p <= |s|
    requires IsWord(unit)
    ensures r.Some? ==> Matches(s, unit, p, r.value)
    ensures r.Some? ==> forall e: nat :: r.value < e ==> !Matches(s, unit, p, e)
    ensures r.None? ==> forall e: nat :: !Matches(s, unit, p, e)
  {
    if p == |s| || !IsDigit(s[p]) then
      MatchNeedsDigit(s, unit, p);
      None
    else
      var q := RunEnd(s, p, IsDigit);
      var w := RunEnd(s, q, IsSpace);
      if w + |unit| <= |s| && FoldsWord(s[w..w + |unit|], unit) then
        var e := w + |unit|;
        var r := if e < |s| && FoldsTo(s[e], 's') then e + 1 else e;
        MatchFound(s, unit, p, q, w, r);
        Some(r)
      else
        MatchIsForced(s, unit, p, q, w);
        None
  }

  /** The greedy end is a match, and no match at p ends later. */
  lemma MatchFound(s: string, unit: string, p: nat, q: nat, w: nat, r: nat)
    requires IsWord(unit)
    requires p < q <= w <= |s|
    requires forall k :: p <= k < q ==> IsDigit(s[k])
    requires q == |s| || !IsDigit(s[q])
    requires forall k :: q <= k < w ==> IsSpace(s[k])
    requires w == |s| || !IsSpace(s[w])
    requires w + |unit| <= |s| && FoldsWord(s[w..w + |unit|], unit)
    requires r == (if w + |unit| < |s| && FoldsTo(s[w + |unit|], 's') then w + |unit| + 1 else w + |unit|)
    ensures Matches(s, unit, p, r)
    ensures forall e: nat :: r < e ==> !Matches(s, unit, p, e)
  {
    MatchWitness(s, unit, p, q, w, r);
    MatchIsForced(s, unit, p, q, w);
  }

  lemma MatchNeedsDigit(s: string, unit: string, p: nat)
    requires p <= |s|
    requires p == |s| || !IsDigit(s[p])
    ensures forall e: nat :: !Matches(s, unit, p, e)
  {
    forall e: nat | Matches(s, unit, p, e)
      ensures false
    {
      InPatternShape(s[p..e], unit);
    }
  }

  /** Any match at p splits exactly where the longest digit run and the longest whitespace
      run end, so it ends with the unit word at w, with or without a trailing s. */
  lemma MatchIsForced(s: string, unit: string, p: nat, q: nat, w: nat)
    requires IsWord(unit)
    requires p < q <= w <= |s|
    requires forall k :: p <= k < q ==> IsDigit(s[k])
    requires q == |s| || !IsDigit(s[q])
    requires forall k :: q <= k < w ==> IsSpace(s[k])
    requires w == |s| || !IsSpace(s[w])
    ensures forall e: nat :: Matches(s, unit, p, e) ==> ForcedEnd(s, unit, w, e)
  {
    forall e: nat | Matches(s, unit, p, e)
      ensures ForcedEnd(s, unit, w, e)
    {
      MatchEndIsForced(s, unit, p, q, w, e);
    }
  }

  /** The unit word sits at w and the match ends right after it or after one more s. */
  predicate ForcedEnd(s: string, unit: string, w: nat, e: nat)
  {
    && w + |unit| <= |s|
    && FoldsWord(s[w..w + |unit|], unit)
    && (e == w + |unit| || (e == w + |unit| + 1 && e <= |s| && FoldsTo(s[e - 1], 's')))
  }

  lemma MatchEndIsForced(s: string, unit: string, p: nat, q: nat, w: nat, e: nat)
    requires IsWord(unit)
    requires p < q <= w <= |s|
    requires forall k :: p <= k < q ==> IsDigit(s[k])
    requires q == |s| || !IsDigit(s[q])
    requires forall k :: q <= k < w ==> IsSpace(s[k])
    requires w == |s| || !IsSpace(s[w])
    requires Matches(s, unit, p, e)
    ensures ForcedEnd(s, unit, w, e)
  {
    var t := s[p..e];
    var a: nat, b: nat :| SplitsAs(t, unit, a, b);
    SplitAt(s, unit, p, e, a, b);
    DigitsEndAt(s, p, q, p + a);
    SpacesEndAt(s, q, w, p + b);
    SliceOfSlice(s, p, e, b, b + |unit|);
    if e != w + |unit| {
      assert t[|t| - 1] == s[e - 1];
    }
  }

  /** The pieces of a match at p, read in s. */
  lemma SplitAt(s: string, unit: string, p: nat, e: nat, a: nat, b: nat)
    requires IsWord(unit)
    requires p <= e <= |s|
    requires 0 < a <= b && b + |unit| <= e - p
    requires AllDigits(s[p..e][..a])
    requires AllSpaces(s[p..e][a..b])
    requires FoldsWord(s[p..e][b..b + |unit|], unit)
    ensures forall k :: p <= k < p + a ==> IsDigit(s[k])
    ensures forall k :: p + a <= k < p + b ==> IsSpace(s[k])
    ensures !IsDigit(s[p + b]) && !IsSpace(s[p + b])
  {
    var t := s[p..e];
    assert forall k :: p <= k < p + a ==> t[..a][k - p] == s[k];
    assert forall k :: p + a <= k < p + b ==> t[a..b][k - p - a] == s[k];
    assert t[b..b + |unit|][0] == s[p + b];
    FoldsToLetter(s[p + b], unit[0]);
  }

  /** Two ends of the same maximal digit run coincide. */
  lemma DigitsEndAt(s: string, p: nat, q: nat, q': nat)
    requires p <= q <= |s| && p <= q' < |s|
    requires forall k :: p <= k < q ==> IsDigit(s[k])
    requires q == |s| || !IsDigit(s[q])
    requires forall k :: p <= k < q' ==> IsDigit(s[k])
    requires !IsDigit(s[q'])
    ensures q == q'
  {
  }

  /** Two ends of the same maximal whitespace run coincide, when the run is followed by
      something else than a digit. */
  lemma SpacesEndAt(s: string, q: nat, w: nat, w': nat)
    requires q <= w <= |s| && q <= w' < |s|
    requires forall k :: q <= k < w ==> IsSpace(s[k])
    requires w == |s| || !IsSpace(s[w])
    requires forall k :: q <= k < w' ==> IsSpace(s[k])
    requires !IsSpace(s[w'])
    ensures w == w'
  {
  }

  lemma MatchWitness(s: string, unit: string, p: nat, q: nat, w: nat, r: nat)
    requires p < q <= w && w + |unit| <= r <= w + |unit| + 1 && r <= |s|
    requires forall k :: p <= k < q ==> IsDigit(s[k])
    requires forall k :: q <= k < w ==> IsSpace(s[k])
    requires FoldsWord(s[w..w + |unit|], unit)
    requires r == w + |unit| || FoldsTo(s[r - 1], 's')
    ensures Matches(s, unit, p, r)
  {
    var t := s[p..r];
    var a, b := q - p, w - p;
    SliceOfSlice(s, p, r, 0, a);
    assert t[..a] == t[0..a];
    assert AllDigits(t[..a]) by {
      forall k | 0 <= k < a ensures IsDigit(t[..a][k]) {
        assert t[..a][k] == s[p + k];
      }
    }
    SliceOfSlice(s, p, r, a, b);
    assert AllSpaces(t[a..b]) by {
      forall k | 0 <= k < b - a ensures IsSpace(t[a..b][k]) {
        assert t[a..b][k] == s[q + k];
      }
    }
    SliceOfSlice(s, p, r, b, b + |unit|);
    if r != w + |unit| {
      assert t[|t| - 1] == s[r - 1];
    }
    assert SplitsAs(t, unit, a, b);
  }

  // ---------------------------------------------------------------------------
  // re.search
  // ---------------------------------------------------------------------------

  /** Tries the pattern at i, i + 1, ... and reports the first match found. */
  function SearchFrom(s: string, unit: string, i: nat): (r: Option<(nat, nat)>)
    requires i <= |s|
    requires IsWord(unit)
    ensures r.Some? ==> i <= r.value.0 && Matches(s, unit, r.value.0, r.value.1)
    ensures r.Some? ==> forall e: nat :: r.value.1 < e ==> !Matches(s, unit, r.value.0, e)
    ensures r.Some? ==> forall p: nat, e: nat :: i <= p < r.value.0 ==> !Matches(s, unit, p, e)
    ensures r.None? ==> forall p: nat, e: nat :: i <= p ==> !Matches(s, unit, p, e)
    decreases |s| - i
  {
    match MatchAt(s, unit, i)
    case Some(e) => Some((i, e))
    case None => if i == |s| then None else SearchFrom(s, unit, i + 1)
  }

  /** `re.search(pattern, s, re.IGNORECASE)`: the leftmost-longest match, or None when
      there is no match at all. */
  function Search(s: string, unit: string): (r: Option<(nat, nat)>)
    requires IsWord(unit)
    ensures r.Some? ==> LeftmostLongest(s, unit, r.value.0, r.value.1)
    ensures r.None? <==> !HasMatch(s, unit)
  {
    SearchFrom(s, unit, 0)
  }

  // ---------------------------------------------------------------------------
  // _extract_duration
  // ---------------------------------------------------------------------------

  /** No pattern before the u-th matches. */
  ghost predicate NoEarlierMatch(s: string, u: nat)
  {
    forall v :: 0 <= v < u && v < |Units| ==> !HasMatch(s, Units[v])
  }

  /** d is the duration found with the u-th pattern: no earlier pattern matches, and d is
      what `re.search` reports for the u-th. */
  ghost predicate FoundWith(s: string, u: nat, d: string)
  {
    u < |Units| && NoEarlierMatch(s, u) && SearchText(s, Units[u], d)
  }

  /** Tries the patterns from the u-th on, in order; the text of the first match. */
  function FirstMatch(s: string, u: nat): (r: Option<string>)
    requires u <= |Units|
    requires NoEarlierMatch(s, u)
    ensures r.None? <==> forall v :: u <= v < |Units| ==> !HasMatch(s, Units[v])
    ensures r.Some? ==> exists v :: u <= v < |Units| && FoundWith(s, v, r.value)
    decreases |Units| - u
  {
    if u == |Units| then None
    else
      UnitsAreWords();
      match Search(s, Units[u])
      case Some((p, e)) =>
        assert FoundWith(s, u, s[p..e]);
        Some(s[p..e])
      case None => FirstMatch(s, u + 1)
  }

  /** The duration of a course, from its raw description: the first pattern that matches
      anywhere decides, and within it the leftmost-longest match is the result. The literal
      "Duration not specified" exactly when no pattern matches. */
  function ExtractDuration(description: string): (r: string)
    ensures r == NotSpecified <==> forall u :: 0 <= u < |Units| ==> !HasMatch(description, Units[u])
    ensures r != NotSpecified ==> exists u :: 0 <= u < |Units| && FoundWith(description, u, r)
  {
    match FirstMatch(description, 0)
    case Some(d) =>
      FoundIsNotSpecified(description, d);
      d
    case None => NotSpecified
  }

  lemma FoundIsNotSpecified(s: string, d: string)
    requires exists u :: 0 <= u < |Units| && FoundWith(s, u, d)
    ensures d != NotSpecified
  {
    var u :| 0 <= u < |Units| && FoundWith(s, u, d);
    var p: nat, e: nat :| p <= e <= |s| && d == s[p..e] && LeftmostLongest(s, Units[u], p, e);
    InPatternShape(d, Units[u]);
  }

  // ---------------------------------------------------------------------------
  // Properties
  // ---------------------------------------------------------------------------

  /** The duration is either the literal or a piece of the description that starts with a
      digit and ends with a unit word, possibly followed by an s. */
  lemma DurationShape(description: string)
    ensures var r := ExtractDuration(description);
            || r == NotSpecified
            || exists u, p: nat, e: nat :: 0 <= u < |Units| && p < e <= |description| && r == description[p..e]
                 && IsDigit(r[0]) && EndsWithUnit(r, Units[u])
  {
    var r := ExtractDuration(description);
    if r != NotSpecified {
      var u :| 0 <= u < |Units| && FoundWith(description, u, r);
      var p: nat, e: nat :| p <= e <= |description| && r == description[p..e]
                            && LeftmostLongest(description, Units[u], p, e);
      InPatternShape(r, Units[u]);
    }
  }

  /** An hours phrase anywhere wins, even over a minutes or weeks phrase further left. */
  lemma HoursFirst(description: string)
    requires HasMatch(description, "hour")
    ensures SearchText(description, "hour", ExtractDuration(description))
  {
  }

  /** The third pattern never decides: wherever `minutes?` matches, `mins?` matches too,
      and it is tried first. */
  lemma MinutePatternShadowed(s: string)
    requires HasMatch(s, "minute")
    ensures HasMatch(s, "min")
    ensures !FoundWith(s, 2, ExtractDuration(s))
  {
    var p: nat, e: nat :| Matches(s, "minute", p, e);
    var t := s[p..e];
    var a: nat, b: nat :| SplitsAs(t, "minute", a, b);
    var t' := s[p..p + b + 3];
    SliceOfSlice(s, p, e, 0, a);
    SliceOfSlice(s, p, p + b + 3, 0, a);
    SliceOfSlice(s, p, e, a, b);
    SliceOfSlice(s, p, p + b + 3, a, b);
    SliceOfSlice(s, p, e, b, b + 6);
    SliceOfSlice(s, p, p + b + 3, b, b + 3);
    assert t'[..a] == t'[0..a];
    assert t[..a] == t[0..a];
    assert FoldsWord(t'[b..b + 3], "min") by {
      forall k | 0 <= k < 3 ensures FoldsTo(t'[b..b + 3][k], "min"[k]) {
        assert t'[b..b + 3][k] == s[p + b + k] == t[b..b + 6][k];
        assert "min"[k] == "minute"[k];
      }
    }
    assert SplitsAs(t', "min", a, b);
    assert Matches(s, "min", p, p + b + 3);
  }
}
