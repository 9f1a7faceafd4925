/** The course search engine: the text each course is embedded from, top-k assembly over
    given similarity scores, the category/level filter, and the featured-course list.
    Similarity scores come from an embedding model and cosine similarity, which are not
    modelled: they are given as one `real` per course, aligned with the course list. */
module Search {
  import opened Wrappers
  import opened Text
  import opened Seqs
  import opened Sorting
  import opened Courses

  // ---------------------------------------------------------------------------
  // Corpus text
  // ---------------------------------------------------------------------------

  /** The text a course is embedded from. */
  function EmbeddingText(c: Course): string
  {
    c.title + " " + c.description + " " + c.category
  }

  /** One embedding text per course, in corpus order. */
  function EmbeddingTexts(courses: seq<Course>): (texts: seq<string>)
    ensures |texts| == |courses|
    ensures forall i :: 0 <= i < |courses| ==> texts[i] == EmbeddingText(courses[i])
  {
    if courses == [] then [] else [EmbeddingText(courses[0])] + EmbeddingTexts(courses[1..])
  }

  /** The text of a course holds its title, description and category, in that order,
      separated by single spaces, and nothing else. */
  lemma EmbeddingTextParts(c: Course)
    ensures var t := EmbeddingText(c);
            && |t| == |c.title| + |c.description| + |c.category| + 2
            && t[..|c.title|] == c.title
            && t[|c.title|] == ' '
            && t[|c.title| + 1..|c.title| + 1 + |c.description|] == c.description
            && t[|c.title| + 1 + |c.description|] == ' '
            && t[|t| - |c.category|..] == c.category
  {
  }

  /** The text of a course depends on that course alone: the texts of a concatenated
      corpus are the concatenated texts. */
  lemma {:induction false} EmbeddingTextsConcat(a: seq<Course>, b: seq<Course>)
    ensures EmbeddingTexts(a + b) == EmbeddingTexts(a) + EmbeddingTexts(b)
  {
    if a == [] {
      assert a + b == b;
    } else {
      assert (a + b)[0] == a[0];
      assert (a + b)[1..] == a[1..] + b;
      EmbeddingTextsConcat(a[1..], b);
    }
  }

  // ---------------------------------------------------------------------------
  // Top-k assembly
  // ---------------------------------------------------------------------------

  /** Each course paired with its score, in corpus order. */
  function Scored(courses: seq<Course>, scores: seq<real>): (hits: seq<Hit>)
    requires |scores| == |courses|
    ensures |hits| == |courses|
    ensures forall i :: 0 <= i < |courses| ==> hits[i] == Hit(courses[i], scores[i])
  {
    seq(|courses|, i requires 0 <= i < |courses| => Hit(courses[i], scores[i]))
  }

  /** The result of a search with the given per-course scores: the min(top_k, n) best
      courses, best first, each a corpus course carrying its own score. A hit that outranks
      some returned hit is returned as many times as the corpus holds it. Which of several
      equally scored courses is kept at the cut is not stated. */
  function SemanticSearch(courses: seq<Course>, scores: seq<real>, topK: nat): (r: seq<Hit>)
    requires |scores| == |courses|
    ensures |r| == Min(topK, |courses|)
    ensures NonIncreasing(r, Score)
    ensures multiset(r) <= multiset(Scored(courses, scores))
    ensures forall i :: 0 <= i < |r| ==>
              exists k :: 0 <= k < |courses| && r[i] == Hit(courses[k], scores[k])
    ensures forall k, i :: 0 <= k < |courses| && 0 <= i < |r| && scores[k] > r[i].relevanceScore
              ==> Hit(courses[k], scores[k]) in r
    ensures forall h: Hit, i :: 0 <= i < |r| && h.relevanceScore > r[i].relevanceScore
              ==> multiset(r)[h] == multiset(Scored(courses, scores))[h]
  {
    var all := Scored(courses, scores);
    var r := TakeTop(all, Score, topK);
    TakeTopIsTop(all, Score, topK);
    assert forall i :: 0 <= i < |r| ==> r[i] in multiset(all);
    assert forall k :: 0 <= k < |courses| ==> all[k] in all;
    r
  }

  // ---------------------------------------------------------------------------
  // Category and level filter
  // ---------------------------------------------------------------------------

  const AllCategories := "All Categories"

  /** A selected facet constrains only when it is set, non-empty, and not the sentinel. */
  predicate Active(selected: Option<string>, sentinel: string)
  {
    selected.Some? && selected.value != "" && selected.value != sentinel
  }

  /** `a.lower() == b.lower()`. */
  predicate SameText(a: string, b: string)
  {
    LowerStr(a) == LowerStr(b)
  }

  /** The hit passes every active facet. */
  predicate Admits(category: Option<string>, level: Option<string>, h: Hit)
  {
    && (Active(category, AllCategories) ==> SameText(h.course.category, category.value))
    && (Active(level, AllLevels) ==> SameText(h.course.level, level.value))
  }

  function Admitted(category: Option<string>, level: Option<string>): Hit -> bool
  {
    (h: Hit) => Admits(category, level, h)
  }

  function InCategory(category: string): Hit -> bool
  {
    (h: Hit) => SameText(h.course.category, category)
  }

  function AtLevel(level: string): Hit -> bool
  {
    (h: Hit) => SameText(h.course.level, level)
  }

  /** The filter: first by category, then by level, each only when its facet is active.
      The result is exactly the admitted hits, in their ranked order; with no active facet
      it is the input itself. */
  function FilterCourses(results: seq<Hit>, category: Option<string>, level: Option<string>): (r: seq<Hit>)
    ensures IsSubsequence(r, results)
    ensures forall i :: 0 <= i < |r| ==> Admits(category, level, r[i])
    ensures forall i :: 0 <= i < |results| && Admits(category, level, results[i]) ==> results[i] in r
    ensures r == Select(results, Admitted(category, level))
    ensures !Active(category, AllCategories) && !Active(level, AllLevels) ==> r == results
  {
    var byCategory := if Active(category, AllCategories) then Select(results, InCategory(category.value)) else results;
    var r := if Active(level, AllLevels) then Select(byCategory, AtLevel(level.value)) else byCategory;
    FilterIsSelect(results, category, level);
    SelectIsSubsequence(results, Admitted(category, level));
    r
  }

  lemma FilterIsSelect(results: seq<Hit>, category: Option<string>, level: Option<string>)
    ensures (var byCategory := if Active(category, AllCategories) then Select(results, InCategory(category.value)) else results;
             if Active(level, AllLevels) then Select(byCategory, AtLevel(level.value)) else byCategory)
            == Select(results, Admitted(category, level))
  {
    var admits := Admitted(category, level);
    var c, l := Active(category, AllCategories), Active(level, AllLevels);
    if c && l {
      SelectSelect(results, InCategory(category.value), AtLevel(level.value));
      SelectSame(results, h => InCategory(category.value)(h) && AtLevel(level.value)(h), admits);
    } else if c {
      SelectSame(results, InCategory(category.value), admits);
    } else if l {
      SelectSame(results, AtLevel(level.value), admits);
    } else {
      SelectAll(results, admits);
    }
  }

  /** Filtering a filtered list again with the same facets changes nothing. */
  lemma FilterIdempotent(results: seq<Hit>, category: Option<string>, level: Option<string>)
    ensures FilterCourses(FilterCourses(results, category, level), category, level)
            == FilterCourses(results, category, level)
  {
    SelectIdempotent(results, Admitted(category, level));
  }

  /** The two facets combine as "and": filtering by category alone and then by level
      alone equals filtering by both at once. */
  lemma FilterCategoryThenLevel(results: seq<Hit>, category: Option<string>, level: Option<string>)
    ensures FilterCourses(FilterCourses(results, category, None), None, level)
            == FilterCourses(results, category, level)
  {
    var byC, byL := Admitted(category, None), Admitted(None, level);
    SelectSelect(results, byC, byL);
    SelectSame(results, x => byC(x) && byL(x), Admitted(category, level));
  }

  /** The order of the facets does not matter: level first, then category, gives the same
      list as both at once. */
  lemma FilterLevelThenCategory(results: seq<Hit>, category: Option<string>, level: Option<string>)
    ensures FilterCourses(FilterCourses(results, None, level), category, None)
            == FilterCourses(results, category, level)
  {
    var byC, byL := Admitted(category, None), Admitted(None, level);
    var x := FilterCourses(results, None, level);
    assert FilterCourses(x, category, None) == Select(Select(results, byL), byC);
    SelectCommutes(results, byL, byC);
    FilterCategoryThenLevel(results, category, level);
  }

  /** Filtering keeps the ranking: a best-first list stays best-first. */
  lemma FilterKeepsRanking(results: seq<Hit>, category: Option<string>, level: Option<string>)
    requires NonIncreasing(results, Score)
    ensures NonIncreasing(FilterCourses(results, category, level), Score)
  {
    SubsequenceKeepsOrder(FilterCourses(results, category, level), results, Score);
  }

  // ---------------------------------------------------------------------------
  // Featured courses
  // ---------------------------------------------------------------------------

  const FeaturedCount := 5

  /** The featured list: the min(5, n) most enrolled courses, most enrolled first, with
      courses of equal enrollment in their catalog order. A course more enrolled than some
      featured course appears as many times as the catalog holds it. */
  function Featured(courses: seq<Course>): (r: seq<Course>)
    ensures |r| == Min(FeaturedCount, |courses|)
    ensures NonIncreasing(r, Enrollment)
    ensures multiset(r) <= multiset(courses)
    ensures forall c, i :: c in courses && 0 <= i < |r| && c.enrollmentCount > r[i].enrollmentCount ==> c in r
    ensures forall c: Course, i :: 0 <= i < |r| && c.enrollmentCount > r[i].enrollmentCount
              ==> multiset(r)[c] == multiset(courses)[c]
    ensures forall v :: Select(r, KeyIs(Enrollment, v)) <= Select(courses, KeyIs(Enrollment, v))
  {
    var r := TakeTop(courses, Enrollment, FeaturedCount);
    TakeTopIsTop(courses, Enrollment, FeaturedCount);
    forall v ensures Select(r, KeyIs(Enrollment, v)) <= Select(courses, KeyIs(Enrollment, v)) {
      TakeTopStable(courses, Enrollment, FeaturedCount, v);
    }
    r
  }
}
