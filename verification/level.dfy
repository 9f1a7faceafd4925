/** The scraper's level classification: the first of Beginner, Intermediate, Advanced named
    anywhere in a description, ignoring case, else "All Levels". */
module Level {
  import opened Text
  import opened Courses

  /** The level words, in the order the scraper tries them. */
  const LevelWords: seq<string> := [Beginner, Intermediate, Advanced]

  /** The description names the level, in any case. */
  ghost predicate Mentions(description: string, level: string)
  {
    Occurs(LowerStr(description), LowerStr(level))
  }

  /** The first level word from position i on that occurs in the lower-cased description,
      or "All Levels" when none does. */
  function FirstMentioned(lowered: string, i: nat): (r: string)
    requires i <= |LevelWords|
    ensures r == AllLevels || exists j :: i <= j < |LevelWords| && r == LevelWords[j]
    ensures forall j :: i <= j < |LevelWords| && r == LevelWords[j] ==>
              Occurs(lowered, LowerStr(LevelWords[j]))
              && forall k :: i <= k < j ==> !Occurs(lowered, LowerStr(LevelWords[k]))
    ensures r == AllLevels ==> forall j :: i <= j < |LevelWords| ==> !Occurs(lowered, LowerStr(LevelWords[j]))
    decreases |LevelWords| - i
  {
    LevelWordsDistinct();
    if i == |LevelWords| then AllLevels
    else if Contains(lowered, LowerStr(LevelWords[i])) then LevelWords[i]
    else FirstMentioned(lowered, i + 1)
  }

  lemma LevelWordsDistinct()
    ensures forall j, k :: 0 <= j < k < |LevelWords| ==> LevelWords[j] != LevelWords[k]
    ensures forall j :: 0 <= j < |LevelWords| ==> LevelWords[j] != AllLevels
  {
    assert LevelWords[0][0] == 'B' && LevelWords[1][0] == 'I' && LevelWords[2][0] == 'A';
    assert AllLevels[1] == 'l' && LevelWords[2][1] == 'd';
  }

  /** The level of a course, from its (already stripped) description. Beginner wins over
      the others, Intermediate over Advanced; "All Levels" exactly when no level is named. */
  function ExtractLevel(description: string): (r: string)
    ensures r in {Beginner, Intermediate, Advanced, AllLevels}
    ensures r == Beginner <==> Mentions(description, Beginner)
    ensures r == Intermediate <==> !Mentions(description, Beginner) && Mentions(description, Intermediate)
    ensures r == Advanced <==> !Mentions(description, Beginner) && !Mentions(description, Intermediate)
                               && Mentions(description, Advanced)
    ensures r == AllLevels <==> !Mentions(description, Beginner) && !Mentions(description, Intermediate)
                                && !Mentions(description, Advanced)
  {
    var lowered := LowerStr(description);
    LevelWordsDistinct();
    var r := FirstMentioned(lowered, 0);
    assert LevelWords[0] == Beginner && LevelWords[1] == Intermediate && LevelWords[2] == Advanced;
    r
  }

  /** Priority rank of a level: Beginner 0, Intermediate 1, Advanced 2, All Levels 3. */
  function Rank(level: string): nat
  {
    if level == Beginner then 0
    else if level == Intermediate then 1
    else if level == Advanced then 2
    else 3
  }

  lemma MentionsInConcat(a: string, b: string, level: string)
    ensures Mentions(a, level) ==> Mentions(a + b, level)
    ensures Mentions(b, level) ==> Mentions(a + b, level)
  {
    LowerStrConcat(a, b);
    OccursInConcat(LowerStr(a), LowerStr(b), LowerStr(level));
  }

  /** More text can only raise the priority of the level found: the level of a
      concatenation ranks at least as high as the level of either part. */
  lemma ExtractLevelConcat(a: string, b: string)
    ensures Rank(ExtractLevel(a + b)) <= Rank(ExtractLevel(a))
    ensures Rank(ExtractLevel(a + b)) <= Rank(ExtractLevel(b))
  {
    MentionsInConcat(a, b, Beginner);
    MentionsInConcat(a, b, Intermediate);
    MentionsInConcat(a, b, Advanced);
  }

  /** The level ignores letter case: a lower-cased description has the same level. */
  lemma ExtractLevelIgnoresCase(description: string)
    ensures ExtractLevel(LowerStr(description)) == ExtractLevel(description)
  {
    LowerStrIdempotent(description);
  }
}
