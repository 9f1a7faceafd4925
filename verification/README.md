# Smart search tool: course search and catalog normalisation, in Dafny

This project models the core of a small course-search tool for the Analytics Vidhya free-course catalog.

On the search side (`tool.py`) it models four things:

- the text each course is embedded from;
- the assembly of the top-k search results from per-course similarity scores;
- the category/level filter applied to those results;
- the "featured courses" list: the five most enrolled courses.

On the catalog side (`scrapper.py`) it models:

- how one raw API record is normalised into a course record, and how failing records are skipped;
- the duration extraction: four regular expressions tried in order;
- the level extraction: the first level word the description names.

Modules:

- `Wrappers`: `Option`.
- `Text`: the Python string operations the core uses, namely `str.isspace`, ASCII `lower`, substring search and `strip`.
- `Seqs`: the list-comprehension filter `Select`, the subsequence relation, and `Produced`, which keeps the values a partial function yields.
- `Sorting`: a stable descending sort and its top-k prefix.
- `Courses`: the course record and the search hit.
- `Search`: the `tool.py` core.
- `Level`, `Duration` and `Scraper`: the `scrapper.py` core.

Edge cases, as the program handles them:

- An empty query, `top_k = 0` and an empty catalog raise nothing special. `top_k = 0` gives an empty list, as `torch.topk` with `k = 0` does.
- Top-k selection promises no tie order. `torch.topk` does not document one, so `SemanticSearch` says nothing about which of several equally scored courses is kept at the cut. The featured list, built with Python's stable `sorted`, is stated stable.

About case in `_extract_level` (scrapper.py:91-94): `str.lower` also lower-cases non-ASCII letters, while `Text.Lower` folds only `A`-`Z`. For this function the difference cannot change the result.

- No non-ASCII character lower-cases to an ASCII letter, except U+0130 (`İ`) and U+212A (the Kelvin sign).
- U+0130 lower-cases to two characters, `i` followed by U+0307. U+0307 occurs in no level word, and `i` is never the last letter of "beginner", "intermediate" or "advanced". So the U+0307 after such an `i` always breaks a match, and the `i` can only complete one where the ASCII-lowered text has the same letters.
- The Kelvin sign lower-cases to `k`, and no level word contains a `k`.
- So a level word occurs in Python's lowered description exactly when it occurs in the ASCII-lowered one.

The same argument does not hold for the facet comparison in `filter_courses`; see "Left out".

## Model

| member | source | states |
|---|---|---|
| Search.EmbeddingTexts | tool.py:27-32 | one text per course, in corpus order, each built from that course alone |
| Search.EmbeddingTextParts | tool.py:30 | the text is the title, a space, the description, a space, the category, and nothing else |
| Search.EmbeddingTextsConcat | tool.py:29-32 | the texts of a concatenated corpus are the concatenated texts: no cross-record state |
| Search.SemanticSearch | tool.py:35-55 | exactly min(top_k, n) hits, best score first; each hit is a corpus course with its own score, and no course appears more often than in the corpus; a hit scoring strictly above some returned hit is returned as many times as the corpus holds it |
| Search.FilterCourses | tool.py:57-75 | the result is a subsequence of the input (ranking order kept); it holds exactly the hits that pass every active facet under a lower-cased comparison; an unset, empty or "All …" facet constrains nothing, and with none active the input comes back unchanged |
| Search.FilterIdempotent | tool.py:57-75 | filtering a filtered list again with the same facets changes nothing |
| Search.FilterCategoryThenLevel | tool.py:63-73 | category alone, then level alone, equals both at once |
| Search.FilterLevelThenCategory | tool.py:63-73 | the facets commute: level first, then category, equals both at once |
| Search.FilterKeepsRanking | tool.py:61-75 | a best-first result list stays best-first after filtering |
| Search.Featured | tool.py:154-158 | min(5, n) courses, most enrolled first, drawn from the catalog; a course more enrolled than some featured course appears as many times as the catalog holds it; courses with equal enrollment keep their catalog order |
| Sorting.SortDesc | tool.py:154-157 | the sort result is a permutation of its input in non-increasing key order |
| Sorting.SortStable | tool.py:154-157 | the sort is stable: the elements with any one key value appear in their input order |
| Sorting.TakeTopIsTop | tool.py:45 | every copy of an element that outranks some kept element is kept: nothing left out of the top-k prefix scores higher than anything kept |
| Level.ExtractLevel | scrapper.py:88-96 | Beginner iff the description names "beginner" in any case; Intermediate iff it names "intermediate" but not "beginner"; Advanced iff it names "advanced" and neither earlier word; "All Levels" iff it names none |
| Level.ExtractLevelConcat | scrapper.py:93-96 | the level of a concatenation ranks at least as high as the level of either part |
| Level.ExtractLevelIgnoresCase | scrapper.py:91-94 | lower-casing the description first does not change its level |
| Duration.Search | scrapper.py:83 | `re.search`: the match reported starts as far left as any match and is the longest match starting there; none is reported exactly when the pattern matches nowhere |
| Duration.ExtractDuration | scrapper.py:73-86 | "Duration not specified" exactly when none of the four patterns matches anywhere; otherwise the text `re.search` reports for the first pattern, in list order, that matches |
| Duration.DurationShape | scrapper.py:75-86 | the duration is the literal, or a piece of the description that starts with a digit and ends with a unit word, possibly followed by an s |
| Duration.HoursFirst | scrapper.py:82-85 | when an hours phrase occurs anywhere, the duration is the hours match `re.search` reports, even if a minutes or weeks phrase comes earlier in the text |
| Duration.MinutePatternShadowed | scrapper.py:75-85 | wherever `minutes?` matches, `mins?` matches too, so the third pattern never decides |
| Text.Strip | scrapper.py:53 | `strip` leaves a block of the input with whitespace on both sides and no whitespace at its own ends |
| Text.StripUnique | scrapper.py:53-55 | whitespace around a block with non-whitespace ends is exactly what `strip` removes |
| Text.StripIdempotent | scrapper.py:53-55 | stripping twice is stripping once |
| Scraper.ProcessRecord | scrapper.py:47-63 | a record fails exactly when it is not a JSON object, or when the name, description, instructor or category holds a value of the wrong kind; otherwise every course field comes from its raw field or default, the slug is recoverable after the URL prefix, and the level is one of the four values |
| Scraper.ProcessedNamesAreCores | scrapper.py:53-55 | a name or instructor name with any whitespace on either side gives a title or instructor that is exactly the unpadded name |
| Scraper.ProcessCourses | scrapper.py:43-71 | the courses are exactly the normalisations of the records that normalise, in record order; each course is the normalisation of some record, and every record that does not fail contributes its course, so a failing record is skipped without stopping the rest |
| Seqs.ProducedConcat | scrapper.py:47-69 | records are handled independently: the courses from a concatenation of record lists are the courses from each part, in order |

## Left out

- The sentence-embedding model and cosine similarity are not modelled. `SemanticSearch` takes one real score per course, aligned with the course list.
- Floating-point rounding of scores is not modelled.
- Search.SemanticSearch: which of several equally scored hits `torch.topk` keeps at the cut, and in what order, is not stated. The model states the score order and that every copy of a hit outranking some returned hit is returned.
- Search.SemanticSearch: a negative `top_k` makes `torch.topk` raise. `topK` is a natural number here; the user interface allows only 1 to 20.
- Search.SemanticSearch: on an empty catalog, the source never computes embeddings and the search would fail. The model returns an empty list. The user interface returns before searching in that case.
- Search.FilterCourses: `.lower()` is modelled as ASCII lower-casing. Two facet values that differ only in non-ASCII letter case compare unequal here but equal in the source.
- Search.FilterCourses: the copy of the results list is not modelled. Sequences are immutable, so the caller's list is unchanged by construction.
- Duration.ExtractDuration: `\d` is modelled as the ASCII digits 0-9. Python's `\d` also matches other Unicode decimal digits.
- Scraper.ProcessRecord: fields that the source copies through unchanged (`image_url`, `enrollment_count`, `price`, `slug`, and the category's `name`) are modelled with their usual types. An explicit JSON null, or a value of another type, is not represented.
- Scraper.ProcessRecord: HTML-to-text conversion is not modelled. The BeautifulSoup step is a function parameter.
- Loading and saving JSON and CSV, the HTTP fetch, and the Streamlit user interface are left out; all are I/O.
- The two `print` calls for failed fetches and failed records are left out; they are I/O.
- The course card and the category/level option lists are presentation only.
