/** The scraper's record normalisation: one raw API record becomes one course record, and a
    record on which normalisation fails is skipped. Fetching the records and turning HTML
    into plain text are not modelled: the records are given, and the HTML-to-text step is
    a function parameter. */
module Scraper {
  import opened Wrappers
  import opened Text
  import opened Courses
  import opened Level
  import opened Duration
  import opened Seqs

  /** A field the normalisation calls a string or dictionary method on: absent (the
      default is used), present with a value of the wrong kind (the method call raises),
      or present with a usable value. */
  datatype Field<+T> = Missing | Mistyped | Present(value: T)

  /** The `category` object of a raw record; only its `name` is read. */
  datatype RawCategory = RawCategory(name: Option<string>)

  /** An element of the API's course list: a JSON object, or some other JSON value (a
      string, number, list or null), on which `.get` raises. In an object, the fields the
      normalisation copies without calling anything on them are optional values. */
  datatype RawCourse = NotAnObject | RawCourse(
    name: Field<string>,
    description: Field<string>,
    instructorName: Field<string>,
    slug: Option<string>,
    imageUrl: Option<string>,
    enrollmentCount: Option<int>,
    price: Option<string>,
    category: Field<RawCategory>)

  const CoursePrefix := "https://courses.analyticsvidhya.com/courses/"
  const DefaultPrice := "Free"

  /** The value of a string field, `""` when absent. */
  function TextOr(f: Field<string>): string
    requires !f.Mistyped?
  {
    match f
    case Present(v) => v
    case Missing => ""
  }

  /** The record fails to normalise: it is not an object, or some field the normalisation
      calls a method on holds a value of the wrong kind. */
  predicate Fails(raw: RawCourse)
  {
    raw.NotAnObject? || raw.name.Mistyped? || raw.description.Mistyped? || raw.instructorName.Mistyped? || raw.category.Mistyped?
  }

  /** One record: the course built from it, or None when normalising it raises. */
  function ProcessRecord(raw: RawCourse, htmlToText: string -> string): (r: Option<Course>)
    ensures r.None? <==> Fails(raw)
    ensures r.Some? ==>
              var c := r.value;
              && |CoursePrefix| <= |c.url|
              && c.url[..|CoursePrefix|] == CoursePrefix
              && c.url[|CoursePrefix|..] == raw.slug.GetOr("")
              && c.title == Strip(TextOr(raw.name))
              && c.instructor == Strip(TextOr(raw.instructorName))
              && c.description == htmlToText(TextOr(raw.description))
              && c.imageUrl == raw.imageUrl.GetOr("")
              && c.enrollmentCount == raw.enrollmentCount.GetOr(0)
              && c.price == raw.price.GetOr(DefaultPrice)
              && c.category == (if raw.category.Present? then raw.category.value.name.GetOr("") else "")
              && c.duration == ExtractDuration(TextOr(raw.description))
              && c.level == ExtractLevel(c.description)
    ensures r.Some? ==> r.value.level in {Beginner, Intermediate, Advanced, AllLevels}
    ensures r.Some? && raw.enrollmentCount.None? ==> r.value.enrollmentCount == 0
    ensures r.Some? && raw.price.None? ==> r.value.price == DefaultPrice
  {
    if Fails(raw) then None
    else
      var html := TextOr(raw.description);
      var description := htmlToText(html);
      Some(Course(
        title := Strip(TextOr(raw.name)),
        description := description,
        instructor := Strip(TextOr(raw.instructorName)),
        url := CoursePrefix + raw.slug.GetOr(""),
        imageUrl := raw.imageUrl.GetOr(""),
        enrollmentCount := raw.enrollmentCount.GetOr(0),
        price := raw.price.GetOr(DefaultPrice),
        category := match raw.category
                    case Present(cat) => cat.name.GetOr("")
                    case _ => "",
        duration := ExtractDuration(html),
        level := ExtractLevel(description)))
  }

  /** The title and instructor are the names with the whitespace around them removed:
      a name that is whitespace, a block with no whitespace at its edges, and whitespace
      again, yields exactly that block. */
  lemma ProcessedNamesAreCores(raw: RawCourse, htmlToText: string -> string,
                               x: string, title: string, y: string,
                               x': string, instructor: string, y': string)
    requires !Fails(raw)
    requires AllSpaces(x) && AllSpaces(y) && AllSpaces(x') && AllSpaces(y')
    requires raw.name == Present(x + title + y)
    requires raw.instructorName == Present(x' + instructor + y')
    requires title == [] || (!IsSpace(title[0]) && !IsSpace(title[|title| - 1]))
    requires instructor == [] || (!IsSpace(instructor[0]) && !IsSpace(instructor[|instructor| - 1]))
    ensures ProcessRecord(raw, htmlToText).Some?
    ensures ProcessRecord(raw, htmlToText).value.title == title
    ensures ProcessRecord(raw, htmlToText).value.instructor == instructor
  {
    StripUnique(x, title, y);
    StripUnique(x', instructor, y');
  }

  /** All records, in order: each one that normalises contributes its course, each one that
      fails is skipped and does not stop the rest. */
  method ProcessCourses(records: seq<RawCourse>, htmlToText: string -> string) returns (courses: seq<Course>)
    ensures courses == Produced(records, raw => ProcessRecord(raw, htmlToText))
    ensures |courses| <= |records|
    ensures forall j :: 0 <= j < |courses| ==>
              exists i :: 0 <= i < |records| && ProcessRecord(records[i], htmlToText) == Some(courses[j])
    ensures forall i :: 0 <= i < |records| && !Fails(records[i]) ==>
              ProcessRecord(records[i], htmlToText).value in courses
  {
    courses := KeepProduced(records, raw => ProcessRecord(raw, htmlToText));
  }
}
