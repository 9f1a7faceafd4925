/** The course record that the scraper writes and the search engine reads, and the search
    hit (a course plus its relevance score). */
module Courses {

  const Beginner := "Beginner"
  const Intermediate := "Intermediate"
  const Advanced := "Advanced"
  /** The level of a course whose description names no level; also the "no constraint"
      choice of the level filter. */
  const AllLevels := "All Levels"

  datatype Course = Course(
    title: string,
    description: string,
    instructor: string,
    url: string,
    imageUrl: string,
    enrollmentCount: int,
    price: string,
    category: string,
    duration: string,
    level: string)

  /** `{**course, 'relevance_score': score}`: the course's fields unchanged, plus a score. */
  datatype Hit = Hit(course: Course, relevanceScore: real)

  function Score(h: Hit): real
  {
    h.relevanceScore
  }

  function Enrollment(c: Course): real
  {
    c.enrollmentCount as real
  }
}
