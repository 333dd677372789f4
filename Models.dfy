/**
  The value types shared by the extractor, the synchroniser and the change
  filter (src/models.rs). `Course::new` and `ScrapeDiff::new` are the datatype
  constructors `Course(...)` and `ScrapeDiff(...)`, which store their arguments
  unchanged.
 */
module Models {

  /** One course-availability record. Its identity is `code`; the other fields
      are attributes of that identity. Points are exact rationals here. */
  datatype Course = Course(code: string, name: string, points: real, url: string, faculty: string)

  /** A change to the set of available courses. Both variants carry the course,
      read with the shared destructor `course` (Rust's `CourseChange::course`). */
  datatype CourseChange = Added(course: Course) | Removed(course: Course)
  {
    /** The label written to the change log. */
    function ChangeType(): (t: string)
      ensures t == "added" <==> Added?
      ensures t == "removed" <==> Removed?
    {
      match this
      case Added(_) => "added"
      case Removed(_) => "removed"
    }
  }

  /** The (possibly filtered) delta handed to the notifiers. */
  datatype ScrapeDiff = ScrapeDiff(added: seq<Course>, removed: seq<Course>)
  {
    predicate IsEmpty() {
      added == [] && removed == []
    }

    function TotalChanges(): (n: nat)
      ensures n == 0 <==> IsEmpty()
      ensures n >= |added| && n >= |removed|
    {
      |added| + |removed|
    }
  }
}
