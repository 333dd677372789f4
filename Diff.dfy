/**
  The notification filter (src/diff.rs): of the courses a synchronisation
  added and removed, keep those whose points the configured filter accepts.
 */
module Diff {
  import opened Wrappers
  import opened Models
  import opened Points
  import opened Lists
  import opened Db

  /** The per-course test of `filter_changes`: the filter accepts the
      course's points. */
  function Keeps(filter: PointsFilter): Course -> bool {
    (c: Course) => filter.Matches(c.points)
  }

  /** `filter_changes`: both lists of the result, each filtered by points in
      its own order. */
  function FilterChanges(result: SyncResult, filter: PointsFilter): (d: ScrapeDiff)
    ensures |d.added| <= |result.added| && |d.removed| <= |result.removed|
    ensures forall c :: c in d.added <==> c in result.added && filter.Matches(c.points)
    ensures forall c :: c in d.removed <==> c in result.removed && filter.Matches(c.points)
  {
    FilterMembers(result.added, Keeps(filter));
    FilterMembers(result.removed, Keeps(filter));
    ScrapeDiff(Filter(result.added, Keeps(filter)), Filter(result.removed, Keeps(filter)))
  }

  /** A filter that accepts every course in the result passes the result on
      unchanged, in the same order. */
  lemma FilterChangesKeepsAll(result: SyncResult, filter: PointsFilter)
    requires forall c :: c in result.added ==> filter.Matches(c.points)
    requires forall c :: c in result.removed ==> filter.Matches(c.points)
    ensures FilterChanges(result, filter) == ScrapeDiff(result.added, result.removed)
  {
    FilterKeepsAll(result.added, Keeps(filter));
    FilterKeepsAll(result.removed, Keeps(filter));
  }

  /** `PointsFilter::None` (and a range without bounds) lets every change
      through. */
  lemma NoFilterKeepsEverything(result: SyncResult, filter: PointsFilter)
    requires filter.NoFilter? || (filter.Range? && filter.min.None? && filter.max.None?)
    ensures FilterChanges(result, filter) == ScrapeDiff(result.added, result.removed)
  {
    FilterChangesKeepsAll(result, filter);
  }

  /** Filtering what has already been filtered changes nothing. */
  lemma FilterChangesIdempotent(result: SyncResult, filter: PointsFilter)
    ensures var d := FilterChanges(result, filter);
      FilterChanges(SyncResult(d.added, d.removed, result.isFirstRun, result.totalCourses), filter) == d
  {
    var d := FilterChanges(result, filter);
    FilterChangesKeepsAll(SyncResult(d.added, d.removed, result.isFirstRun, result.totalCourses), filter);
  }

  /** The kept courses keep their relative order: filtering the changes of
      two results one after the other gives the two filtered lists one after
      the other. */
  lemma FilterChangesInOrder(r1: SyncResult, r2: SyncResult, filter: PointsFilter, isFirstRun: bool, total: nat)
    ensures var d := FilterChanges(SyncResult(r1.added + r2.added, r1.removed + r2.removed, isFirstRun, total), filter);
      && d.added == FilterChanges(r1, filter).added + FilterChanges(r2, filter).added
      && d.removed == FilterChanges(r1, filter).removed + FilterChanges(r2, filter).removed
  {
    FilterConcat(r1.added, r2.added, Keeps(filter));
    FilterConcat(r1.removed, r2.removed, Keeps(filter));
  }

  /** The filtered diff is empty exactly when no added and no removed course
      has acceptable points. */
  lemma FilterChangesEmpty(result: SyncResult, filter: PointsFilter)
    ensures FilterChanges(result, filter).IsEmpty() <==>
      (forall c :: c in result.added + result.removed ==> !filter.Matches(c.points))
  {
    var d := FilterChanges(result, filter);
    if !d.IsEmpty() {
      var c := if d.added != [] then d.added[0] else d.removed[0];
      assert c in result.added + result.removed && filter.Matches(c.points);
    }
  }

  function Sample(code: string, points: real): Course {
    Course(code, "Course " + code, points, "https://example.com/" + code, "Faculty")
  }

  /** An exact 2.5-point filter keeps only the 2.5-point course on each
      side. */
  lemma ExactFilterExample()
    ensures var result := SyncResult([Sample("A", 2.5), Sample("B", 10.0)], [Sample("C", 2.5), Sample("D", 5.0)], false, 10);
      FilterChanges(result, Exact(2.5)) == ScrapeDiff([Sample("A", 2.5)], [Sample("C", 2.5)])
  {
    var added, removed := [Sample("A", 2.5), Sample("B", 10.0)], [Sample("C", 2.5), Sample("D", 5.0)];
    assert Filter(added, Keeps(Exact(2.5))) == [added[0]] + Filter(added[1..], Keeps(Exact(2.5)));
    assert Filter(removed, Keeps(Exact(2.5))) == [removed[0]] + Filter(removed[1..], Keeps(Exact(2.5)));
  }

  /** A range with only an upper bound of 5 keeps the 2.5- and 5-point
      courses and drops the 10-point one. */
  lemma UpperRangeExample()
    ensures var result := SyncResult([Sample("A", 2.5), Sample("B", 5.0), Sample("C", 10.0)], [], false, 10);
      FilterChanges(result, Range(None, Some(5.0))) == ScrapeDiff([Sample("A", 2.5), Sample("B", 5.0)], [])
  {
    var added := [Sample("A", 2.5), Sample("B", 5.0), Sample("C", 10.0)];
    var keep := Keeps(Range(None, Some(5.0)));
    assert Filter(added[2..], keep) == [];
    assert Filter(added[1..], keep) == [added[1]] + Filter(added[2..], keep);
    assert Filter(added, keep) == [added[0]] + Filter(added[1..], keep);
  }

  /** Two courses with the same name but different codes are separate
      identities: one added and one removed both reach the diff. */
  lemma SameNameExample()
    ensures var one := Course("CODE1", "Same Name", 2.5, "https://example.com/1", "Faculty A");
      var two := Course("CODE2", "Same Name", 2.5, "https://example.com/2", "Faculty B");
      var d := FilterChanges(SyncResult([one], [two], false, 10), Exact(2.5));
      d == ScrapeDiff([one], [two]) && d.TotalChanges() == 2
  {
    var one := Course("CODE1", "Same Name", 2.5, "https://example.com/1", "Faculty A");
    var two := Course("CODE2", "Same Name", 2.5, "https://example.com/2", "Faculty B");
    FilterChangesKeepsAll(SyncResult([one], [two], false, 10), Exact(2.5));
  }
}
