/**
  The course store and run ledger (src/db.rs). The `courses` table becomes a
  map from course code to course, with the first-seen and last-seen
  timestamps in two maps over the same keys; the `change_log` and `run_log`
  tables are append-only sequences whose auto-increment ids count from 1.
  SQL, the connection and the migrations are not modelled; timestamps are
  opaque strings passed in by the caller.
 */
module Db {
  import opened Wrappers
  import opened Models

  /** An RFC 3339 timestamp, as the store keeps it. */
  type Timestamp = string

  /** The largest `limit` below which `limit as i64` is non-negative. */
  const I64Bound: nat := 0x8000_0000_0000_0000

  /** The size of `usize`. */
  const UsizeBound: nat := 0x1_0000_0000_0000_0000

  // ---------------------------------------------------------------------
  // Records

  /** A row of `change_log`. */
  datatype ChangeEntry = ChangeEntry(id: nat, courseCode: string, changeType: string, course: Course, timestamp: Timestamp)

  /** What one scrape run reports to the ledger (`RunLog`). */
  datatype RunLog = RunLog(
    totalCoursesFetched: nat,
    rawAddedCount: nat,
    rawRemovedCount: nat,
    filteredAddedCount: nat,
    filteredRemovedCount: nat,
    filterUsed: string,
    notificationSent: bool,
    isFirstRun: bool,
    addedCourses: seq<string>,
    removedCourses: seq<string>,
    durationMs: nat)

  /** A row of `run_log`: the run with its id and time (`RunLogEntry`). */
  datatype RunLogEntry = RunLogEntry(id: nat, timestamp: Timestamp, run: RunLog)

  /** A stored course with its timestamps, for the web page (`CourseDisplay`). */
  datatype CourseDisplay = CourseDisplay(
    code: string, name: string, points: real, faculty: string, url: string,
    firstSeenAt: Timestamp, lastSeenAt: Timestamp)

  /** The outcome of one synchronisation (`SyncResult`). */
  datatype SyncResult = SyncResult(added: seq<Course>, removed: seq<Course>, isFirstRun: bool, totalCourses: nat)
  {
    /** `has_changes`: something was added or removed. */
    predicate HasChanges() {
      added != [] || removed != []
    }
  }

  /** The `change_log` row that records a change. */
  function ChangeRow(id: nat, change: CourseChange, now: Timestamp): (e: ChangeEntry)
    ensures e.id == id && e.course == change.course && e.courseCode == change.course.code
    ensures e.changeType == (if change.Added? then "added" else "removed")
  {
    ChangeEntry(id, change.course.code, change.ChangeType(), change.course, now)
  }

  /** `log` with rows appended that record the courses of `cs` as added
      (or removed), one after the other, under the ids that follow it. */
  function AppendRows(log: seq<ChangeEntry>, cs: seq<Course>, added: bool, now: Timestamp): (r: seq<ChangeEntry>)
    ensures |r| == |log| + |cs| && r[..|log|] == log
    ensures forall i :: 0 <= i < |cs| ==> r[|log| + i] == ChangeRow(|log| + i + 1, if added then Added(cs[i]) else Removed(cs[i]), now)
  {
    log + seq(|cs|, i requires 0 <= i < |cs| => ChangeRow(|log| + i + 1, if added then Added(cs[i]) else Removed(cs[i]), now))
  }

  /** Appending the row of one more course to a log that ends with the rows
      of the courses before it gives a log that ends with the rows of all. */
  lemma ChangeLogSnoc(log0: seq<ChangeEntry>, cs: seq<Course>, c: Course, added: bool, now: Timestamp, log1: seq<ChangeEntry>, log2: seq<ChangeEntry>)
    requires log1 == AppendRows(log0, cs, added, now)
    requires log2 == log1 + [ChangeRow(|log1| + 1, if added then Added(c) else Removed(c), now)]
    ensures log2 == AppendRows(log0, cs + [c], added, now)
  {
    assert (cs + [c])[..|cs|] == cs;
  }

  // ---------------------------------------------------------------------
  // What a synchronisation leaves behind

  /** The codes of a list of courses. */
  function Codes(cs: seq<Course>): set<string> {
    set c | c in cs :: c.code
  }

  lemma CodesEmpty(cs: seq<Course>)
    ensures Codes(cs) == {} <==> cs == []
  {
    if cs != [] {
      assert cs[0].code in Codes(cs);
    }
  }

  lemma CodesSnoc(cs: seq<Course>, c: Course)
    ensures Codes(cs + [c]) == Codes(cs) + {c.code}
  {
    assert forall x :: x in cs + [c] <==> x in cs || x == c;
  }

  /** The store that upserting the first `n` courses one after the other
      into an empty store gives: each code maps to the last course with
      that code. */
  function LatestOf(cs: seq<Course>, n: nat): map<string, Course>
    requires n <= |cs|
  {
    if n == 0 then map[] else LatestOf(cs, n - 1)[cs[n - 1].code := cs[n - 1]]
  }

  /** The store that upserting all the courses gives. */
  function Latest(cs: seq<Course>): map<string, Course> {
    LatestOf(cs, |cs|)
  }

  /** Its keys are the codes of the courses, each the key of its own
      course. */
  lemma {:induction false} LatestKeys(cs: seq<Course>, n: nat)
    requires n <= |cs|
    ensures LatestOf(cs, n).Keys == Codes(cs[..n])
    ensures forall code :: code in LatestOf(cs, n) ==> LatestOf(cs, n)[code].code == code
  {
    if n > 0 {
      LatestKeys(cs, n - 1);
      CodesStep(cs, n - 1);
    } else {
      assert cs[..0] == [];
    }
  }

  /** A code is in a store grown from `m0` by upserting the first `n`
      courses exactly when it was in `m0` or is the code of one of them. */
  lemma LatestHas(m: map<string, Course>, m0: map<string, Course>, cs: seq<Course>, n: nat, code: string)
    requires n <= |cs| && m == m0 + LatestOf(cs, n)
    ensures code in m <==> code in m0 || code in Codes(cs[..n])
  {
    LatestKeys(cs, n);
  }

  /** The last course with a code wins: what a code maps to is one of the
      first `n` courses with no later one of that code among them. */
  lemma {:induction false} LatestLastWins(cs: seq<Course>, n: nat, code: string)
    requires n <= |cs| && code in LatestOf(cs, n)
    ensures exists i :: 0 <= i < n && cs[i] == LatestOf(cs, n)[code] && forall j :: i < j < n ==> cs[j].code != code
  {
    if code == cs[n - 1].code {
      assert cs[n - 1] == LatestOf(cs, n)[code];
    } else {
      LatestLastWins(cs, n - 1, code);
      var i :| 0 <= i < n - 1 && cs[i] == LatestOf(cs, n - 1)[code] && forall j :: i < j < n - 1 ==> cs[j].code != code;
      assert cs[i] == LatestOf(cs, n)[code];
    }
  }

  /** The courses among the first `n` that an upsert loop reports as new
      against the codes already stored: the first course of each code that
      is not stored, in input order. */
  function ArrivalsOf(known: set<string>, cs: seq<Course>, n: nat): seq<Course>
    requires n <= |cs|
  {
    if n == 0 then []
    else if cs[n - 1].code in known || cs[n - 1].code in Codes(cs[..n - 1]) then ArrivalsOf(known, cs, n - 1)
    else ArrivalsOf(known, cs, n - 1) + [cs[n - 1]]
  }

  /** The arrivals among all the courses. */
  function Arrivals(known: set<string>, cs: seq<Course>): seq<Course> {
    ArrivalsOf(known, cs, |cs|)
  }

  /** One arrival per code that was not known. */
  lemma {:induction false} ArrivalsCodes(known: set<string>, cs: seq<Course>, n: nat)
    requires n <= |cs|
    ensures Codes(ArrivalsOf(known, cs, n)) == Codes(cs[..n]) - known
  {
    if n > 0 {
      ArrivalsCodes(known, cs, n - 1);
      CodesStep(cs, n - 1);
      var a, last := ArrivalsOf(known, cs, n - 1), cs[n - 1];
      if !(last.code in known || last.code in Codes(cs[..n - 1])) {
        CodesSnoc(a, last);
      }
    } else {
      assert cs[..0] == [];
    }
  }

  /** No two arrivals share a code. */
  lemma {:induction false} ArrivalsDistinct(known: set<string>, cs: seq<Course>, n: nat)
    requires n <= |cs|
    ensures DistinctCodes(ArrivalsOf(known, cs, n))
  {
    if n > 0 {
      ArrivalsDistinct(known, cs, n - 1);
      ArrivalsCodes(known, cs, n - 1);
      var a, last := ArrivalsOf(known, cs, n - 1), cs[n - 1];
      if !(last.code in known || last.code in Codes(cs[..n - 1])) {
        forall i | 0 <= i < |a|
          ensures a[i].code != last.code
        {
          assert a[i] in a;
          assert a[i].code in Codes(a);
        }
      }
    }
  }

  /** An arrival has a code that was not known and is the first course of
      that code in the input. */
  lemma {:induction false} ArrivalsFirst(known: set<string>, cs: seq<Course>, n: nat, c: Course)
    requires n <= |cs| && c in ArrivalsOf(known, cs, n)
    ensures c.code !in known
    ensures exists i :: 0 <= i < n && cs[i] == c && forall j :: 0 <= j < i ==> cs[j].code != c.code
  {
    var a, last := ArrivalsOf(known, cs, n - 1), cs[n - 1];
    if c in a {
      ArrivalsFirst(known, cs, n - 1, c);
    } else {
      assert !(last.code in known || last.code in Codes(cs[..n - 1])) && c == last;
      forall j | 0 <= j < n - 1
        ensures cs[j].code != c.code
      {
        assert cs[j] in cs[..n - 1];
      }
    }
  }

  /** Nothing arrives exactly when every code of the input is known. */
  lemma ArrivalsEmpty(known: set<string>, cs: seq<Course>)
    ensures Arrivals(known, cs) == [] <==> Codes(cs) <= known
  {
    var a := Arrivals(known, cs);
    assert Codes(a) == Codes(cs) - known by {
      ArrivalsCodes(known, cs, |cs|);
      assert cs[..|cs|] == cs;
    }
    if a != [] {
      assert a[0] in a;
      assert a[0].code in Codes(cs) - known;
    } else {
      forall x | x in Codes(cs)
        ensures x in known
      {
        assert x !in Codes(a);
      }
    }
  }

  // ---------------------------------------------------------------------
  // Reading the run ledger

  /** `ORDER BY id DESC LIMIT n` over a ledger in id order: the newest `n`
      entries, newest first. */
  function NewestFirst(log: seq<RunLogEntry>, n: nat): (r: seq<RunLogEntry>)
    ensures |r| == if n < |log| then n else |log|
    ensures forall i :: 0 <= i < |r| ==> r[i] == log[|log| - 1 - i]
  {
    if n == 0 || log == [] then []
    else [log[|log| - 1]] + NewestFirst(log[..|log| - 1], n - 1)
  }

  /** `WHERE id = ?`: the entry with that id, if any. */
  function FindRun(log: seq<RunLogEntry>, id: int): (r: Option<RunLogEntry>)
    ensures r.None? <==> forall e :: e in log ==> e.id != id
    ensures r.Some? ==> r.value in log && r.value.id == id
  {
    if log == [] then None
    else if log[0].id == id then Some(log[0])
    else FindRun(log[1..], id)
  }

  // ---------------------------------------------------------------------
  // The order of `ORDER BY code`

  /** SQLite's BINARY collation on UTF-8 text: code-point order,
      character by character, a prefix first. */
  predicate CodeLe(a: string, b: string) {
    a == [] || (b != [] && (a[0] < b[0] || (a[0] == b[0] && CodeLe(a[1..], b[1..]))))
  }

  lemma {:induction false} CodeLeTotal(a: string, b: string)
    ensures CodeLe(a, b) || CodeLe(b, a)
  {
    if a != [] && b != [] && a[0] == b[0] {
      CodeLeTotal(a[1..], b[1..]);
    }
  }

  lemma {:induction false} CodeLeAntisymmetric(a: string, b: string)
    requires CodeLe(a, b) && CodeLe(b, a)
    ensures a == b
  {
    if a != [] && b != [] {
      CodeLeAntisymmetric(a[1..], b[1..]);
      assert a == [a[0]] + a[1..] && b == [b[0]] + b[1..];
    }
  }

  lemma {:induction false} CodeLeTransitive(a: string, b: string, c: string)
    requires CodeLe(a, b) && CodeLe(b, c)
    ensures CodeLe(a, c)
  {
    if a != [] && b != [] && c != [] && a[0] == b[0] && b[0] == c[0] {
      CodeLeTransitive(a[1..], b[1..], c[1..]);
    }
  }

  /** Every non-empty finite set of codes has a least one. */
  lemma {:induction false} LeastCodeExists(codes: set<string>)
    requires codes != {}
    ensures exists k :: k in codes && forall j :: j in codes ==> CodeLe(k, j)
    decreases |codes|
  {
    var x :| x in codes;
    var rest := codes - {x};
    if rest == {} {
      assert codes == {x};
      CodeLeTotal(x, x);
    } else {
      LeastCodeExists(rest);
      var k :| k in rest && forall j :: j in rest ==> CodeLe(k, j);
      CodeLeTotal(k, x);
      if CodeLe(k, x) {
        assert forall j :: j in codes ==> CodeLe(k, j);
      } else {
        forall j | j in codes
          ensures CodeLe(x, j)
        {
          if j == x {
            CodeLeTotal(x, x);
          } else {
            CodeLeTransitive(x, k, j);
          }
        }
      }
    }
  }

  // ---------------------------------------------------------------------
  // Steps of the synchronisation

  /** The course table, the courses reported so far and the change log,
      as the loops of `sync_courses` leave them. */
  datatype Pass = Pass(
    courses: map<string, Course>,
    firstSeen: map<string, Timestamp>,
    lastSeen: map<string, Timestamp>,
    reported: seq<Course>,
    log: seq<ChangeEntry>)

  /** No two of the courses share a code. */
  predicate DistinctCodes(cs: seq<Course>) {
    forall i, j :: 0 <= i < j < |cs| ==> cs[i].code != cs[j].code
  }

  /** One round of the upsert loop: the course is upserted and, if its code
      was new and changes are reported, reported and logged as added. */
  function UpsertOnce(p: Pass, c: Course, now: Timestamp, report: bool): Pass {
    var isNew := c.code !in p.courses;
    Pass(p.courses[c.code := c],
         if isNew then p.firstSeen[c.code := now] else p.firstSeen,
         p.lastSeen[c.code := now],
         if isNew && report then p.reported + [c] else p.reported,
         if isNew && report then p.log + [ChangeRow(|p.log| + 1, Added(c), now)] else p.log)
  }

  /** The first `n` rounds of the upsert loop over `cs`. */
  function UpsertPass(p: Pass, cs: seq<Course>, n: nat, now: Timestamp, report: bool): Pass
    requires n <= |cs|
  {
    if n == 0 then p else UpsertOnce(UpsertPass(p, cs, n - 1, now, report), cs[n - 1], now, report)
  }

  /** One round of the removal loop: a stored code is deleted and, if
      changes are reported, its course is logged and reported as removed;
      an absent code changes nothing. */
  function RemoveOnce(p: Pass, code: string, now: Timestamp, report: bool): Pass {
    if code in p.courses then
      var c := p.courses[code];
      Pass(p.courses - {code}, p.firstSeen - {code}, p.lastSeen - {code},
           if report then p.reported + [c] else p.reported,
           if report then p.log + [ChangeRow(|p.log| + 1, Removed(c), now)] else p.log)
    else p
  }

  /** The rounds of the removal loop over the codes of `order`, in turn. */
  function RemovePass(p: Pass, order: seq<string>, now: Timestamp, report: bool): Pass {
    if order == [] then p
    else RemoveOnce(RemovePass(p, order[..|order| - 1], now, report), order[|order| - 1], now, report)
  }

  /** One more course adds its code. */
  lemma CodesStep(cs: seq<Course>, i: nat)
    requires i < |cs|
    ensures Codes(cs[..i + 1]) == Codes(cs[..i]) + {cs[i].code}
  {
    assert cs[..i + 1] == cs[..i] + [cs[i]];
    CodesSnoc(cs[..i], cs[i]);
  }

  /** After `n` rounds the table holds the latest course of each code seen,
      over the original table. */
  lemma {:induction false} UpsertPassCourses(p: Pass, cs: seq<Course>, n: nat, now: Timestamp, report: bool)
    requires n <= |cs|
    ensures UpsertPass(p, cs, n, now, report).courses == p.courses + LatestOf(cs, n)
  {
    if n > 0 {
      UpsertPassCourses(p, cs, n - 1, now, report);
      MergeUpdate(p.courses, LatestOf(cs, n - 1), cs[n - 1].code, cs[n - 1]);
    }
  }

  /** Updating a merged map updates its right-hand side. */
  lemma MergeUpdate(m0: map<string, Course>, m: map<string, Course>, k: string, v: Course)
    ensures (m0 + m)[k := v] == m0 + m[k := v]
  {
  }

  /** A stored code keeps its first-seen time; a new one is first seen
      `now`. */
  lemma {:induction false} UpsertPassFirstSeen(p: Pass, cs: seq<Course>, n: nat, now: Timestamp, report: bool)
    requires n <= |cs|
    requires p.firstSeen.Keys == p.courses.Keys
    ensures var q := UpsertPass(p, cs, n, now, report);
      && q.firstSeen.Keys == q.courses.Keys
      && (forall code :: code in p.firstSeen ==> code in q.firstSeen && q.firstSeen[code] == p.firstSeen[code])
      && (forall code :: code in q.firstSeen && code !in p.firstSeen ==> q.firstSeen[code] == now)
  {
    if n > 0 {
      UpsertPassFirstSeen(p, cs, n - 1, now, report);
    }
  }

  /** `l` is `l0` with every code of `seen` last seen `now`. */
  ghost predicate Stamped(l0: map<string, Timestamp>, seen: set<string>, l: map<string, Timestamp>, now: Timestamp) {
    && l.Keys == l0.Keys + seen
    && (forall code :: code in seen ==> l[code] == now)
    && (forall code :: code in l0 && code !in seen ==> l[code] == l0[code])
  }

  lemma StampedStep(l0: map<string, Timestamp>, seen: set<string>, l: map<string, Timestamp>, code: string, now: Timestamp)
    requires Stamped(l0, seen, l, now)
    ensures Stamped(l0, seen + {code}, l[code := now], now)
  {
  }

  /** Every code seen is last seen `now`; the other codes keep their time. */
  lemma {:induction false} UpsertPassLastSeen(p: Pass, cs: seq<Course>, n: nat, now: Timestamp, report: bool)
    requires n <= |cs|
    ensures Stamped(p.lastSeen, Codes(cs[..n]), UpsertPass(p, cs, n, now, report).lastSeen, now)
  {
    if n > 0 {
      UpsertPassLastSeen(p, cs, n - 1, now, report);
      CodesStep(cs, n - 1);
      StampedStep(p.lastSeen, Codes(cs[..n - 1]), UpsertPass(p, cs, n - 1, now, report).lastSeen, cs[n - 1].code, now);
    } else {
      assert cs[..0] == [];
    }
  }

  /** After `n` rounds the reported courses are the arrivals among the
      first `n` courses, or none when nothing is reported. */
  lemma {:induction false} UpsertPassReported(p: Pass, cs: seq<Course>, n: nat, now: Timestamp, report: bool)
    requires n <= |cs|
    requires p.reported == []
    ensures UpsertPass(p, cs, n, now, report).reported == if report then ArrivalsOf(p.courses.Keys, cs, n) else []
  {
    if n > 0 {
      var c, known := cs[n - 1], p.courses.Keys;
      var isNew := !(c.code in known || c.code in Codes(cs[..n - 1]));
      var before, after := UpsertPass(p, cs, n - 1, now, report).reported, UpsertPass(p, cs, n, now, report).reported;
      assert before == if report then ArrivalsOf(known, cs, n - 1) else [] by {
        UpsertPassReported(p, cs, n - 1, now, report);
      }
      assert after == if isNew && report then before + [c] else before by {
        UpsertPassCourses(p, cs, n - 1, now, report);
        LatestHas(UpsertPass(p, cs, n - 1, now, report).courses, p.courses, cs, n - 1, c.code);
        UpsertPassStep(p, cs, n, now, report);
      }
      ReportedStep(before, after, ArrivalsOf(known, cs, n - 1), ArrivalsOf(known, cs, n), c, report, isNew);
    }
  }


  /** What round `n` of the upsert loop reports. */
  lemma UpsertPassStep(p: Pass, cs: seq<Course>, n: nat, now: Timestamp, report: bool)
    requires 0 < n <= |cs|
    ensures var q, c := UpsertPass(p, cs, n - 1, now, report), cs[n - 1];
      UpsertPass(p, cs, n, now, report).reported == if c.code !in q.courses && report then q.reported + [c] else q.reported
  {
  }

  /** The bookkeeping of one round of reports. */
  lemma ReportedStep(before: seq<Course>, after: seq<Course>, a0: seq<Course>, a1: seq<Course>, c: Course, report: bool, isNew: bool)
    requires before == if report then a0 else []
    requires after == if isNew && report then before + [c] else before
    requires a1 == if isNew then a0 + [c] else a0
    ensures after == if report then a1 else []
  {
  }


  /** One round keeps the log ending with the rows of the courses
      reported. */
  lemma UpsertOnceLog(q: Pass, c: Course, now: Timestamp, report: bool, log0: seq<ChangeEntry>)
    requires q.log == AppendRows(log0, q.reported, true, now)
    ensures var r := UpsertOnce(q, c, now, report);
      r.log == AppendRows(log0, r.reported, true, now)
  {
    var r := UpsertOnce(q, c, now, report);
    if c.code !in q.courses && report {
      assert r.reported == q.reported + [c];
      assert r.log == q.log + [ChangeRow(|q.log| + 1, Added(c), now)];
      ChangeLogSnoc(log0, q.reported, c, true, now, q.log, r.log);
    } else {
      assert r.reported == q.reported;
      assert r.log == q.log;
    }
  }

  /** The log grows by exactly the rows of the courses reported. */
  lemma {:induction false} UpsertPassLog(p: Pass, cs: seq<Course>, n: nat, now: Timestamp, report: bool)
    requires n <= |cs|
    requires p.reported == []
    ensures var q := UpsertPass(p, cs, n, now, report);
      q.log == AppendRows(p.log, q.reported, true, now)
  {
    if n > 0 {
      UpsertPassLog(p, cs, n - 1, now, report);
      UpsertOnceLog(UpsertPass(p, cs, n - 1, now, report), cs[n - 1], now, report, p.log);
    }
  }

  /** What `upsert_course` and `log_change` do in one round of the upsert
      loop is that round. */
  lemma UpsertOnceState(p: Pass, c: Course, now: Timestamp, report: bool, isNew: bool, q: Pass)
    requires isNew <==> c.code !in p.courses
    requires q.courses == p.courses[c.code := c]
    requires q.firstSeen == (if isNew then p.firstSeen[c.code := now] else p.firstSeen)
    requires q.lastSeen == p.lastSeen[c.code := now]
    requires isNew && report ==> q.reported == p.reported + [c] && q.log == p.log + [ChangeRow(|p.log| + 1, Added(c), now)]
    requires !(isNew && report) ==> q.reported == p.reported && q.log == p.log
    ensures q == UpsertOnce(p, c, now, report)
  {
  }

  /** What `remove_course` and `log_change` do in one round of the removal
      loop is that round. */
  lemma RemoveOnceState(p: Pass, code: string, now: Timestamp, report: bool, gone: Option<Course>, q: Pass)
    requires gone == if code in p.courses then Some(p.courses[code]) else None
    requires gone.Some? ==> q.courses == p.courses - {code} && q.firstSeen == p.firstSeen - {code} && q.lastSeen == p.lastSeen - {code}
    requires gone.None? ==> q.courses == p.courses && q.firstSeen == p.firstSeen && q.lastSeen == p.lastSeen
    requires gone.Some? && report ==> q.reported == p.reported + [gone.value] && q.log == p.log + [ChangeRow(|p.log| + 1, Removed(gone.value), now)]
    requires !(gone.Some? && report) ==> q.reported == p.reported && q.log == p.log
    ensures q == RemoveOnce(p, code, now, report)
  {
  }

  /** One more code in the removal loop is one more round. */
  lemma RemovePassSnoc(p: Pass, order: seq<string>, code: string, now: Timestamp, report: bool)
    ensures RemovePass(p, order + [code], now, report) == RemoveOnce(RemovePass(p, order, now, report), code, now, report)
  {
    assert (order + [code])[..|order|] == order;
  }

  /** The codes of `order`, each once, are exactly `ks`. */
  ghost predicate Enumerates(order: seq<string>, ks: set<string>) {
    && (forall i, j :: 0 <= i < j < |order| ==> order[i] != order[j])
    && (forall k :: k in order <==> k in ks)
  }

  /** One more code, not yet enumerated, extends an enumeration. */
  lemma EnumeratesSnoc(order: seq<string>, ks: set<string>, k: string)
    requires Enumerates(order, ks) && k !in ks
    ensures Enumerates(order + [k], ks + {k})
  {
    assert forall x :: x in order + [k] <==> x in order || x == k;
  }

  /** Dropping the last code of an enumeration enumerates the rest. */
  lemma EnumeratesInit(order: seq<string>, ks: set<string>)
    requires order != [] && Enumerates(order, ks)
    ensures Enumerates(order[..|order| - 1], ks - {order[|order| - 1]})
    ensures order[|order| - 1] in ks
  {
    var init, last := order[..|order| - 1], order[|order| - 1];
    forall k
      ensures k in init <==> k in ks - {last}
    {
      if k in init {
        var i :| 0 <= i < |init| && init[i] == k;
        assert order[i] == k;
      }
      assert k in order ==> k in init || k == last;
    }
  }

  /** The removal rounds over an enumeration of stored codes delete exactly
      those codes. */
  lemma {:induction false} RemovePassTable(p: Pass, order: seq<string>, ks: set<string>, now: Timestamp, report: bool)
    requires Enumerates(order, ks) && ks <= p.courses.Keys
    ensures var q := RemovePass(p, order, now, report);
      q.courses == p.courses - ks && q.firstSeen == p.firstSeen - ks && q.lastSeen == p.lastSeen - ks
  {
    if order != [] {
      var last := order[|order| - 1];
      EnumeratesInit(order, ks);
      RemovePassTable(p, order[..|order| - 1], ks - {last}, now, report);
    }
  }

  /** When reporting, each deleted course is reported once; otherwise
      nothing is. */
  lemma {:induction false} RemovePassReported(p: Pass, order: seq<string>, ks: set<string>, now: Timestamp, report: bool)
    requires p.reported == []
    requires Enumerates(order, ks) && ks <= p.courses.Keys
    requires forall code :: code in p.courses ==> p.courses[code].code == code
    ensures var q := RemovePass(p, order, now, report);
      && (report ==> Codes(q.reported) == ks)
      && (!report ==> q.reported == [])
      && DistinctCodes(q.reported)
      && (forall c :: c in q.reported ==> c.code in p.courses && p.courses[c.code] == c)
  {
    if order != [] {
      var init, last := order[..|order| - 1], order[|order| - 1];
      EnumeratesInit(order, ks);
      RemovePassReported(p, init, ks - {last}, now, report);
      RemovePassTable(p, init, ks - {last}, now, report);
      var q0 := RemovePass(p, init, now, report);
      var c := p.courses[last];
      assert last in q0.courses && q0.courses[last] == c;
      if report {
        CodesSnoc(q0.reported, c);
        forall i | 0 <= i < |q0.reported|
          ensures q0.reported[i].code != last
        {
          assert q0.reported[i] in q0.reported;
          assert q0.reported[i].code in Codes(q0.reported);
        }
      }
    }
  }

  /** One round keeps the log ending with the rows of the courses
      reported. */
  lemma RemoveOnceLog(q: Pass, code: string, now: Timestamp, report: bool, log0: seq<ChangeEntry>)
    requires q.log == AppendRows(log0, q.reported, false, now)
    ensures var r := RemoveOnce(q, code, now, report);
      r.log == AppendRows(log0, r.reported, false, now)
  {
    var r := RemoveOnce(q, code, now, report);
    if code in q.courses && report {
      var c := q.courses[code];
      assert r.reported == q.reported + [c];
      assert r.log == q.log + [ChangeRow(|q.log| + 1, Removed(c), now)];
      ChangeLogSnoc(log0, q.reported, c, false, now, q.log, r.log);
    } else {
      assert r.reported == q.reported;
      assert r.log == q.log;
    }
  }

  /** The log grows by exactly the rows of the courses reported. */
  lemma {:induction false} RemovePassLog(p: Pass, order: seq<string>, now: Timestamp, report: bool)
    requires p.reported == []
    ensures var q := RemovePass(p, order, now, report);
      q.log == AppendRows(p.log, q.reported, false, now)
  {
    if order != [] {
      var init := order[..|order| - 1];
      RemovePassLog(p, init, now, report);
      RemoveOnceLog(RemovePass(p, init, now, report), order[|order| - 1], now, report, p.log);
    }
  }

  /** The same, for the outcome `q` of the removal loop. */
  lemma RemovePassLogOf(p: Pass, order: seq<string>, now: Timestamp, report: bool, q: Pass)
    requires p.reported == []
    requires q == RemovePass(p, order, now, report)
    ensures q.log == AppendRows(p.log, q.reported, false, now)
  {
    RemovePassLog(p, order, now, report);
  }

  /** Removing the stored codes that are not in the input from the store
      the upserts left leaves the latest course of each input code. */
  lemma AfterRemovals(existing: map<string, Course>, cs: seq<Course>)
    ensures (existing + Latest(cs)) - (existing.Keys - Codes(cs)) == Latest(cs)
  {
    LatestKeys(cs, |cs|);
    assert cs[..|cs|] == cs;
  }

  /** The table the two loops of `sync_courses` leave behind, from the
      table `p0` they start on: the upsert loop leads to `p1`, the removal
      loop then deletes the stored codes not among the incoming ones and
      leads to `p2`. The store holds the latest incoming course per code,
      every code was seen `now`, and a first sighting is kept unless the
      code is new. */
  lemma SyncTable(p0: Pass, p1: Pass, current: seq<Course>, order: seq<string>, toRemove: set<string>,
                  now: Timestamp, report: bool, p2: Pass)
    requires p0.firstSeen.Keys == p0.courses.Keys && p0.lastSeen.Keys == p0.courses.Keys
    requires (p1.courses, p1.firstSeen, p1.lastSeen) == var q := UpsertPass(p0, current, |current|, now, report); (q.courses, q.firstSeen, q.lastSeen)
    requires toRemove == p0.courses.Keys - Codes(current)
    requires Enumerates(order, toRemove)
    requires p2 == RemovePass(p1, order, now, report)
    ensures p2.courses == Latest(current)
    ensures forall code :: code in p2.lastSeen ==> p2.lastSeen[code] == now
    ensures forall code :: code in p2.firstSeen && code in p0.firstSeen ==> p2.firstSeen[code] == p0.firstSeen[code]
    ensures forall code :: code in p2.firstSeen && code !in p0.firstSeen ==> p2.firstSeen[code] == now
  {
    assert current[..|current|] == current;
    UpsertPassCourses(p0, current, |current|, now, report);
    UpsertPassFirstSeen(p0, current, |current|, now, report);
    UpsertPassLastSeen(p0, current, |current|, now, report);
    LatestKeys(current, |current|);
    RemovePassTable(p1, order, toRemove, now, report);
    AfterRemovals(p0.courses, current);
  }

  /** What the two loops of `sync_courses` report: the upsert loop the
      arrivals in input order, the removal loop each deleted course once,
      as it was stored. */
  lemma SyncReports(p0: Pass, p1: Pass, current: seq<Course>, order: seq<string>, toRemove: set<string>,
                    now: Timestamp, report: bool, added: seq<Course>, p2: Pass)
    requires p0.reported == []
    requires forall code :: code in p0.courses ==> p0.courses[code].code == code
    requires (p1.courses, added) == var q := UpsertPass(p0, current, |current|, now, report); (q.courses, q.reported)
    requires p1.reported == []
    requires toRemove == p0.courses.Keys - Codes(current)
    requires Enumerates(order, toRemove)
    requires p2 == RemovePass(p1, order, now, report)
    ensures added == if report then Arrivals(p0.courses.Keys, current) else []
    ensures !report ==> p2.reported == []
    ensures report ==> Codes(p2.reported) == p0.courses.Keys - Codes(current)
    ensures DistinctCodes(p2.reported)
    ensures forall c :: c in p2.reported ==> c.code in p0.courses && p0.courses[c.code] == c
  {
    assert added == if report then Arrivals(p0.courses.Keys, current) else [] by {
      UpsertPassReported(p0, current, |current|, now, report);
    }
    assert && (forall code :: code in p1.courses ==> p1.courses[code].code == code)
           && (forall code :: code in toRemove ==> code in p1.courses && p1.courses[code] == p0.courses[code]) by {
      assert current[..|current|] == current;
      UpsertPassCourses(p0, current, |current|, now, report);
      LatestKeys(current, |current|);
    }
    RemovePassReported(p1, order, toRemove, now, report);
    forall c | c in p2.reported
      ensures c.code in p0.courses && p0.courses[c.code] == c
    {
      assert c.code in toRemove;
    }
  }

  /** The change log the two loops of `sync_courses` leave behind: one
      "added" row per arrival, then one "removed" row per deletion, with
      consecutive ids. */
  lemma SyncLog(p0: Pass, p1: Pass, current: seq<Course>, order: seq<string>,
                now: Timestamp, report: bool, added: seq<Course>, p2: Pass)
    requires p0.reported == []
    requires (added, p1.log) == var q := UpsertPass(p0, current, |current|, now, report); (q.reported, q.log)
    requires p1.reported == []
    requires p2 == RemovePass(p1, order, now, report)
    ensures p2.log == AppendRows(AppendRows(p0.log, added, true, now), p2.reported, false, now)
  {
    assert p1.log == AppendRows(p0.log, added, true, now) by {
      UpsertPassLog(p0, current, |current|, now, report);
    }
    RemovePassLogOf(p1, order, now, report, p2);
  }

  /** A sync from the table `p0` over the incoming courses `current` at
      `now` reported `added` and led to `p2` (whose `reported` holds the
      removed courses): the store holds the latest incoming course per
      code; every code was seen `now`; a first sighting is kept unless the
      code is new; when reporting, the arrivals are reported in input order
      and each stored code missing from the input is reported once with its
      stored course; otherwise nothing is reported; the log gained one
      "added" row per arrival, then one "removed" row per removal. */
  ghost predicate Synced(p0: Pass, current: seq<Course>, now: Timestamp, report: bool, added: seq<Course>, p2: Pass) {
    && p2.courses == Latest(current)
    && (forall code :: code in p2.lastSeen ==> p2.lastSeen[code] == now)
    && (forall code :: code in p2.firstSeen && code in p0.firstSeen ==> p2.firstSeen[code] == p0.firstSeen[code])
    && (forall code :: code in p2.firstSeen && code !in p0.firstSeen ==> p2.firstSeen[code] == now)
    && added == (if report then Arrivals(p0.courses.Keys, current) else [])
    && (!report ==> p2.reported == [])
    && (report ==> Codes(p2.reported) == p0.courses.Keys - Codes(current))
    && DistinctCodes(p2.reported)
    && (forall c :: c in p2.reported ==> c.code in p0.courses && p0.courses[c.code] == c)
    && p2.log == AppendRows(AppendRows(p0.log, added, true, now), p2.reported, false, now)
  }

  /** The two loops of `sync_courses` make a sync: the upsert loop leads
      from `p0` to `p1`, the removal loop deletes the stored codes not
      among the incoming ones and leads to `p2`. */
  lemma SyncOutcome(p0: Pass, p1: Pass, current: seq<Course>, order: seq<string>, toRemove: set<string>,
                    now: Timestamp, report: bool, added: seq<Course>, p2: Pass)
    requires p0.reported == []
    requires p0.firstSeen.Keys == p0.courses.Keys && p0.lastSeen.Keys == p0.courses.Keys
    requires forall code :: code in p0.courses ==> p0.courses[code].code == code
    requires Pass(p1.courses, p1.firstSeen, p1.lastSeen, added, p1.log) == UpsertPass(p0, current, |current|, now, report)
    requires p1.reported == []
    requires toRemove == p0.courses.Keys - Codes(current)
    requires Enumerates(order, toRemove)
    requires p2 == RemovePass(p1, order, now, report)
    ensures Synced(p0, current, now, report, added, p2)
  {
    SyncTable(p0, p1, current, order, toRemove, now, report, p2);
    SyncReports(p0, p1, current, order, toRemove, now, report, added, p2);
    SyncLog(p0, p1, current, order, now, report, added, p2);
  }

  /** After a sync the stored codes are exactly the incoming ones, and a
      code given more than once keeps its last course. */
  lemma SyncedStore(p0: Pass, current: seq<Course>, now: Timestamp, report: bool, added: seq<Course>, p2: Pass)
    requires Synced(p0, current, now, report, added, p2)
    ensures p2.courses.Keys == Codes(current)
    ensures forall code :: code in p2.courses ==>
      exists i :: 0 <= i < |current| && current[i] == p2.courses[code] && forall j :: i < j < |current| ==> current[j].code != code
  {
    LatestKeys(current, |current|);
    assert current[..|current|] == current;
    forall code | code in p2.courses
      ensures exists i :: 0 <= i < |current| && current[i] == p2.courses[code] && forall j :: i < j < |current| ==> current[j].code != code
    {
      LatestLastWins(current, |current|, code);
    }
  }

  /** No code is reported both as added and as removed. */
  lemma SyncedDisjoint(p0: Pass, current: seq<Course>, now: Timestamp, report: bool, added: seq<Course>, p2: Pass)
    requires Synced(p0, current, now, report, added, p2)
    ensures forall a, r :: a in added && r in p2.reported ==> a.code != r.code
  {
    if report {
      ArrivalsCodes(p0.courses.Keys, current, |current|);
      assert current[..|current|] == current;
      forall a, r | a in added && r in p2.reported
        ensures a.code != r.code
      {
        assert a.code in Codes(added) && r.code in Codes(p2.reported);
      }
    }
  }

  /** Past the first run, a sync has changes exactly when the incoming
      codes differ from the stored ones. */
  lemma SyncedChanges(p0: Pass, current: seq<Course>, now: Timestamp, added: seq<Course>, p2: Pass)
    requires Synced(p0, current, now, true, added, p2)
    ensures SyncResult(added, p2.reported, false, |current|).HasChanges() <==> Codes(current) != p0.courses.Keys
  {
    var known, incoming := p0.courses.Keys, Codes(current);
    ArrivalsEmpty(known, current);
    CodesEmpty(p2.reported);
    assert added == [] <==> incoming <= known;
    assert Codes(p2.reported) == known - incoming;
    if !(known <= incoming) {
      var k :| k in known && k !in incoming;
      assert k in Codes(p2.reported);
    }
  }

  /** On the first run nothing is reported and the change log is left as
      it was. */
  lemma SyncedQuietFirstRun(p0: Pass, current: seq<Course>, now: Timestamp, added: seq<Course>, p2: Pass)
    requires Synced(p0, current, now, false, added, p2)
    ensures added == [] && p2.reported == [] && p2.log == p0.log
  {
    AppendNothing(p0.log, true, now);
    AppendNothing(p0.log, false, now);
  }

  /** Appending the rows of no course leaves a log as it is. */
  lemma AppendNothing(log: seq<ChangeEntry>, added: bool, now: Timestamp)
    ensures AppendRows(log, [], added, now) == log
  {
    assert AppendRows(log, [], added, now)[..|log|] == log;
  }

  /** Syncing the same courses again reports nothing and logs nothing, and
      leaves the store as it was. */
  lemma SyncedAgainQuiet(p0: Pass, current: seq<Course>, now: Timestamp, report: bool, added: seq<Course>, p1: Pass,
                         later: Timestamp, again: seq<Course>, p2: Pass)
    requires Synced(p0, current, now, report, added, p1)
    requires Synced(p1, current, later, true, again, p2)
    ensures again == [] && p2.reported == [] && p2.log == p1.log && p2.courses == p1.courses
  {
    LatestKeys(current, |current|);
    assert current[..|current|] == current;
    ArrivalsEmpty(p1.courses.Keys, current);
    CodesEmpty(p2.reported);
    AppendNothing(p1.log, true, later);
    AppendNothing(p1.log, false, later);
  }

  /** `codes` is in strictly ascending order and below every code still in
      `remaining`, which it does not meet. */
  ghost predicate SortedBelow(codes: seq<string>, remaining: set<string>) {
    && (forall i, j :: 0 <= i < j < |codes| ==> CodeLe(codes[i], codes[j]) && codes[i] != codes[j])
    && (forall c, k :: c in codes && k in remaining ==> CodeLe(c, k) && c != k)
  }

  /** Moving the least remaining code to the end keeps the order. */
  lemma SortedBelowStep(codes: seq<string>, remaining: set<string>, code: string)
    requires SortedBelow(codes, remaining)
    requires code in remaining && forall j :: j in remaining ==> CodeLe(code, j)
    ensures SortedBelow(codes + [code], remaining - {code})
  {
    var next := codes + [code];
    forall c, k | c in next && k in remaining - {code}
      ensures CodeLe(c, k) && c != k
    {
      if c == code {
        if CodeLe(k, code) {
          CodeLeAntisymmetric(code, k);
        }
      }
    }
  }

  /** The code column of a list of display rows. */
  function CodeColumn(rows: seq<CourseDisplay>): (r: seq<string>)
    ensures |r| == |rows| && forall i :: 0 <= i < |rows| ==> r[i] == rows[i].code
  {
    if rows == [] then [] else [rows[0].code] + CodeColumn(rows[1..])
  }

  /** A table whose code column lists the keys in strictly ascending order
      holds each key exactly once, in that order. */
  lemma SortedColumn(keys: set<string>, codes: seq<string>, rows: seq<CourseDisplay>)
    requires |codes| == |keys|
    requires forall code :: code in codes <==> code in keys
    requires forall i :: 0 <= i < |codes| - 1 ==> CodeLe(codes[i], codes[i + 1]) && codes[i] != codes[i + 1]
    requires CodeColumn(rows) == codes
    ensures |rows| == |keys|
    ensures forall i :: 0 <= i < |rows| ==> rows[i].code in keys
    ensures forall i :: 0 <= i < |rows| - 1 ==> CodeLe(rows[i].code, rows[i + 1].code) && rows[i].code != rows[i + 1].code
    ensures forall code :: code in keys <==> code in CodeColumn(rows)
  {
    forall i | 0 <= i < |rows|
      ensures rows[i].code in keys
    {
      assert rows[i].code == codes[i];
    }
  }

  /** `ORDER BY code`: the codes of a set, each once, in ascending order. */
  method SortedCodes(keys: set<string>) returns (codes: seq<string>)
    ensures |codes| == |keys|
    ensures forall code :: code in codes <==> code in keys
    ensures forall i :: 0 <= i < |codes| - 1 ==> CodeLe(codes[i], codes[i + 1]) && codes[i] != codes[i + 1]
  {
    codes := [];
    var remaining := keys;
    while remaining != {}
      invariant remaining <= keys
      invariant |codes| + |remaining| == |keys|
      invariant forall code :: code in keys ==> (code in remaining || code in codes)
      invariant forall code :: code in codes ==> code in keys
      invariant SortedBelow(codes, remaining)
      decreases |remaining|
    {
      LeastCodeExists(remaining);
      var code :| code in remaining && forall j :: j in remaining ==> CodeLe(code, j);
      SortedBelowStep(codes, remaining, code);
      codes := codes + [code];
      remaining := remaining - {code};
    }
  }

  /** Upserting adds a row exactly when the code is new. */
  lemma UpsertCount(m: map<string, Course>, c: Course)
    ensures |m[c.code := c]| == |m| + (if c.code in m then 0 else 1)
  {
  }

  /** Removing a stored code drops exactly one row. */
  lemma RemoveCount(m: map<string, Course>, code: string)
    ensures |m - {code}| == |m| - (if code in m then 1 else 0)
  {
    assert (m - {code}).Keys == m.Keys - {code};
  }

  /** A store keyed by code, with its two timestamp maps over the same keys,
      and two append-only ledgers whose ids count from 1. */
  class Database {
    var courses: map<string, Course>
    var firstSeen: map<string, Timestamp>
    var lastSeen: map<string, Timestamp>
    var changeLog: seq<ChangeEntry>
    var runLog: seq<RunLogEntry>

    ghost predicate Valid()
      reads this
    {
      && firstSeen.Keys == courses.Keys
      && lastSeen.Keys == courses.Keys
      && (forall code :: code in courses ==> courses[code].code == code)
      && (forall i :: 0 <= i < |changeLog| ==> changeLog[i].id == i + 1)
      && (forall i :: 0 <= i < |runLog| ==> runLog[i].id == i + 1)
    }

    /** `open_in_memory`: a freshly migrated database holds nothing. */
    constructor ()
      ensures Valid()
      ensures courses == map[] && firstSeen == map[] && lastSeen == map[]
      ensures changeLog == [] && runLog == []
    {
      courses := map[];
      firstSeen := map[];
      lastSeen := map[];
      changeLog := [];
      runLog := [];
    }

    /** `get_course_count`: how many courses are stored. */
    function CourseCount(): (n: nat)
      reads this
      ensures n == 0 <==> courses == map[]
    {
      |courses|
    }

    /** `is_first_run`: nothing is stored yet. */
    predicate IsFirstRun()
      reads this
      ensures IsFirstRun() <==> courses == map[]
    {
      CourseCount() == 0
    }

    /** `get_all_courses`: the stored courses, keyed by their codes. */
    function AllCourses(): (m: map<string, Course>)
      reads this
      requires Valid()
      ensures forall code :: code in m ==> m[code].code == code
      ensures |m| == CourseCount()
    {
      courses
    }

    /** `upsert_course`: stores the course under its code. A new code gets
        both timestamps set to `now`; an existing one keeps its first-seen
        time. The result says whether the code was new. */
    method UpsertCourse(course: Course, now: Timestamp) returns (isNew: bool)
      requires Valid()
      modifies this
      ensures Valid()
      ensures isNew <==> course.code !in old(courses)
      ensures courses == old(courses)[course.code := course]
      ensures firstSeen == if isNew then old(firstSeen)[course.code := now] else old(firstSeen)
      ensures lastSeen == old(lastSeen)[course.code := now]
      ensures changeLog == old(changeLog) && runLog == old(runLog)
    {
      var present := course.code in courses;
      if present {
        courses := courses[course.code := course];
        lastSeen := lastSeen[course.code := now];
        return false;
      } else {
        courses := courses[course.code := course];
        firstSeen := firstSeen[course.code := now];
        lastSeen := lastSeen[course.code := now];
        return true;
      }
    }

    /** `remove_course`: deletes a stored code and gives back its course;
        an absent code gives nothing and changes nothing. */
    method RemoveCourse(code: string) returns (removed: Option<Course>)
      requires Valid()
      modifies this
      ensures Valid()
      ensures removed == if code in old(courses) then Some(old(courses)[code]) else None
      ensures courses == old(courses) - {code}
      ensures firstSeen == old(firstSeen) - {code} && lastSeen == old(lastSeen) - {code}
      ensures changeLog == old(changeLog) && runLog == old(runLog)
    {
      if code in courses {
        removed := Some(courses[code]);
        courses := courses - {code};
        firstSeen := firstSeen - {code};
        lastSeen := lastSeen - {code};
      } else {
        removed := None;
      }
    }

    /** `log_change`: appends one row under the next id. */
    method LogChange(change: CourseChange, now: Timestamp)
      requires Valid()
      modifies this
      ensures Valid()
      ensures changeLog == old(changeLog) + [ChangeRow(|old(changeLog)| + 1, change, now)]
      ensures courses == old(courses) && firstSeen == old(firstSeen) && lastSeen == old(lastSeen)
      ensures runLog == old(runLog)
    {
      changeLog := changeLog + [ChangeEntry(|changeLog| + 1, change.course.code, change.ChangeType(), change.course, now)];
    }

    /** `sync_courses`: brings the store to exactly the incoming courses.
        Every incoming course is upserted in input order (a repeated code
        keeps its last course), then every stored code missing from the
        input is removed. Unless the store was empty to begin with (the
        first run, which reports and logs nothing), the codes that were new
        are reported and logged as added and the removed courses as
        removed. */
    method SyncCourses(current: seq<Course>, now: Timestamp) returns (result: SyncResult)
      requires Valid()
      modifies this
      ensures Valid()
      ensures result.isFirstRun <==> old(courses) == map[]
      ensures result.totalCourses == |current|
      ensures Synced(Pass(old(courses), old(firstSeen), old(lastSeen), [], old(changeLog)), current, now,
                     !result.isFirstRun, result.added, Pass(courses, firstSeen, lastSeen, result.removed, changeLog))
      ensures runLog == old(runLog)
    {
      ghost var p0 := Pass(courses, firstSeen, lastSeen, [], changeLog);
      var isFirstRun := IsFirstRun();
      var existing := AllCourses();
      var currentCodes := set c | c in current :: c.code;
      var added := UpsertAll(current, now, !isFirstRun);
      ghost var p1 := Pass(courses, firstSeen, lastSeen, [], changeLog);
      var toRemove := existing.Keys - currentCodes;
      var removed, order := RemoveAll(toRemove, now, !isFirstRun);
      result := SyncResult(added, removed, isFirstRun, |current|);
      ghost var p2 := Pass(courses, firstSeen, lastSeen, removed, changeLog);
      assert currentCodes == Codes(current);
      SyncOutcome(p0, p1, current, order, toRemove, now, !isFirstRun, added, p2);
    }

    /** The upsert loop of `sync_courses`. */
    method UpsertAll(current: seq<Course>, now: Timestamp, report: bool) returns (added: seq<Course>)
      requires Valid()
      modifies this
      ensures Valid()
      ensures Pass(courses, firstSeen, lastSeen, added, changeLog)
           == UpsertPass(Pass(old(courses), old(firstSeen), old(lastSeen), [], old(changeLog)), current, |current|, now, report)
      ensures runLog == old(runLog)
    {
      ghost var p0, runs := Pass(courses, firstSeen, lastSeen, [], changeLog), runLog;
      added := [];
      for i := 0 to |current|
        invariant Valid()
        invariant Pass(courses, firstSeen, lastSeen, added, changeLog) == UpsertPass(p0, current, i, now, report)
        invariant runLog == runs
      {
        var course := current[i];
        ghost var before := Pass(courses, firstSeen, lastSeen, added, changeLog);
        var isNew := UpsertCourse(course, now);
        if isNew && report {
          added := added + [course];
          LogChange(Added(course), now);
        }
        assert Pass(courses, firstSeen, lastSeen, added, changeLog) == UpsertPass(p0, current, i + 1, now, report) by {
          UpsertOnceState(before, course, now, report, isNew, Pass(courses, firstSeen, lastSeen, added, changeLog));
        }
      }
    }

    /** The removal loop of `sync_courses`, over the codes in an order the
        model leaves open; `order` is the order taken. */
    method RemoveAll(toRemove: set<string>, now: Timestamp, report: bool) returns (removed: seq<Course>, ghost order: seq<string>)
      requires Valid()
      modifies this
      ensures Valid()
      ensures Enumerates(order, toRemove)
      ensures Pass(courses, firstSeen, lastSeen, removed, changeLog)
           == RemovePass(Pass(old(courses), old(firstSeen), old(lastSeen), [], old(changeLog)), order, now, report)
      ensures runLog == old(runLog)
    {
      ghost var p0, runs := Pass(courses, firstSeen, lastSeen, [], changeLog), runLog;
      var remaining := toRemove;
      removed, order := [], [];
      while remaining != {}
        invariant Valid()
        invariant remaining <= toRemove
        invariant Enumerates(order, toRemove - remaining)
        invariant Pass(courses, firstSeen, lastSeen, removed, changeLog) == RemovePass(p0, order, now, report)
        invariant runLog == runs
        decreases |remaining|
      {
        var code :| code in remaining;
        removed := RemoveRound(code, now, report, removed);
        RemovePassSnoc(p0, order, code, now, report);
        EnumeratesSnoc(order, toRemove - remaining, code);
        assert toRemove - remaining + {code} == toRemove - (remaining - {code});
        order := order + [code];
        remaining := remaining - {code};
      }
      assert toRemove - remaining == toRemove;
    }

    /** One round of the removal loop of `sync_courses`: `remove_course`
        and, for a stored code when changes are reported, `log_change`. */
    method RemoveRound(code: string, now: Timestamp, report: bool, removed0: seq<Course>) returns (removed: seq<Course>)
      requires Valid()
      modifies this
      ensures Valid()
      ensures Pass(courses, firstSeen, lastSeen, removed, changeLog)
           == RemoveOnce(Pass(old(courses), old(firstSeen), old(lastSeen), removed0, old(changeLog)), code, now, report)
      ensures runLog == old(runLog)
    {
      ghost var before := Pass(courses, firstSeen, lastSeen, removed0, changeLog);
      removed := removed0;
      var gone := RemoveCourse(code);
      if gone.Some? && report {
        LogChange(Removed(gone.value), now);
        removed := removed + [gone.value];
      }
      RemoveOnceState(before, code, now, report, gone, Pass(courses, firstSeen, lastSeen, removed, changeLog));
    }

    /** `log_run`: appends one entry under a fresh id, larger than every id
        before it, and returns that id. */
    method LogRun(run: RunLog, now: Timestamp) returns (id: nat)
      requires Valid()
      modifies this
      ensures Valid()
      ensures runLog == old(runLog) + [RunLogEntry(id, now, run)]
      ensures forall e :: e in old(runLog) ==> e.id < id
      ensures RunLogById(id) == Some(RunLogEntry(id, now, run))
      ensures courses == old(courses) && firstSeen == old(firstSeen) && lastSeen == old(lastSeen)
      ensures changeLog == old(changeLog)
    {
      id := |runLog| + 1;
      runLog := runLog + [RunLogEntry(id, now, run)];
      assert runLog[|runLog| - 1].id == id;
    }

    /** `get_run_logs`: the newest `limit` entries, newest first. `limit`
        reaches SQL as `limit as i64`, and SQLite reads a negative limit as no
        bound at all. */
    function RunLogs(limit: nat): (r: seq<RunLogEntry>)
      reads this
      requires limit < UsizeBound
      ensures |r| == if limit < I64Bound && limit < |runLog| then limit else |runLog|
      ensures forall i :: 0 <= i < |r| ==> r[i] == runLog[|runLog| - 1 - i]
    {
      NewestFirst(runLog, if limit < I64Bound then limit else |runLog|)
    }

    /** `get_run_log`: the entry with that id, if any. */
    function RunLogById(id: int): (r: Option<RunLogEntry>)
      reads this
      ensures r.None? <==> forall e :: e in runLog ==> e.id != id
      ensures r.Some? ==> r.value in runLog && r.value.id == id
    {
      FindRun(runLog, id)
    }

    /** The display row of a stored code. */
    function DisplayOf(code: string): CourseDisplay
      reads this
      requires code in courses && code in firstSeen && code in lastSeen
    {
      var c := courses[code];
      CourseDisplay(code, c.name, c.points, c.faculty, c.url, firstSeen[code], lastSeen[code])
    }

    /** `get_courses_for_display`: every stored course once, with its
        timestamps, in ascending code order. */
    method CoursesForDisplay() returns (rows: seq<CourseDisplay>)
      requires Valid()
      ensures |rows| == CourseCount()
      ensures forall i :: 0 <= i < |rows| ==> rows[i].code in courses && rows[i].code in firstSeen && rows[i].code in lastSeen && rows[i] == DisplayOf(rows[i].code)
      ensures forall i :: 0 <= i < |rows| - 1 ==> CodeLe(rows[i].code, rows[i + 1].code) && rows[i].code != rows[i + 1].code
      ensures forall code :: code in courses <==> code in CodeColumn(rows)
    {
      var codes := SortedCodes(courses.Keys);
      rows := DisplayRows(codes);
      SortedColumn(courses.Keys, codes, rows);
    }

    /** The row loop of `get_courses_for_display`: one display row per code,
        in the order of the codes. */
    method DisplayRows(codes: seq<string>) returns (rows: seq<CourseDisplay>)
      requires forall code :: code in codes ==> code in courses && code in firstSeen && code in lastSeen
      ensures |rows| == |codes|
      ensures forall k :: 0 <= k < |codes| ==> rows[k] == DisplayOf(codes[k])
      ensures CodeColumn(rows) == codes
    {
      rows := [];
      for i := 0 to |codes|
        invariant |rows| == i
        invariant forall k :: 0 <= k < i ==> rows[k] == DisplayOf(codes[k])
        invariant CodeColumn(rows) == codes[..i]
      {
        rows := rows + [DisplayOf(codes[i])];
      }
    }
  }
}
