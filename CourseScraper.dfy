/**
  The record extractor of the course page (src/course_scraper.rs), over an
  abstract document: the faculty headings and the tables of the page's
  content area, each table a sequence of rows of cells. The HTML parser and
  the CSS selectors that find these elements are not part of the model.
 */
module CourseScraper {
  import opened Wrappers
  import opened Strings
  import opened Numbers
  import opened Lists
  import opened Models

  /** A link inside a cell: its `href` attribute, if present, and its text. */
  datatype Link = Link(href: Option<string>, text: string)

  /** A `td` cell: its whole text and the first link inside it, if any. */
  datatype Cell = Cell(text: string, link: Option<Link>)

  /** A `tr` row, as the sequence of its `td` cells. */
  type Row = seq<Cell>

  /** A `table`, as the sequence of its rows. */
  type Table = seq<Row>

  /** An `h2` heading that has an `id` attribute. */
  datatype Heading = Heading(id: string, text: string)

  /** The content area of the page: its headings and its tables, each in
      document order. */
  datatype Page = Page(headings: seq<Heading>, tables: seq<Table>)

  /** Between a course's code and its name. */
  const Separator: string := " - "

  /** The faculty of tables beyond the last faculty heading. */
  const UnknownFaculty: string := "Unknown Faculty"

  // ---------------------------------------------------------------------
  // Course text and points

  /** `parse_course_text`: `CODE - Name` gives the trimmed parts around the
      first separator; text without a separator is all code. */
  function ParseCourseText(text: string): (r: (string, string))
    ensures IsTrimmed(r.0) && IsTrimmed(r.1)
    ensures |r.0| + |r.1| <= |text|
  {
    var t := Trim(text);
    TrimIsSlice(text);
    match Find(t, Separator)
    case Some(pos) =>
      TrimIsSlice(t[..pos]);
      TrimIsSlice(t[pos + 3..]);
      (Trim(t[..pos]), Trim(t[pos + 3..]))
    case None => (t, "")
  }

  /** The code never contains the separator: the split is at its first
      occurrence. */
  lemma CodeHasNoSeparator(text: string)
    ensures !Contains(ParseCourseText(text).0, Separator)
  {
    var t := Trim(text);
    match Find(t, Separator)
    case None =>
    case Some(pos) =>
      var x := t[..pos];
      var code := Trim(x);
      if Find(code, Separator).Some? {
        var j := Find(code, Separator).value;
        TrimIsSlice(x);
        var k := TrimOffset(x);
        OccursInSlice(x, Separator, k, k + |code|, j);
        OccursInSlice(t, Separator, 0, pos, k + j);
      }
  }

  /** A code without spaces, the separator and a name give back the code and
      the name. */
  lemma CourseTextRoundTrip(code: string, name: string)
    requires code != [] && IsTrimmed(code) && ' ' !in code
    requires name != [] && IsTrimmed(name)
    ensures ParseCourseText(code + Separator + name) == (code, name)
  {
    var t := code + Separator + name;
    assert t[0] == code[0] && t[|t| - 1] == name[|name| - 1];
    TrimOfTrimmed(t);
    assert t[|code|..|code| + 3] == Separator;
    forall j | 0 <= j < |code|
      ensures !OccursAt(t, Separator, j)
    {
      assert t[j..j + 3][0] == t[j] == code[j];
    }
    FindFirst(t, Separator, |code|);
    assert t[..|code|] == code && t[|code| + 3..] == name;
    TrimOfTrimmed(code);
    TrimOfTrimmed(name);
  }

  /** Text without the separator is all code, trimmed, and the name is empty. */
  lemma CourseTextWithoutSeparator(text: string)
    requires !Contains(Trim(text), Separator)
    ensures ParseCourseText(text) == (Trim(text), "")
  {
  }

  /** `parse_points`: trimmed, a decimal comma read as a point, then parsed. */
  function ParsePoints(text: string): (r: Option<real>)
    ensures r.Some? ==> Trim(text) != []
    ensures r.Some? && Trim(text)[0] != '-' ==> r.value >= 0.0
  {
    ParseNumber(ReplaceChar(Trim(text), ',', "."))
  }

  /** Commas and points are interchangeable: replacing every comma by a
      point does not change the result. */
  lemma PointsCommaAsPoint(text: string)
    ensures ParsePoints(ReplaceChar(text, ',', ".")) == ParsePoints(text)
  {
    TrimReplace(text, ',', '.');
    var once := ReplaceChar(Trim(text), ',', ".");
    assert ',' !in once;
  }

  /** Points text that is already a number, around which there is only
      whitespace, is that number. */
  lemma PointsOfPaddedNumber(pre: string, n: string, post: string)
    requires AllWhitespace(pre) && AllWhitespace(post)
    requires ParseNumber(n).Some? && ',' !in n
    ensures ParsePoints(pre + n + post) == ParseNumber(n)
  {
    NumeralEnds(n);
    TrimPadded(pre, n, post);
  }

  /** `10`, `2.5` and `  10  ` are read as they stand. */
  lemma PointsExamples()
    ensures ParsePoints("10") == Some(10.0)
    ensures ParsePoints("2.5") == Some(2.5)
    ensures ParsePoints("  " + "10" + "  ") == Some(10.0)
  {
    WholeExamples();
    DecimalExample25();
    assert forall i :: 0 <= i < |"10"| ==> "10"[i] != ',';
    assert forall i :: 0 <= i < |"2.5"| ==> "2.5"[i] != ',';
    assert AllWhitespace("  ") && AllWhitespace("");
    assert "10" == "" + "10" + "" && "2.5" == "" + "2.5" + "";
    PointsOfPaddedNumber("", "10", "");
    PointsOfPaddedNumber("", "2.5", "");
    PointsOfPaddedNumber("  ", "10", "  ");
  }

  /** `2,5` is read with its comma as a decimal point. */
  lemma PointsCommaExample()
    ensures ParsePoints("2" + "," + "5") == Some(2.5)
  {
    var t := "2" + "," + "5";
    assert IsTrimmed(t) by { assert t[0] == '2' && t[|t| - 1] == '5'; }
    assert ReplaceChar(t, ',', ".") == "2.5" by {
      ReplaceCharConcat("2" + ",", "5", ',', ".");
      ReplaceCharConcat("2", ",", ',', ".");
      assert ReplaceChar(",", ',', ".") == "." + ReplaceChar([], ',', ".");
    }
    assert ParseNumber("2.5") == Some(2.5) by { DecimalExample25(); }
    PointsOfTrimmed(t, "2.5");
  }

  /** Points text that needs no trimming is read after its commas become
      points. */
  lemma PointsOfTrimmed(text: string, replaced: string)
    requires IsTrimmed(text) && ReplaceChar(text, ',', ".") == replaced
    ensures ParsePoints(text) == ParseNumber(replaced)
  {
    TrimOfTrimmed(text);
  }

  /** `invalid` is not points. */
  lemma PointsInvalidExample()
    ensures ParsePoints("invalid") == None
  {
    var bad := "invalid";
    assert ',' !in bad && bad[0] == 'i';
    assert IsTrimmed(bad);
    TrimOfTrimmed(bad);
    if ParseNumber(bad).Some? {
      ParsedIsNumeral(bad);
    }
  }

  // ---------------------------------------------------------------------
  // Rows and tables

  /** The url, code and name a row's first cell gives: from its link when it
      has one (a missing `href` reads as empty), else from its text with an
      empty url. */
  function FirstCellFields(first: Cell): (r: (string, string, string))
    ensures r.0 == (if first.link.Some? && first.link.value.href.Some? then first.link.value.href.value else "")
    ensures (r.1, r.2) == ParseCourseText(if first.link.Some? then first.link.value.text else first.text)
  {
    match first.link
    case Some(a) =>
      var (code, name) := ParseCourseText(a.text);
      (if a.href.Some? then a.href.value else "", code, name)
    case None =>
      var (code, name) := ParseCourseText(first.text);
      ("", code, name)
  }

  /** With a link in the first cell, the cell's own text plays no part:
      replacing it changes neither the code, nor the name, nor the url. */
  lemma LinkTextDecides(first: Cell, text: string)
    requires first.link.Some?
    ensures FirstCellFields(Cell(text, first.link)) == FirstCellFields(first)
  {
  }

  /** What happens to one row. */
  datatype RowOutcome =
    | TooFewCells
    | EmptyCode
    | BadPoints
    | Parsed(course: Course)

  /** The row rules of `parse_table`: fewer than two cells, an empty code and
      unreadable points each skip the row; otherwise it gives a course of
      the table's faculty. */
  function ReadRow(row: Row, faculty: string): (r: RowOutcome)
    ensures r.TooFewCells? <==> |row| < 2
    ensures r.Parsed? ==>
      && r.course.faculty == faculty
      && r.course.code != [] && IsTrimmed(r.course.code)
      && ParsePoints(row[1].text) == Some(r.course.points)
  {
    if |row| < 2 then TooFewCells
    else
      var (url, code, name) := FirstCellFields(row[0]);
      if code == [] then EmptyCode
      else
        match ParsePoints(row[1].text)
        case None => BadPoints
        case Some(points) => Parsed(Course(code, name, points, url, faculty))
  }

  /** The course a row contributes, if any. */
  function RowCourses(row: Row, faculty: string): seq<Course> {
    if ReadRow(row, faculty).Parsed? then [ReadRow(row, faculty).course] else []
  }

  /** A row gives a course exactly when it has two cells, its first cell
      names a code and its second holds readable points; the course is the
      code, name and url of the first cell with those points. */
  lemma RowCoursesMeaning(row: Row, faculty: string)
    ensures RowCourses(row, faculty) != [] <==>
      |row| >= 2 && FirstCellFields(row[0]).1 != [] && ParsePoints(row[1].text).Some?
    ensures RowCourses(row, faculty) != [] ==>
      var (url, code, name) := FirstCellFields(row[0]);
      RowCourses(row, faculty) == [Course(code, name, ParsePoints(row[1].text).value, url, faculty)]
  {
  }

  /** The courses of a table's rows, in row order. */
  function TableCourses(rows: Table, faculty: string): (r: seq<Course>)
    ensures |r| <= |rows|
  {
    if rows == [] then []
    else TableCourses(rows[..|rows| - 1], faculty) + RowCourses(rows[|rows| - 1], faculty)
  }

  /** One more row adds its course, if any, and counts as short or not. */
  lemma TableStep(rows: Table, i: nat, faculty: string)
    requires i < |rows|
    ensures TableCourses(rows[..i + 1], faculty) == TableCourses(rows[..i], faculty) + RowCourses(rows[i], faculty)
    ensures |Filter(rows[..i + 1], IsShort)| == |Filter(rows[..i], IsShort)| + (if |rows[i]| < 2 then 1 else 0)
  {
    assert rows[..i + 1] == rows[..i] + [rows[i]];
    assert rows[..i + 1][..i] == rows[..i];
    FilterConcat(rows[..i], [rows[i]], IsShort);
    assert [rows[i]][1..] == [];
  }

  /** Rows with fewer than two cells. */
  predicate IsShort(row: Row) {
    |row| < 2
  }

  /** `parse_table`: one pass over the rows, collecting the courses and
      counting processed rows, skipped rows and unreadable points. Every row
      is either skipped, a points error or a course. */
  method ParseTable(rows: Table, faculty: string)
    returns (courses: seq<Course>, rowsProcessed: nat, rowsSkipped: nat, parseErrors: nat)
    ensures courses == TableCourses(rows, faculty)
    ensures rowsSkipped + parseErrors + |courses| == |rows|
    ensures rowsProcessed + |Filter(rows, IsShort)| == |rows|
  {
    courses, rowsProcessed, rowsSkipped, parseErrors := [], 0, 0, 0;
    var i := 0;
    while i < |rows|
      invariant 0 <= i <= |rows|
      invariant courses == TableCourses(rows[..i], faculty)
      invariant rowsSkipped + parseErrors + |courses| == i
      invariant rowsProcessed + |Filter(rows[..i], IsShort)| == i
    {
      var row := rows[i];
      TableStep(rows, i, faculty);
      if |row| < 2 {
        rowsSkipped := rowsSkipped + 1;
      } else {
        rowsProcessed := rowsProcessed + 1;
        var (url, code, name) := FirstCellFields(row[0]);
        if code == [] {
          rowsSkipped := rowsSkipped + 1;
        } else {
          var points := ParsePoints(row[1].text);
          if points.Some? {
            courses := courses + [Course(code, name, points.value, url, faculty)];
          } else {
            parseErrors := parseErrors + 1;
          }
        }
      }
      i := i + 1;
    }
    assert rows[..|rows|] == rows;
  }

  /** The rows of two tables give the first table's courses, then the
      second's. */
  lemma {:induction false} TableCoursesAppend(a: Table, b: Table, faculty: string)
    ensures TableCourses(a + b, faculty) == TableCourses(a, faculty) + TableCourses(b, faculty)
    decreases |b|
  {
    if b == [] {
      assert a + b == a;
    } else {
      var init := b[..|b| - 1];
      assert (a + b)[..|a + b| - 1] == a + init;
      assert (a + b)[|a + b| - 1] == b[|b| - 1];
      TableCoursesAppend(a, init, faculty);
    }
  }

  /** Every course of a table carries the table's faculty, has a code and
      comes from one of the table's rows. */
  lemma {:induction false} TableCoursesShape(rows: Table, faculty: string)
    ensures forall c :: c in TableCourses(rows, faculty) ==>
      c.faculty == faculty && c.code != [] && exists i :: 0 <= i < |rows| && ReadRow(rows[i], faculty) == Parsed(c)
  {
    if rows != [] {
      var init := rows[..|rows| - 1];
      TableCoursesShape(init, faculty);
      forall c | c in TableCourses(rows, faculty)
        ensures c.faculty == faculty && c.code != []
        ensures exists i :: 0 <= i < |rows| && ReadRow(rows[i], faculty) == Parsed(c)
      {
        if c in TableCourses(init, faculty) {
          var i :| 0 <= i < |init| && ReadRow(init[i], faculty) == Parsed(c);
          assert rows[i] == init[i];
        } else {
          assert ReadRow(rows[|rows| - 1], faculty) == Parsed(c);
        }
      }
    }
  }

  /** The faculty only labels the courses: how many a table gives does not
      depend on it. */
  lemma {:induction false} TableCoursesCount(rows: Table, f: string, g: string)
    ensures |TableCourses(rows, f)| == |TableCourses(rows, g)|
  {
    if rows != [] {
      TableCoursesCount(rows[..|rows| - 1], f, g);
    }
  }

  // ---------------------------------------------------------------------
  // Faculties and the pairing of tables with faculties

  /** Headings of the navigation sections, which are not faculties. */
  predicate IsNavigation(id: string) {
    Contains(id, "sporsmal") || Contains(id, "kontakt")
  }

  /** The faculty a heading names, if it names one. */
  function FacultyOf(h: Heading): seq<string> {
    if IsNavigation(h.id) || Trim(h.text) == [] then [] else [Trim(h.text)]
  }

  /** The faculty names of the headings, in document order. */
  function Faculties(headings: seq<Heading>): (r: seq<string>)
    ensures forall n :: n in r ==> n != [] && IsTrimmed(n)
  {
    ConcatMapElements(headings, FacultyOf);
    ConcatMap(headings, FacultyOf)
  }

  /** The heading loop of `parse_courses`. */
  method CollectFaculties(headings: seq<Heading>) returns (names: seq<string>)
    ensures names == Faculties(headings)
  {
    names := [];
    var i := 0;
    while i < |headings|
      invariant 0 <= i <= |headings|
      invariant names == ConcatMap(headings[..i], FacultyOf)
    {
      var h := headings[i];
      ConcatMapSnoc(headings[..i], h, FacultyOf);
      assert headings[..i + 1] == headings[..i] + [h];
      if !(Contains(h.id, "sporsmal") || Contains(h.id, "kontakt")) {
        var name := Trim(h.text);
        if name != [] {
          names := names + [name];
        }
      }
      i := i + 1;
    }
    assert headings[..|headings|] == headings;
  }

  /** The faculties are exactly the trimmed, non-empty texts of the headings
      that are not navigation headings. */
  lemma FacultiesMeaning(headings: seq<Heading>)
    ensures forall n :: n in Faculties(headings) <==>
      exists h :: h in headings && !IsNavigation(h.id) && Trim(h.text) == n && n != []
  {
    ConcatMapElements(headings, FacultyOf);
  }

  /** Document order is kept: the faculties of two runs of headings follow
      each other. */
  lemma FacultiesAppend(a: seq<Heading>, b: seq<Heading>)
    ensures Faculties(a + b) == Faculties(a) + Faculties(b)
  {
    ConcatMapAppend(a, b, FacultyOf);
  }

  /** The faculty of the table at a given faculty index. */
  function FacultyAt(faculties: seq<string>, idx: nat): (f: string)
    ensures f in faculties || f == UnknownFaculty
  {
    if idx < |faculties| then faculties[idx] else UnknownFaculty
  }

  /** The courses of the tables, starting at faculty index `idx`: each table
      is read by `parse` with the faculty at the index, and only a table that
      gives courses moves the index on. */
  function Paired(tables: seq<Table>, parse: (Table, string) -> seq<Course>, faculties: seq<string>, idx: nat): seq<Course>
    decreases |tables|
  {
    if tables == [] then []
    else
      var tc := parse(tables[0], FacultyAt(faculties, idx));
      tc + Paired(tables[1..], parse, faculties, if tc == [] then idx else idx + 1)
  }

  /** How many of the tables give courses. */
  function ProductiveCount(tables: seq<Table>, parse: (Table, string) -> seq<Course>): nat {
    if tables == [] then 0
    else (if parse(tables[0], UnknownFaculty) == [] then 0 else 1) + ProductiveCount(tables[1..], parse)
  }

  /** Whether a table gives courses does not depend on its faculty. */
  ghost predicate FacultyBlind(parse: (Table, string) -> seq<Course>) {
    forall t, f :: parse(t, f) == [] <==> parse(t, UnknownFaculty) == []
  }

  /** Every course read from a table carries the faculty given for it. */
  ghost predicate Labels(parse: (Table, string) -> seq<Course>) {
    forall t, f, c :: c in parse(t, f) ==> c.faculty == f
  }

  /** The courses of a page: nothing without a content area; otherwise the
      tables paired with the faculties of the headings. */
  function PageCourses(content: Option<Page>): seq<Course> {
    match content
    case None => []
    case Some(page) => Paired(page.tables, TableCourses, Faculties(page.headings), 0)
  }

  /** `parse_courses`: the heading loop, then the table loop. */
  method ParseCourses(content: Option<Page>) returns (courses: seq<Course>)
    ensures courses == PageCourses(content)
  {
    courses := [];
    if content.None? {
      return;
    }
    var faculties := CollectFaculties(content.value.headings);
    courses := PairTables(content.value.tables, faculties);
  }

  /** The table loop of `parse_courses`: each table read with the faculty
      at the current index, which moves on after a table that gave courses. */
  method PairTables(tables: seq<Table>, faculties: seq<string>) returns (courses: seq<Course>)
    ensures courses == Paired(tables, TableCourses, faculties, 0)
  {
    courses := [];
    var tableIdx := 0;
    var i := 0;
    while i < |tables|
      invariant 0 <= i <= |tables|
      invariant courses + Paired(tables[i..], TableCourses, faculties, tableIdx)
             == Paired(tables, TableCourses, faculties, 0)
    {
      var faculty := if tableIdx < |faculties| then faculties[tableIdx] else UnknownFaculty;
      var tableCourses, _, _, _ := ParseTable(tables[i], faculty);
      PairedStep(tables, i, faculties, tableIdx, courses, tableCourses);
      if tableCourses != [] {
        courses := courses + tableCourses;
        tableIdx := tableIdx + 1;
      }
      i := i + 1;
    }
  }

  /** One step of the table loop keeps its invariant: the courses so far
      and those of the remaining tables make up the whole result. */
  lemma PairedStep(tables: seq<Table>, i: nat, faculties: seq<string>, idx: nat, done: seq<Course>, tc: seq<Course>)
    requires i < |tables| && tc == TableCourses(tables[i], FacultyAt(faculties, idx))
    requires done + Paired(tables[i..], TableCourses, faculties, idx) == Paired(tables, TableCourses, faculties, 0)
    ensures (if tc == [] then done else done + tc)
          + Paired(tables[i + 1..], TableCourses, faculties, if tc == [] then idx else idx + 1)
         == Paired(tables, TableCourses, faculties, 0)
  {
    assert tables[i..][0] == tables[i] && tables[i..][1..] == tables[i + 1..];
    var rest := Paired(tables[i + 1..], TableCourses, faculties, if tc == [] then idx else idx + 1);
    assert Paired(tables[i..], TableCourses, faculties, idx) == tc + rest;
    if tc == [] {
      assert tc + rest == rest;
    } else {
      assert (done + tc) + rest == done + (tc + rest);
    }
  }

  /** The table reader labels its courses with the faculty it is given. */
  lemma TableCoursesLabelled()
    ensures Labels(TableCourses)
  {
    forall t, f, c | c in TableCourses(t, f)
      ensures c.faculty == f
    {
      TableCoursesShape(t, f);
    }
  }

  /** Whether a table gives courses does not depend on its faculty. */
  lemma TableCoursesFacultyBlind()
    ensures FacultyBlind(TableCourses)
  {
    forall t, f
      ensures TableCourses(t, f) == [] <==> TableCourses(t, UnknownFaculty) == []
    {
      TableCoursesCount(t, f, UnknownFaculty);
    }
  }

  /** The table after `ts` takes the faculty whose index is the number of
      tables before it that gave courses; the output is the per-table
      results in table order. */
  lemma {:induction false} PairedSnoc(ts: seq<Table>, t: Table, parse: (Table, string) -> seq<Course>, faculties: seq<string>, idx: nat)
    requires FacultyBlind(parse)
    ensures Paired(ts + [t], parse, faculties, idx)
         == Paired(ts, parse, faculties, idx) + parse(t, FacultyAt(faculties, idx + ProductiveCount(ts, parse)))
    decreases |ts|
  {
    if ts == [] {
      assert [t][1..] == [];
    } else {
      var t0 := ts[0];
      var tc := parse(t0, FacultyAt(faculties, idx));
      var next := if tc == [] then idx else idx + 1;
      assert tc == [] <==> parse(t0, UnknownFaculty) == [];
      assert next + ProductiveCount(ts[1..], parse) == idx + ProductiveCount(ts, parse);
      assert (ts + [t])[0] == t0 && (ts + [t])[1..] == ts[1..] + [t];
      var last := parse(t, FacultyAt(faculties, idx + ProductiveCount(ts, parse)));
      PairedSnoc(ts[1..], t, parse, faculties, next);
      calc {
        Paired(ts + [t], parse, faculties, idx);
        tc + Paired(ts[1..] + [t], parse, faculties, next);
        tc + (Paired(ts[1..], parse, faculties, next) + last);
        (tc + Paired(ts[1..], parse, faculties, next)) + last;
        Paired(ts, parse, faculties, idx) + last;
      }
    }
  }

  /** Every course carries a faculty from the headings or the unknown one. */
  lemma {:induction false} PairedFaculties(ts: seq<Table>, parse: (Table, string) -> seq<Course>, faculties: seq<string>, idx: nat)
    requires Labels(parse)
    ensures forall c :: c in Paired(ts, parse, faculties, idx) ==> c.faculty in faculties || c.faculty == UnknownFaculty
    decreases |ts|
  {
    if ts != [] {
      var tc := parse(ts[0], FacultyAt(faculties, idx));
      PairedFaculties(ts[1..], parse, faculties, if tc == [] then idx else idx + 1);
    }
  }

  /** With a faculty for every table that gives courses, every course
      carries a faculty of the headings. */
  lemma {:induction false} EnoughFaculties(ts: seq<Table>, parse: (Table, string) -> seq<Course>, faculties: seq<string>, idx: nat)
    requires Labels(parse) && FacultyBlind(parse)
    requires idx + ProductiveCount(ts, parse) <= |faculties|
    ensures forall c :: c in Paired(ts, parse, faculties, idx) ==> c.faculty in faculties
    decreases |ts|
  {
    if ts != [] {
      var tc := parse(ts[0], FacultyAt(faculties, idx));
      assert tc == [] <==> parse(ts[0], UnknownFaculty) == [];
      EnoughFaculties(ts[1..], parse, faculties, if tc == [] then idx else idx + 1);
    }
  }

  /** On a page: each course's faculty is a faculty heading or the unknown
      one, and with at least as many faculty headings as tables that give
      courses it is always a heading. */
  lemma PageFaculties(page: Page)
    ensures forall c :: c in PageCourses(Some(page)) ==>
      c.faculty in Faculties(page.headings) || c.faculty == UnknownFaculty
    ensures ProductiveCount(page.tables, TableCourses) <= |Faculties(page.headings)| ==>
      forall c :: c in PageCourses(Some(page)) ==> c.faculty in Faculties(page.headings)
  {
    TableCoursesLabelled();
    TableCoursesFacultyBlind();
    PairedFaculties(page.tables, TableCourses, Faculties(page.headings), 0);
    if ProductiveCount(page.tables, TableCourses) <= |Faculties(page.headings)| {
      EnoughFaculties(page.tables, TableCourses, Faculties(page.headings), 0);
    }
  }

  /** A course code with its name, as in the course text tests. */
  lemma CourseTextExample()
    ensures ParseCourseText("IN1000" + " - " + "Introduksjon til programmering")
         == ("IN1000", "Introduksjon til programmering")
  {
    var code, name := "IN1000", "Introduksjon til programmering";
    assert code[0] == 'I' && code[5] == '0' && name[0] == 'I' && name[|name| - 1] == 'g';
    assert forall i :: 0 <= i < |code| ==> code[i] != ' ';
    CourseTextRoundTrip(code, name);
  }

  /** A bare course code, as in the course text tests. */
  lemma BareCodeExample()
    ensures ParseCourseText("IN1000") == ("IN1000", "")
  {
    var code := "IN1000";
    assert Trim(code) == code by {
      assert code[0] == 'I' && code[5] == '0';
      TrimOfTrimmed(code);
    }
    assert !Contains(code, Separator) by {
      assert forall i :: 0 <= i < |code| ==> code[i] != ' ';
      LacksFirstChar(code, Separator);
    }
    CourseTextWithoutSeparator(code);
  }
}
