/** The lecturer's registration page: the teaching table's rows, joined from the
    lecturer's teachings and the course list, and the status-driven choice of what the
    page shows. Views are tags, not markup. */
module LecturerRegistration {
  import opened Text
  import opened Model

  /** One row of the teaching table. */
  datatype TeachingRow = TeachingRow(
    courseId: string,
    courseName: string,
    group: int,
    period: string,
    credit: JsNumber,
    numOfStudents: int)

  // ---------------------------------------------------------------------------
  // Rows

  /** `${startPeriod} - ${endPeriod}`. */
  function PeriodText(startPeriod: nat, endPeriod: nat): string {
    NatToString(startPeriod) + " - " + NatToString(endPeriod)
  }

  /** The number of leading digits of `s`. */
  function DigitRun(s: string): (n: nat)
    ensures n <= |s|
  {
    if s == [] || !IsDigit(s[0]) then 0 else 1 + DigitRun(s[1..])
  }

  lemma {:induction false} DigitRunOf(x: string, u: string)
    requires AllDigits(x) && |u| > 0 && !IsDigit(u[0])
    ensures DigitRun(x + u) == |x|
    decreases |x|
  {
    if x != [] {
      assert (x + u)[1..] == x[1..] + u;
      DigitRunOf(x[1..], u);
    } else {
      assert x + u == u;
    }
  }

  /** The digits before the first non-digit fix the number that was printed there. */
  lemma LeadingNumber(a: nat, c: nat, u: string, v: string)
    requires |u| > 0 && !IsDigit(u[0]) && |v| > 0 && !IsDigit(v[0])
    requires NatToString(a) + u == NatToString(c) + v
    ensures a == c && u == v
  {
    var x, y := NatToString(a), NatToString(c);
    DigitRunOf(x, u);
    DigitRunOf(y, v);
    assert x == (x + u)[..|x|] && y == (y + v)[..|y|];
    NatToStringInjective(a, c);
    assert u == (x + u)[|x|..] && v == (y + v)[|y|..];
  }

  /** A period cell names its two periods unambiguously. */
  lemma PeriodTextInjective(a: nat, b: nat, c: nat, d: nat)
    requires PeriodText(a, b) == PeriodText(c, d)
    ensures a == c && b == d
  {
    var sb, sd := NatToString(b), NatToString(d);
    assert PeriodText(a, b) == NatToString(a) + (" - " + sb);
    assert PeriodText(c, d) == NatToString(c) + (" - " + sd);
    LeadingNumber(a, c, " - " + sb, " - " + sd);
    assert sb == (" - " + sb)[3..] && sd == (" - " + sd)[3..];
    NatToStringInjective(b, d);
  }

  /** `courses.find(c => c._id === id)`. */
  function FindCourse(courses: seq<Course>, id: string): (r: Option<Course>)
    ensures r.None? <==> forall i :: 0 <= i < |courses| ==> courses[i].id != id
    ensures r.Some? ==> exists i :: (0 <= i < |courses| && courses[i] == r.value
      && courses[i].id == id && forall j :: 0 <= j < i ==> courses[j].id != id)
  {
    if courses == [] then None
    else if courses[0].id == id then Some(courses[0])
    else
      var r := FindCourse(courses[1..], id);
      assert r.Some? ==> exists i :: (0 <= i < |courses| && courses[i] == r.value
        && courses[i].id == id && forall j :: 0 <= j < i ==> courses[j].id != id)
      by {
        if r.Some? {
          var i :| 0 <= i < |courses[1..]| && courses[1..][i] == r.value
            && courses[1..][i].id == id && forall j :: 0 <= j < i ==> courses[1..][j].id != id;
          forall j | 0 <= j < i + 1 ensures courses[j].id != id {
            if j > 0 { assert courses[j] == courses[1..][j - 1]; }
          }
        }
      }
      assert r.None? ==> forall i :: 0 <= i < |courses| ==> courses[i].id != id by {
        if r.None? {
          forall i | 0 <= i < |courses| ensures courses[i].id != id {
            if i > 0 { assert courses[i] == courses[1..][i - 1]; }
          }
        }
      }
      r
  }

  /** Every teaching's course is among the loaded courses, which `prepareData` asserts. */
  predicate AllResolvable(teachings: seq<Teaching>, courses: seq<Course>) {
    forall k :: 0 <= k < |teachings| ==> FindCourse(courses, teachings[k].course).Some?
  }

  function RowOf(teaching: Teaching, course: Course): TeachingRow {
    TeachingRow(teaching.course, course.courseName, teaching.group,
      PeriodText(teaching.startPeriod, teaching.endPeriod), course.numberOfCredits,
      teaching.numberOfStudents)
  }

  /** `prepareData`: one row per teaching, in order, joined to its course. */
  function PrepareData(teachings: seq<Teaching>, courses: seq<Course>): (rows: seq<TeachingRow>)
    requires AllResolvable(teachings, courses)
    ensures |rows| == |teachings|
    ensures forall k :: 0 <= k < |teachings| ==>
      rows[k] == RowOf(teachings[k], FindCourse(courses, teachings[k].course).value)
  {
    if |teachings| > 0 then
      seq(|teachings|, k requires 0 <= k < |teachings| && AllResolvable(teachings, courses) =>
        RowOf(teachings[k], FindCourse(courses, teachings[k].course).value))
    else []
  }

  /** Each row copies the teaching's course id, group and student count, prints its
      periods, and takes name and credits from the first course with that id. */
  lemma PrepareDataRow(teachings: seq<Teaching>, courses: seq<Course>, k: int)
    requires AllResolvable(teachings, courses) && 0 <= k < |teachings|
    ensures var row := PrepareData(teachings, courses)[k];
      var t := teachings[k];
      && row.courseId == t.course && row.group == t.group
      && row.numOfStudents == t.numberOfStudents
      && row.period == PeriodText(t.startPeriod, t.endPeriod)
      && exists i :: (0 <= i < |courses| && courses[i].id == t.course
        && (forall j :: 0 <= j < i ==> courses[j].id != t.course)
        && row.courseName == courses[i].courseName && row.credit == courses[i].numberOfCredits)
  {
  }

  /** Rows are joined independently: the rows of two lists of teachings are the rows of
      each, one after the other. */
  lemma PrepareDataConcat(a: seq<Teaching>, b: seq<Teaching>, courses: seq<Course>)
    requires AllResolvable(a, courses) && AllResolvable(b, courses)
    ensures AllResolvable(a + b, courses)
    ensures PrepareData(a + b, courses) == PrepareData(a, courses) + PrepareData(b, courses)
  {
    forall k | 0 <= k < |a + b| ensures FindCourse(courses, (a + b)[k].course).Some? {
      if k >= |a| { assert (a + b)[k] == b[k - |a|]; }
    }
  }

  // ---------------------------------------------------------------------------
  // Views

  /** What `renderTable` shows: a loading skeleton or the teaching table. */
  datatype TableView = TableSkeleton | Table(rows: seq<TeachingRow>)

  /** `renderTable`. Once the courses are loaded the rows are prepared, whatever the
      teachings' status. */
  function RenderTable(courseStatus: Status, teachingStatus: Status,
                       teachings: seq<Teaching>, courses: seq<Course>): (view: TableView)
    requires courseStatus == Succeeded ==> AllResolvable(teachings, courses)
    ensures view.Table? && view.rows != [] ==>
      courseStatus == Succeeded && teachingStatus == Succeeded
    ensures courseStatus == Succeeded && teachingStatus == Succeeded ==>
      view == Table(PrepareData(teachings, courses))
    ensures view == Table([]) <==>
      courseStatus == Failed
      || (courseStatus == Succeeded && teachingStatus == Failed)
      || (courseStatus == Succeeded && teachingStatus == Succeeded && teachings == [])
    ensures view == TableSkeleton <==>
      (courseStatus == Idle || courseStatus == Pending)
      || (courseStatus == Succeeded && (teachingStatus == Idle || teachingStatus == Pending))
  {
    match courseStatus
    case Succeeded =>
      var data := PrepareData(teachings, courses);
      (match teachingStatus
       case Succeeded => Table(data)
       case Failed => Table([])
       case Idle => TableSkeleton
       case Pending => TableSkeleton)
    case Failed => Table([])
    case Idle => TableSkeleton
    case Pending => TableSkeleton
  }

  /** What `renderContent` shows. `Nothing` is the page left empty. */
  datatype Content =
    | Nothing
    | RegistrationSkeleton
    | NoRegistration
    | NoOpeningRegistration
    | NoSemester
    | RegistrationPanel(batch: int, startDate: int, endDate: int, table: TableView)

  /** `renderContent` reaches `renderTable`, and with it the `!` lookups of `prepareData`,
      only inside the panel of an opening registration, and only once the courses have
      loaded. */
  predicate PreparesRows(semesterStatus: Status, registrationStatus: Status,
                         registrations: seq<Registration>, courseStatus: Status) {
    && semesterStatus == Succeeded && registrationStatus == Succeeded
    && FindOpening(registrations).Some? && courseStatus == Succeeded
  }

  /** `renderContent`, with `openRegistration` the first opening registration in the
      store. */
  function RenderContent(semesterStatus: Status, registrationStatus: Status,
                         registrations: seq<Registration>, courseStatus: Status,
                         teachingStatus: Status, teachings: seq<Teaching>,
                         courses: seq<Course>): (content: Content)
    requires PreparesRows(semesterStatus, registrationStatus, registrations, courseStatus) ==>
      AllResolvable(teachings, courses)
    ensures content == NoSemester <==> semesterStatus == Failed
    ensures content == NoRegistration <==>
      semesterStatus == Succeeded && registrationStatus == Failed
    ensures content == RegistrationSkeleton <==>
      semesterStatus == Succeeded && registrationStatus == Pending
    ensures content == NoOpeningRegistration <==>
      semesterStatus == Succeeded && registrationStatus == Succeeded
      && forall i :: 0 <= i < |registrations| ==> !registrations[i].isOpening
    ensures content.RegistrationPanel? <==>
      semesterStatus == Succeeded && registrationStatus == Succeeded
      && exists i :: 0 <= i < |registrations| && registrations[i].isOpening
    ensures content.RegistrationPanel? ==>
      content.table == RenderTable(courseStatus, teachingStatus, teachings, courses)
      && exists i :: (IsFirstOpening(registrations, i)
        && content.batch == registrations[i].batch
        && content.startDate == registrations[i].startDate
        && content.endDate == registrations[i].endDate)
  {
    if semesterStatus == Succeeded then
      if registrationStatus == Pending then RegistrationSkeleton
      else if registrationStatus == Failed then NoRegistration
      else if registrationStatus == Succeeded then
        match FindOpening(registrations)
        case Some(open) =>
          RegistrationPanel(open.batch, open.startDate, open.endDate,
            RenderTable(courseStatus, teachingStatus, teachings, courses))
        case None => NoOpeningRegistration
      else Nothing
    else if semesterStatus == Failed then NoSemester
    else Nothing
  }

  /** The page stays empty only while the semester is loading or the registrations have
      not started loading. */
  lemma RenderContentNothing(semesterStatus: Status, registrationStatus: Status,
                             registrations: seq<Registration>, courseStatus: Status,
                             teachingStatus: Status, teachings: seq<Teaching>,
                             courses: seq<Course>)
    requires PreparesRows(semesterStatus, registrationStatus, registrations, courseStatus) ==>
      AllResolvable(teachings, courses)
    ensures RenderContent(semesterStatus, registrationStatus, registrations, courseStatus,
        teachingStatus, teachings, courses) == Nothing
      <==> (semesterStatus == Idle || semesterStatus == Pending
        || (semesterStatus == Succeeded && registrationStatus == Idle))
  {
  }

  /** Only the panel carries a table; when that table shows rows, it shows one per
      teaching. */
  lemma TableOnlyWithOpenRegistration(semesterStatus: Status, registrationStatus: Status,
                                      registrations: seq<Registration>, courseStatus: Status,
                                      teachingStatus: Status, teachings: seq<Teaching>,
                                      courses: seq<Course>)
    requires PreparesRows(semesterStatus, registrationStatus, registrations, courseStatus) ==>
      AllResolvable(teachings, courses)
    requires RenderContent(semesterStatus, registrationStatus, registrations, courseStatus,
      teachingStatus, teachings, courses).RegistrationPanel?
    requires RenderContent(semesterStatus, registrationStatus, registrations, courseStatus,
      teachingStatus, teachings, courses).table.Table?
      && RenderContent(semesterStatus, registrationStatus, registrations, courseStatus,
        teachingStatus, teachings, courses).table.rows != []
    ensures |RenderContent(semesterStatus, registrationStatus, registrations, courseStatus,
      teachingStatus, teachings, courses).table.rows| == |teachings|
  {
  }
}
