/** Importing courses from a spreadsheet: each row of the first sheet becomes a Course
    (rows with a header outside the template are dropped), then the courses are created
    on the server one at a time, stopping at the first rejection. */
module ImportCourse {
  import opened Text
  import opened Model

  /** One sheet record as `Object.entries` lists it: header and cell text, in `Object.entries`
      order (integer-like headers first, then the others in column order).
      `Object.entries` never repeats a header, but a `Row` may; where the lemmas below say
      that a later cell overrides an earlier one, they describe that case, which a record
      read from a sheet never reaches. */
  type Row = seq<(string, string)>
  type Sheet = seq<Row>

  /** The template's headers, matched exactly (case-sensitively). */
  const Attrs: seq<string> := ["STT", "Mã môn", "Tên môn", "Loại môn", "STC"]

  const DefaultCourse: Course := Course("", "", Theory, Num(0), false)

  /** The format-error notice, "Incorrect format. Please refer template file.", written as
      two literals joined, which keeps the proofs that mention it cheap. */
  const IncorrectFormat: string := "Incorrect format. " + "Please refer template file."
  const AllCreated: string := "All new courses created"
  const CreateFailed: string := "Failed to create all courses"

  /** The notice for an empty cell; `i` is the record's index in the sheet. */
  function MissingMessage(key: string, i: nat): string {
    key + " at row " + NatToString(i) + " is missing. This teaching will be skipped"
  }

  /** The course type a "Loại môn" cell names. */
  function ClassifyType(value: string): CourseType {
    var v := ToLower(value);
    if v == "theory" || v == "lý thuyết" then Theory else Practical
  }

  /** Classification ignores letter case. */
  lemma ClassifyTypeIgnoresCase(value: string)
    ensures ClassifyType(ToLower(value)) == ClassifyType(value)
  {
    ToLowerIdempotent(value);
  }

  lemma ClassifyTypeExamples()
    ensures ClassifyType("Theory") == Theory
    ensures ClassifyType("LÝ THUYẾT") == Theory
    ensures ClassifyType("Lab") == Practical
    ensures ClassifyType("Practice") == Practical
  {
    assert ToLower("Theory") == "theory";
    assert ToLower("LÝ THUYẾT") == "lý thuyết";
    assert ToLower("Lab") != "theory" && ToLower("Lab") != "lý thuyết" by {
      assert |ToLower("Lab")| == 3;
    }
    assert ToLower("Practice") != "theory" && ToLower("Practice") != "lý thuyết" by {
      assert |ToLower("Practice")| == 8;
    }
  }

  /** The `switch (key.toLowerCase())` of the conversion loop. */
  function SetField(course: Course, key: string, value: string): Course {
    var k := ToLower(key);
    if k == "mã môn" then course.(id := value)
    else if k == "tên môn" then course.(courseName := value)
    else if k == "loại môn" then course.(courseType := ClassifyType(value))
    else if k == "stc" then course.(numberOfCredits := ToNumber(value))
    else course
  }

  /** The lower-cased dispatch sends each template header to its own field, and "STT"
      to none. */
  lemma SetFieldOnTemplate(course: Course, value: string)
    ensures SetField(course, "Mã môn", value) == course.(id := value)
    ensures SetField(course, "Tên môn", value) == course.(courseName := value)
    ensures SetField(course, "Loại môn", value) == course.(courseType := ClassifyType(value))
    ensures SetField(course, "STC", value) == course.(numberOfCredits := ToNumber(value))
    ensures SetField(course, "STT", value) == course
  {
    assert ToLower("Mã môn") == "mã môn";
    assert ToLower("Tên môn") == "tên môn";
    assert ToLower("Loại môn") == "loại môn";
    assert ToLower("STC") == "stc";
    assert ToLower("STT") == "stt";
  }

  /** The outcome of converting one record: the course, unless the row is dropped, and
      the notices dispatched along the way. */
  datatype RowConversion = RowConversion(course: Option<Course>, notices: seq<Effect>)

  /** The conversion loop over a record's remaining entries, from a partly filled course. */
  function ApplyEntries(course: Course, entries: Row, i: nat): RowConversion
    decreases |entries|
  {
    if entries == [] then RowConversion(Some(course), [])
    else
      var (key, value) := entries[0];
      if key !in Attrs then RowConversion(None, ReportError(IncorrectFormat))
      else if |value| == 0 then
        var rest := ApplyEntries(course, entries[1..], i);
        RowConversion(rest.course, ReportError(MissingMessage(key, i)) + rest.notices)
      else ApplyEntries(SetField(course, key, value), entries[1..], i)
  }

  function RowResult(row: Row, i: nat): RowConversion {
    ApplyEntries(DefaultCourse, row, i)
  }

  /** The `forEach` callback for record `i`: fills a fresh course entry by entry. */
  method ConvertRow(row: Row, i: nat) returns (course: Option<Course>, notices: seq<Effect>)
    ensures RowConversion(course, notices) == RowResult(row, i)
  {
    var c := DefaultCourse;
    notices := [];
    var j := 0;
    while j < |row|
      invariant 0 <= j <= |row|
      invariant var rest := ApplyEntries(c, row[j..], i);
        RowResult(row, i) == RowConversion(rest.course, notices + rest.notices)
    {
      assert row[j..][1..] == row[j + 1..];
      var (key, value) := row[j];
      if key !in Attrs {
        notices := notices + ReportError(IncorrectFormat);
        return None, notices;
      }
      if |value| == 0 {
        notices := notices + ReportError(MissingMessage(key, i));
      } else {
        var k := ToLower(key);
        if k == "mã môn" {
          c := c.(id := value);
        } else if k == "tên môn" {
          c := c.(courseName := value);
        } else if k == "loại môn" {
          c := c.(courseType := ClassifyType(value));
        } else if k == "stc" {
          c := c.(numberOfCredits := ToNumber(value));
        }
      }
      j := j + 1;
    }
    course := Some(c);
  }

  // ---------------------------------------------------------------------------
  // A declarative reading of one record

  /** Every header of the record is in the template. */
  ghost predicate WellFormedRow(row: Row) {
    forall k :: 0 <= k < |row| ==> row[k].0 in Attrs
  }

  /** The position of the first header outside the template, or `|row|`. */
  function FirstUnknown(row: Row): (n: nat)
    ensures n <= |row|
    ensures forall k :: 0 <= k < n ==> row[k].0 in Attrs
    ensures n < |row| ==> row[n].0 !in Attrs
  {
    if row == [] || row[0].0 !in Attrs then 0 else 1 + FirstUnknown(row[1..])
  }

  /** The text of the last non-empty cell under `key`, if any. */
  function LastValue(row: Row, key: string): (r: Option<string>)
    ensures r.Some? ==> |r.value| > 0
    ensures r.Some? <==> exists k :: 0 <= k < |row| && row[k].0 == key && |row[k].1| > 0
  {
    if row == [] then None
    else
      var later := LastValue(row[1..], key);
      assert later.Some? <==> exists k :: 1 <= k < |row| && row[k].0 == key && |row[k].1| > 0 by {
        if later.Some? {
          var k :| 0 <= k < |row| - 1 && row[1..][k].0 == key && |row[1..][k].1| > 0;
          assert row[k + 1] == row[1..][k];
        }
        if exists k :: 1 <= k < |row| && row[k].0 == key && |row[k].1| > 0 {
          var k :| 1 <= k < |row| && row[k].0 == key && |row[k].1| > 0;
          assert row[1..][k - 1] == row[k];
        }
      }
      if later.Some? then later
      else if row[0].0 == key && |row[0].1| > 0 then Some(row[0].1)
      else None
  }

  /** `course` with every field named by the record replaced by its last non-empty cell. */
  function Overlay(course: Course, row: Row): Course {
    Course(
      LastValue(row, "Mã môn").GetOr(course.id),
      LastValue(row, "Tên môn").GetOr(course.courseName),
      match LastValue(row, "Loại môn")
      case Some(v) => ClassifyType(v)
      case None => course.courseType,
      match LastValue(row, "STC")
      case Some(v) => ToNumber(v)
      case None => course.numberOfCredits,
      course.isHidden)
  }

  /** One "missing" notice per empty cell, in column order. */
  function MissingReports(row: Row, i: nat): seq<Effect> {
    if row == [] then []
    else
      (if |row[0].1| == 0 then ReportError(MissingMessage(row[0].0, i)) else [])
        + MissingReports(row[1..], i)
  }

  /** What the loop does to a record: a record with an unknown header is dropped with an
      "Incorrect format" notice after the notices of the empty cells before it; any other
      record yields the course its last non-empty cells describe. */
  lemma {:induction false} ApplyEntriesMeaning(course: Course, row: Row, i: nat)
    ensures ApplyEntries(course, row, i).course
      == (if WellFormedRow(row) then Some(Overlay(course, row)) else None)
    ensures ApplyEntries(course, row, i).notices
      == MissingReports(row[..FirstUnknown(row)], i)
         + (if WellFormedRow(row) then [] else ReportError(IncorrectFormat))
    decreases |row|
  {
    if row == [] {
      assert row[..0] == [];
    } else if row[0].0 !in Attrs {
      assert !WellFormedRow(row);
      assert row[..FirstUnknown(row)] == [];
    } else {
      var (key, value) := row[0];
      var tail := row[1..];
      WellFormedCons(row);
      MissingReportsCons(row, i);
      if |value| == 0 {
        ApplyEntriesMeaning(course, tail, i);
        if WellFormedRow(row) {
          OverlaySkipsEmpty(course, row);
        }
      } else {
        ApplyEntriesMeaning(SetField(course, key, value), tail, i);
        if WellFormedRow(row) {
          OverlayFirstEntry(course, row);
        }
      }
    }
  }

  /** A record whose first header is in the template is well formed exactly when the
      rest of it is. */
  lemma WellFormedCons(row: Row)
    requires row != [] && row[0].0 in Attrs
    ensures WellFormedRow(row) <==> WellFormedRow(row[1..])
  {
    var tail := row[1..];
    if WellFormedRow(tail) {
      forall k | 0 <= k < |row| ensures row[k].0 in Attrs {
        if k > 0 { assert row[k] == tail[k - 1]; }
      }
    }
    if WellFormedRow(row) {
      forall k | 0 <= k < |tail| ensures tail[k].0 in Attrs {
        assert tail[k] == row[k + 1];
      }
    }
  }

  /** The "missing" notices before the first unknown header, one cell at a time. */
  lemma MissingReportsCons(row: Row, i: nat)
    requires row != [] && row[0].0 in Attrs
    ensures MissingReports(row[..FirstUnknown(row)], i)
      == (if |row[0].1| == 0 then ReportError(MissingMessage(row[0].0, i)) else [])
         + MissingReports(row[1..][..FirstUnknown(row[1..])], i)
  {
    var tail := row[1..];
    var prefix := row[..FirstUnknown(row)];
    assert prefix == [row[0]] + tail[..FirstUnknown(tail)];
    assert prefix[1..] == tail[..FirstUnknown(tail)];
  }

  /** An empty first cell does not change the overlay. */
  lemma OverlaySkipsEmpty(course: Course, row: Row)
    requires row != [] && |row[0].1| == 0
    ensures Overlay(course, row) == Overlay(course, row[1..])
  {
  }

  /** A non-empty template cell first sets its field, later cells override it (only when
      a header repeats, see `Row`). */
  lemma OverlayFirstEntry(course: Course, row: Row)
    requires row != [] && row[0].0 in Attrs && |row[0].1| > 0
    ensures Overlay(course, row) == Overlay(SetField(course, row[0].0, row[0].1), row[1..])
  {
    var (key, value) := row[0];
    SetFieldFields(course, key, value);
    LastValueCons(row, "Mã môn");
    LastValueCons(row, "Tên môn");
    LastValueCons(row, "Loại môn");
    LastValueCons(row, "STC");
  }

  /** For a template header, `SetField` changes exactly the field that header names. */
  lemma SetFieldFields(course: Course, key: string, value: string)
    requires key in Attrs
    ensures var c := SetField(course, key, value);
      && c.id == (if key == "Mã môn" then value else course.id)
      && c.courseName == (if key == "Tên môn" then value else course.courseName)
      && c.courseType == (if key == "Loại môn" then ClassifyType(value) else course.courseType)
      && c.numberOfCredits == (if key == "STC" then ToNumber(value) else course.numberOfCredits)
      && c.isHidden == course.isHidden
  {
    SetFieldOnTemplate(course, value);
  }

  /** The last non-empty cell under `key` is in the rest of the record, or else it is the
      first cell (the rest can hold `key` only when a header repeats, see `Row`). */
  lemma LastValueCons(row: Row, key: string)
    requires row != []
    ensures LastValue(row, key)
      == if LastValue(row[1..], key).Some? then LastValue(row[1..], key)
         else if row[0].0 == key && |row[0].1| > 0 then Some(row[0].1)
         else None
  {
  }

  /** The per-record reading with the defaults filled in. */
  lemma RowResultMeaning(row: Row, i: nat)
    ensures RowResult(row, i).course.Some? <==> WellFormedRow(row)
    ensures WellFormedRow(row) ==> RowResult(row, i).course.value == Overlay(DefaultCourse, row)
    ensures !WellFormedRow(row) ==>
      RowResult(row, i).notices == MissingReports(row[..FirstUnknown(row)], i) + ReportError(IncorrectFormat)
  {
    ApplyEntriesMeaning(DefaultCourse, row, i);
  }

  // ---------------------------------------------------------------------------
  // The whole sheet

  datatype Conversion = Conversion(courses: seq<Course>, notices: seq<Effect>)

  /** Converting the records in sheet order, collecting the kept courses and notices. */
  function SheetResult(sheet: Sheet): Conversion {
    if sheet == [] then Conversion([], [])
    else
      var before := SheetResult(sheet[..|sheet| - 1]);
      var last := RowResult(sheet[|sheet| - 1], |sheet| - 1);
      Conversion(
        before.courses + (if last.course.Some? then [last.course.value] else []),
        before.notices + last.notices)
  }

  /** Reference: the well-formed records, in order, each read declaratively. */
  ghost function KeptCourses(sheet: Sheet): (courses: seq<Course>)
    ensures |courses| <= |sheet|
    ensures forall k :: 0 <= k < |courses| ==> !courses[k].isHidden
  {
    if sheet == [] then []
    else
      var last := sheet[|sheet| - 1];
      KeptCourses(sheet[..|sheet| - 1])
        + (if WellFormedRow(last) then [Overlay(DefaultCourse, last)] else [])
  }

  /** The conversion keeps exactly the well-formed records, in sheet order, at most one
      course each, none of them hidden. */
  lemma {:induction false} SheetResultKeepsWellFormed(sheet: Sheet)
    ensures SheetResult(sheet).courses == KeptCourses(sheet)
    decreases |sheet|
  {
    if sheet != [] {
      SheetResultKeepsWellFormed(sheet[..|sheet| - 1]);
      RowResultMeaning(sheet[|sheet| - 1], |sheet| - 1);
    }
  }

  /** `data.forEach(...)`: converts every record, pushing the kept courses. */
  method ConvertSheet(sheet: Sheet) returns (courses: seq<Course>, notices: seq<Effect>)
    ensures Conversion(courses, notices) == SheetResult(sheet)
  {
    courses, notices := [], [];
    var i := 0;
    while i < |sheet|
      invariant 0 <= i <= |sheet|
      invariant Conversion(courses, notices) == SheetResult(sheet[..i])
    {
      var course, rowNotices := ConvertRow(sheet[i], i);
      notices := notices + rowNotices;
      if course.Some? {
        courses := courses + [course.value];
      }
      assert sheet[..i + 1][..i] == sheet[..i];
      i := i + 1;
    }
    assert sheet[..i] == sheet;
  }

  /** Each "Incorrect format" notice stands for one dropped record. */
  function CountFormatErrors(notices: seq<Effect>): nat {
    if notices == [] then 0
    else
      CountFormatErrors(notices[..|notices| - 1])
        + (if notices[|notices| - 1] == Dispatch(SetSnackBarContent(IncorrectFormat)) then 1 else 0)
  }

  lemma {:induction false} CountFormatErrorsConcat(a: seq<Effect>, b: seq<Effect>)
    ensures CountFormatErrors(a + b) == CountFormatErrors(a) + CountFormatErrors(b)
    decreases |b|
  {
    if b == [] {
      assert a + b == a;
    } else {
      assert (a + b)[..|a + b| - 1] == a + b[..|b| - 1];
      CountFormatErrorsConcat(a, b[..|b| - 1]);
    }
  }

  /** A "missing" notice never reads as the format error: they end differently. */
  lemma MissingMessageIsNotFormatError(key: string, i: nat)
    ensures MissingMessage(key, i) != IncorrectFormat
  {
    var m := MissingMessage(key, i);
    assert m[|m| - 1] == 'd';
    assert IncorrectFormat[|IncorrectFormat| - 1] == '.';
  }

  /** The notices of a well-formed record contain no format error. */
  lemma {:induction false} MissingReportsNoFormatError(row: Row, i: nat)
    requires WellFormedRow(row)
    ensures CountFormatErrors(MissingReports(row, i)) == 0
    decreases |row|
  {
    if row != [] {
      var head := if |row[0].1| == 0 then ReportError(MissingMessage(row[0].0, i)) else [];
      if |row[0].1| == 0 {
        var m := MissingMessage(row[0].0, i);
        MissingMessageIsNotFormatError(row[0].0, i);
        assert CountFormatErrors(head) == 0 by {
          assert head[..1] == [Dispatch(SetSnackBarContent(m))];
          assert head[..1][..0] == [];
          assert CountFormatErrors(head[..1]) == 0;
        }
      }
      assert WellFormedRow(row[1..]) by {
        forall k | 0 <= k < |row[1..]| ensures row[1..][k].0 in Attrs {
          assert row[1..][k] == row[k + 1];
        }
      }
      MissingReportsNoFormatError(row[1..], i);
      CountFormatErrorsConcat(head, MissingReports(row[1..], i));
    }
  }

  /** A record reports "Incorrect format" once if it is dropped, else never. */
  lemma RowFormatErrors(row: Row, i: nat)
    ensures CountFormatErrors(RowResult(row, i).notices)
      == if RowResult(row, i).course.Some? then 0 else 1
  {
    ApplyEntriesMeaning(DefaultCourse, row, i);
    var prefix := row[..FirstUnknown(row)];
    assert WellFormedRow(prefix) by {
      forall k | 0 <= k < |prefix| ensures prefix[k].0 in Attrs {
        assert prefix[k] == row[k];
      }
    }
    MissingReportsNoFormatError(prefix, i);
    if WellFormedRow(row) {
      assert RowResult(row, i).notices == MissingReports(prefix, i);
    } else {
      var report := ReportError(IncorrectFormat);
      CountFormatErrorsConcat(MissingReports(prefix, i), report);
      assert report[..1] == [Dispatch(SetSnackBarContent(IncorrectFormat))];
      assert report[..1][..0] == [];
      assert CountFormatErrors(report[..1]) == 1;
      assert CountFormatErrors(report) == 1;
    }
  }

  /** Every dropped record, and only those, reports "Incorrect format" once. */
  lemma {:induction false} FormatErrorsCountDroppedRows(sheet: Sheet)
    ensures |SheetResult(sheet).courses| <= |sheet|
    ensures CountFormatErrors(SheetResult(sheet).notices)
      == |sheet| - |SheetResult(sheet).courses|
    decreases |sheet|
  {
    if sheet != [] {
      var i := |sheet| - 1;
      FormatErrorsCountDroppedRows(sheet[..i]);
      RowFormatErrors(sheet[i], i);
      CountFormatErrorsConcat(SheetResult(sheet[..i]).notices, RowResult(sheet[i], i).notices);
    }
  }

  // ---------------------------------------------------------------------------
  // Sending the courses

  function NewCourses(courses: seq<Course>): (r: seq<Action>)
    ensures |r| == |courses|
    ensures forall k :: 0 <= k < |r| ==> r[k] == NewCourse(courses[k])
  {
    seq(|courses|, k requires 0 <= k < |courses| => NewCourse(courses[k]))
  }

  /** The `try`/`catch`/`finally` around the creation loop, `responses[k]` answering the
      request for `courses[k]`. */
  function SubmitCoursesTrace(courses: seq<Course>, responses: seq<Response>): seq<Effect>
    requires |courses| <= |responses|
  {
    var n := |courses|;
    var k := FirstRejection(responses, n);
    [SetStatus(Pending)]
      + Dispatches(NewCourses(courses[..Sent(k, n)]))
      + (if k == n then ReportSuccess(AllCreated)
         else ReportFailure(responses[k].serverMessage, CreateFailed))
      + [SetStatus(Idle), SetShowModal(false)]
  }

  /** Courses are requested in list order up to and including the first rejected one;
      nothing after it is sent. */
  lemma SubmitCoursesRequests(courses: seq<Course>, responses: seq<Response>)
    requires |courses| <= |responses|
    ensures var k := FirstRejection(responses, |courses|);
      RequestsOf(SubmitCoursesTrace(courses, responses)) == NewCourses(courses[..Sent(k, |courses|)])
  {
    var n := |courses|;
    var k := FirstRejection(responses, n);
    var report := if k == n then ReportSuccess(AllCreated)
                  else ReportFailure(responses[k].serverMessage, CreateFailed);
    SubmitTraceRequests(NewCourses(courses[..Sent(k, n)]), report, [SetStatus(Idle), SetShowModal(false)]);
  }

  /** `status` is `pending` whenever a course is requested, and ends `idle` with the
      modal closed whatever the outcome. */
  lemma SubmitCoursesStatus(s: Status, courses: seq<Course>, responses: seq<Response>)
    requires |courses| <= |responses|
    ensures var trace := SubmitCoursesTrace(courses, responses);
      RequestsWhilePending(s, trace) && StatusAfter(s, trace) == Idle
      && trace[|trace| - 1] == SetShowModal(false)
  {
    var n := |courses|;
    var k := FirstRejection(responses, n);
    var report := if k == n then ReportSuccess(AllCreated)
                  else ReportFailure(responses[k].serverMessage, CreateFailed);
    SubmitTraceStatus(s, NewCourses(courses[..Sent(k, n)]), report, [SetStatus(Idle), SetShowModal(false)]);
  }

  /** "All new courses created" is reported exactly when every course was accepted;
      otherwise an error with the first rejection's server message or the fallback.
      That message is the only snackbar text the submission sets. */
  lemma SubmitCoursesReport(courses: seq<Course>, responses: seq<Response>)
    requires |courses| <= |responses|
    ensures var trace := SubmitCoursesTrace(courses, responses);
      && (Dispatch(ShowSuccessSnackBar) in trace <==>
          forall j :: 0 <= j < |courses| ==> responses[j].Accepted?)
      && (Dispatch(ShowErrorSnackBar) in trace <==>
          exists j :: 0 <= j < |courses| && responses[j].Rejected?)
    ensures var trace := SubmitCoursesTrace(courses, responses);
      var k := FirstRejection(responses, |courses|);
      var message := if k == |courses| then AllCreated else responses[k].serverMessage.GetOr(CreateFailed);
      forall m :: Dispatch(SetSnackBarContent(m)) in trace <==> m == message
  {
    var n := |courses|;
    var k := FirstRejection(responses, n);
    var trace := SubmitCoursesTrace(courses, responses);
    var sent := Dispatches(NewCourses(courses[..Sent(k, n)]));
    var report := if k == n then ReportSuccess(AllCreated)
                  else ReportFailure(responses[k].serverMessage, CreateFailed);
    assert trace == [SetStatus(Pending)] + sent + report + [SetStatus(Idle), SetShowModal(false)];
    assert Dispatch(ShowSuccessSnackBar) !in sent && Dispatch(ShowErrorSnackBar) !in sent;
    assert forall m :: Dispatch(SetSnackBarContent(m)) !in sent;
    assert Dispatch(ShowSuccessSnackBar) in trace <==> Dispatch(ShowSuccessSnackBar) in report;
    assert Dispatch(ShowErrorSnackBar) in trace <==> Dispatch(ShowErrorSnackBar) in report;
    if k < n {
      assert responses[k].Rejected?;
    }
  }

  /** The import modal's own state: its `status` and what it has done so far. */
  class ImportCourseModal {
    var status: Status
    var effects: seq<Effect>

    constructor ()
      ensures status == Idle && effects == []
    {
      status := Idle;
      effects := [];
    }

    /** `handleSubmit` once the file is read: convert the sheet, then create the courses
        in order; `responses[k]` is the server's answer to the `k`-th request. */
    method HandleSubmit(sheet: Sheet, responses: seq<Response>)
      requires |sheet| <= |responses|
      modifies this
      ensures |SheetResult(sheet).courses| <= |responses|
      ensures effects == old(effects) + SheetResult(sheet).notices
        + SubmitCoursesTrace(SheetResult(sheet).courses, responses)
      ensures status == Idle
    {
      var courses, notices := ConvertSheet(sheet);
      SheetResultKeepsWellFormed(sheet);
      effects := effects + notices;
      SubmitCourses(courses, responses);
    }

    /** The `try`/`catch`/`finally` that sends the converted courses one at a time. */
    method SubmitCourses(courses: seq<Course>, responses: seq<Response>)
      requires |courses| <= |responses|
      modifies this
      ensures effects == old(effects) + SubmitCoursesTrace(courses, responses)
      ensures status == Idle
    {
      status := Pending;
      effects := effects + [SetStatus(Pending)];
      CreateAll(courses, responses);
      ghost var k := FirstRejection(responses, |courses|);
      ghost var sent := Dispatches(NewCourses(courses[..Sent(k, |courses|)]));
      ghost var report := if k == |courses| then ReportSuccess(AllCreated)
                          else ReportFailure(responses[k].serverMessage, CreateFailed);
      status := Idle;
      effects := effects + [SetStatus(Idle), SetShowModal(false)];
      assert effects == old(effects) + ([SetStatus(Pending)] + sent + report + [SetStatus(Idle), SetShowModal(false)]);
    }

    /** The `for … of` loop awaiting each `newCourse`, and the report that follows it. */
    method CreateAll(courses: seq<Course>, responses: seq<Response>)
      requires |courses| <= |responses|
      modifies this`effects
      ensures var k := FirstRejection(responses, |courses|);
        effects == old(effects) + Dispatches(NewCourses(courses[..Sent(k, |courses|)]))
          + (if k == |courses| then ReportSuccess(AllCreated)
             else ReportFailure(responses[k].serverMessage, CreateFailed))
    {
      var i := 0;
      var rejected := false;
      while i < |courses| && !rejected
        decreases |courses| - i, if rejected then 0 else 1
        invariant 0 <= i <= |courses|
        invariant forall j :: 0 <= j < i ==> responses[j].Accepted?
        invariant rejected ==> i < |courses| && responses[i].Rejected?
        invariant effects == old(effects) + Dispatches(NewCourses(courses[..if rejected then i + 1 else i]))
      {
        effects := effects + [Dispatch(NewCourse(courses[i]))];
        assert NewCourses(courses[..i + 1]) == NewCourses(courses[..i]) + [NewCourse(courses[i])];
        if responses[i].Rejected? {
          rejected := true;
        } else {
          i := i + 1;
        }
      }
      assert FirstRejection(responses, |courses|) == i;
      if !rejected {
        assert courses[..i] == courses;
        effects := effects + ReportSuccess(AllCreated);
      } else {
        effects := effects + ReportFailure(responses[i].serverMessage, CreateFailed);
      }
    }
  }
}
