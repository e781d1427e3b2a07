/** Opening a registration window: build the draft from the form, create it on the
    server, then (when "Apply to all courses" is checked) attach every course to it,
    one request at a time, stopping at the first rejection without rolling back. */
module OpenRegistration {
  import opened Model

  const OpenSucceeded: string := "Open registration successfully"
  const OpenFailed: string := "Failed to open registration"

  /** The form data as submitted: numbered after the registrations already loaded,
      opening, visible, and attached to the current semester. */
  function Draft(data: Registration, registrations: seq<Registration>, semester: Semester): (d: Registration)
    ensures d.batch == |registrations| + 1 && d.isOpening && !d.isHidden && d.semester == semester.id
    ensures d.id == data.id && d.startDate == data.startDate && d.endDate == data.endDate
  {
    data.(batch := |registrations| + 1, isOpening := true, isHidden := false, semester := semester.id)
  }

  /** `courses.map(course => ({registration, course: course._id}))`. */
  function RegistrableCourses(registration: string, courses: seq<Course>): (r: seq<RegistrableCourse>)
    ensures |r| == |courses|
    ensures forall k :: 0 <= k < |r| ==> r[k] == RegistrableCourse(registration, courses[k].id)
  {
    seq(|courses|, k requires 0 <= k < |courses| => RegistrableCourse(registration, courses[k].id))
  }

  /** Every course gets an association with the new registration, and nothing else does. */
  lemma RegistrableCoursesCover(registration: string, courses: seq<Course>)
    ensures forall a: RegistrableCourse :: a in RegistrableCourses(registration, courses) <==>
      a.registration == registration && exists c :: c in courses && c.id == a.course
  {
    var r := RegistrableCourses(registration, courses);
    forall a: RegistrableCourse | a.registration == registration && exists c :: c in courses && c.id == a.course
      ensures a in r
    {
      var c :| c in courses && c.id == a.course;
      var k :| 0 <= k < |courses| && courses[k] == c;
      assert r[k] == a;
    }
  }

  function NewAssociations(associations: seq<RegistrableCourse>): (r: seq<Action>)
    ensures |r| == |associations|
    ensures forall k :: 0 <= k < |r| ==> r[k] == NewRegistrableCourse(associations[k])
  {
    seq(|associations|, k requires 0 <= k < |associations| => NewRegistrableCourse(associations[k]))
  }

  /** The associations requested after the registration was created: one per course,
      in order, up to and including the first rejected one; none when the registration
      was refused or the courses are picked by hand. */
  function SentAssociations(courses: seq<Course>, allCoursesApplied: bool,
                            openResponse: Response, responses: seq<Response>): seq<RegistrableCourse>
    requires |courses| <= |responses|
  {
    if openResponse.Accepted? && allCoursesApplied then
      RegistrableCourses(openResponse.id, courses)[..Sent(FirstRejection(responses, |courses|), |courses|)]
    else []
  }

  /** The snackbar report: the `catch` block when the registration or an association was
      rejected, the success message otherwise. */
  function OnSubmitOutcome(courses: seq<Course>, allCoursesApplied: bool,
                           openResponse: Response, responses: seq<Response>): seq<Effect>
    requires |courses| <= |responses|
  {
    match openResponse
    case Rejected(message) => ReportFailure(message, OpenFailed)
    case Accepted(_) =>
      var k := FirstRejection(responses, |courses|);
      if allCoursesApplied && k < |courses| then ReportFailure(responses[k].serverMessage, OpenFailed)
      else ReportSuccess(OpenSucceeded)
  }

  /** The `try`/`catch`/`finally` of `onSubmit` for a completed draft. */
  function SubmitDraftTrace(draft: Registration, courses: seq<Course>, allCoursesApplied: bool,
                            openResponse: Response, responses: seq<Response>): seq<Effect>
    requires |courses| <= |responses|
  {
    [SetStatus(Pending)]
      + Dispatches([OpenRegistration(draft)]
          + NewAssociations(SentAssociations(courses, allCoursesApplied, openResponse, responses)))
      + OnSubmitOutcome(courses, allCoursesApplied, openResponse, responses)
      + [SetStatus(Idle), SetShowModal(false)]
  }

  /** `onSubmit` with the form `data`, the loaded courses, registrations and semesters,
      the checkbox, and the server's answers: `openResponse` to the registration,
      `responses[k]` to the association of `courses[k]`. */
  function OnSubmitTrace(
    data: Registration, courses: seq<Course>, registrations: seq<Registration>,
    semesters: seq<Semester>, allCoursesApplied: bool,
    openResponse: Response, responses: seq<Response>): seq<Effect>
    requires |courses| <= |responses|
  {
    if |courses| > 0 && |semesters| > 0 then
      SubmitDraftTrace(Draft(data, registrations, semesters[0]), courses, allCoursesApplied, openResponse, responses)
    else []
  }

  /** Without a course or a semester nothing happens at all. */
  lemma OnSubmitGate(
    data: Registration, courses: seq<Course>, registrations: seq<Registration>,
    semesters: seq<Semester>, allCoursesApplied: bool,
    openResponse: Response, responses: seq<Response>)
    requires |courses| <= |responses|
    ensures OnSubmitTrace(data, courses, registrations, semesters, allCoursesApplied, openResponse, responses) == []
      <==> |courses| == 0 || |semesters| == 0
  {
  }

  /** The requests made: the draft first; then, only when it was created and every course
      applies, one association per course in course order, up to and including the first
      rejected one. */
  lemma OnSubmitRequests(
    data: Registration, courses: seq<Course>, registrations: seq<Registration>,
    semesters: seq<Semester>, allCoursesApplied: bool,
    openResponse: Response, responses: seq<Response>)
    requires |courses| <= |responses|
    requires |courses| > 0 && |semesters| > 0
    ensures var k := FirstRejection(responses, |courses|);
      RequestsOf(OnSubmitTrace(data, courses, registrations, semesters, allCoursesApplied, openResponse, responses))
      == [OpenRegistration(Draft(data, registrations, semesters[0]))]
         + (if openResponse.Accepted? && allCoursesApplied
            then NewAssociations(RegistrableCourses(openResponse.id, courses)[..Sent(k, |courses|)])
            else [])
  {
    var requests := [OpenRegistration(Draft(data, registrations, semesters[0]))]
      + NewAssociations(SentAssociations(courses, allCoursesApplied, openResponse, responses));
    SubmitTraceRequests(requests, OnSubmitOutcome(courses, allCoursesApplied, openResponse, responses),
      [SetStatus(Idle), SetShowModal(false)]);
  }

  /** `status` is `pending` while any request is out and ends `idle`, with the modal
      closed, on success and on every failure. */
  lemma OnSubmitStatus(
    s: Status, data: Registration, courses: seq<Course>, registrations: seq<Registration>,
    semesters: seq<Semester>, allCoursesApplied: bool,
    openResponse: Response, responses: seq<Response>)
    requires |courses| <= |responses|
    requires |courses| > 0 && |semesters| > 0
    ensures var trace := OnSubmitTrace(data, courses, registrations, semesters, allCoursesApplied, openResponse, responses);
      RequestsWhilePending(s, trace) && StatusAfter(s, trace) == Idle
      && trace[|trace| - 1] == SetShowModal(false)
  {
    var requests := [OpenRegistration(Draft(data, registrations, semesters[0]))]
      + NewAssociations(SentAssociations(courses, allCoursesApplied, openResponse, responses));
    SubmitTraceStatus(s, requests, OnSubmitOutcome(courses, allCoursesApplied, openResponse, responses),
      [SetStatus(Idle), SetShowModal(false)]);
  }

  /** "Open registration successfully" is shown exactly when the registration and every
      association it needed were accepted; otherwise an error with the rejecting
      request's server message or the fallback. That message is the only snackbar text
      the submission sets. */
  lemma OnSubmitReport(
    data: Registration, courses: seq<Course>, registrations: seq<Registration>,
    semesters: seq<Semester>, allCoursesApplied: bool,
    openResponse: Response, responses: seq<Response>)
    requires |courses| <= |responses|
    requires |courses| > 0 && |semesters| > 0
    ensures var trace := OnSubmitTrace(data, courses, registrations, semesters, allCoursesApplied, openResponse, responses);
      var succeeded := openResponse.Accepted?
        && (allCoursesApplied ==> forall j :: 0 <= j < |courses| ==> responses[j].Accepted?);
      (Dispatch(ShowSuccessSnackBar) in trace <==> succeeded)
      && (Dispatch(ShowErrorSnackBar) in trace <==> !succeeded)
    ensures var trace := OnSubmitTrace(data, courses, registrations, semesters, allCoursesApplied, openResponse, responses);
      var k := FirstRejection(responses, |courses|);
      var message :=
        if openResponse.Rejected? then openResponse.serverMessage.GetOr(OpenFailed)
        else if allCoursesApplied && k < |courses| then responses[k].serverMessage.GetOr(OpenFailed)
        else OpenSucceeded;
      forall m :: Dispatch(SetSnackBarContent(m)) in trace <==> m == message
  {
    var k := FirstRejection(responses, |courses|);
    var sent := Dispatches([OpenRegistration(Draft(data, registrations, semesters[0]))]
      + NewAssociations(SentAssociations(courses, allCoursesApplied, openResponse, responses)));
    var report := OnSubmitOutcome(courses, allCoursesApplied, openResponse, responses);
    assert Dispatch(ShowSuccessSnackBar) !in sent && Dispatch(ShowErrorSnackBar) !in sent;
    assert forall m :: Dispatch(SetSnackBarContent(m)) !in sent;
    if k < |courses| {
      assert responses[k].Rejected?;
    }
  }

  /** The modal's own state. */
  class OpenRegistrationModal {
    var status: Status
    var isAllCoursesApplied: bool
    var effects: seq<Effect>

    constructor ()
      ensures status == Idle && isAllCoursesApplied && effects == []
    {
      status := Idle;
      isAllCoursesApplied := true;
      effects := [];
    }

    /** The "Apply to all courses" checkbox. */
    method SetAllCoursesApplied(checked: bool)
      modifies this
      ensures isAllCoursesApplied == checked
      ensures status == old(status) && effects == old(effects)
    {
      isAllCoursesApplied := checked;
    }

    /** `onSubmit`. */
    method OnSubmit(
      data: Registration, courses: seq<Course>, registrations: seq<Registration>,
      semesters: seq<Semester>, openResponse: Response, responses: seq<Response>)
      requires |courses| <= |responses|
      modifies this
      ensures effects == old(effects)
        + OnSubmitTrace(data, courses, registrations, semesters, isAllCoursesApplied, openResponse, responses)
      ensures isAllCoursesApplied == old(isAllCoursesApplied)
      ensures status == if |courses| > 0 && |semesters| > 0 then Idle else old(status)
    {
      if |courses| > 0 && |semesters| > 0 {
        var semester := semesters[0];
        var draft := data;
        draft := draft.(batch := |registrations| + 1);
        draft := draft.(isOpening := true);
        draft := draft.(isHidden := false);
        draft := draft.(semester := semester.id);
        assert draft == Draft(data, registrations, semester);
        Submit(draft, courses, openResponse, responses);
      } else {
        assert effects + [] == effects;
      }
    }

    /** The `try`/`catch`/`finally` of `onSubmit`, once the draft is complete. */
    method Submit(draft: Registration, courses: seq<Course>, openResponse: Response, responses: seq<Response>)
      requires |courses| <= |responses|
      modifies this
      ensures effects == old(effects)
        + SubmitDraftTrace(draft, courses, isAllCoursesApplied, openResponse, responses)
      ensures isAllCoursesApplied == old(isAllCoursesApplied) && status == Idle
    {
      status := Pending;
      effects := effects + [SetStatus(Pending), Dispatch(OpenRegistration(draft))];
      AfterOpen(courses, openResponse, responses);
      ghost var sent := NewAssociations(SentAssociations(courses, isAllCoursesApplied, openResponse, responses));
      ghost var outcome := OnSubmitOutcome(courses, isAllCoursesApplied, openResponse, responses);
      DispatchesConcat([OpenRegistration(draft)], sent);
      assert [SetStatus(Pending)] + Dispatches([OpenRegistration(draft)] + sent)
        == [SetStatus(Pending), Dispatch(OpenRegistration(draft))] + Dispatches(sent);
      status := Idle;
      effects := effects + [SetStatus(Idle), SetShowModal(false)];
      assert effects == old(effects)
        + ([SetStatus(Pending), Dispatch(OpenRegistration(draft))] + Dispatches(sent) + outcome
           + [SetStatus(Idle), SetShowModal(false)]);
    }

    /** What follows the registration request inside the `try`: the associations when
        the registration was created and every course applies, then the report. */
    method AfterOpen(courses: seq<Course>, openResponse: Response, responses: seq<Response>)
      requires |courses| <= |responses|
      modifies this`effects
      ensures effects == old(effects)
        + Dispatches(NewAssociations(SentAssociations(courses, isAllCoursesApplied, openResponse, responses)))
        + OnSubmitOutcome(courses, isAllCoursesApplied, openResponse, responses)
    {
      match openResponse {
        case Rejected(message) =>
          effects := effects + ReportFailure(message, OpenFailed);
        case Accepted(id) =>
          if isAllCoursesApplied {
            var associations := RegistrableCourses(id, courses);
            AssociateAll(associations, responses);
          } else {
            effects := effects + ReportSuccess(OpenSucceeded);
          }
      }
      assert Dispatches(NewAssociations([])) == [];
    }

    /** The `for` loop that creates the associations one by one, and the report that
        follows it. */
    method AssociateAll(associations: seq<RegistrableCourse>, responses: seq<Response>)
      requires |associations| <= |responses|
      modifies this`effects
      ensures var k := FirstRejection(responses, |associations|);
        effects == old(effects) + Dispatches(NewAssociations(associations[..Sent(k, |associations|)]))
          + (if k == |associations| then ReportSuccess(OpenSucceeded)
             else ReportFailure(responses[k].serverMessage, OpenFailed))
    {
      var i := 0;
      var rejected := false;
      while i < |associations| && !rejected
        decreases |associations| - i, if rejected then 0 else 1
        invariant 0 <= i <= |associations|
        invariant forall j :: 0 <= j < i ==> responses[j].Accepted?
        invariant rejected ==> i < |associations| && responses[i].Rejected?
        invariant effects == old(effects)
          + Dispatches(NewAssociations(associations[..if rejected then i + 1 else i]))
      {
        effects := effects + [Dispatch(NewRegistrableCourse(associations[i]))];
        assert NewAssociations(associations[..i + 1])
          == NewAssociations(associations[..i]) + [NewRegistrableCourse(associations[i])];
        if responses[i].Rejected? {
          rejected := true;
        } else {
          i := i + 1;
        }
      }
      assert FirstRejection(responses, |associations|) == i;
      if !rejected {
        assert associations[..i] == associations;
        effects := effects + ReportSuccess(OpenSucceeded);
      } else {
        effects := effects + ReportFailure(responses[i].serverMessage, OpenFailed);
      }
    }
  }

  /** The submit button's `disabled`: while a submission is pending, or when the
      courses are to be picked by hand and none is picked. */
  predicate SubmitDisabled(status: Status, allCoursesApplied: bool, selectedCourses: seq<string>) {
    status == Pending || (!allCoursesApplied && |selectedCourses| == 0)
  }

  /** The button is disabled whenever a request of the submission is out, and afterwards
      it is disabled only if courses are picked by hand and none is picked. */
  lemma SubmitDisabledDuringSubmit(
    s: Status, selectedCourses: seq<string>, data: Registration, courses: seq<Course>,
    registrations: seq<Registration>, semesters: seq<Semester>, allCoursesApplied: bool,
    openResponse: Response, responses: seq<Response>)
    requires |courses| <= |responses|
    requires |courses| > 0 && |semesters| > 0
    ensures var trace := OnSubmitTrace(data, courses, registrations, semesters, allCoursesApplied, openResponse, responses);
      && (forall k :: 0 <= k < |trace| && trace[k].Dispatch? && trace[k].action.IsRequest() ==>
            SubmitDisabled(StatusAfter(s, trace[..k]), allCoursesApplied, selectedCourses))
      && (SubmitDisabled(StatusAfter(s, trace), allCoursesApplied, selectedCourses) <==>
            !allCoursesApplied && |selectedCourses| == 0)
  {
    OnSubmitStatus(s, data, courses, registrations, semesters, allCoursesApplied, openResponse, responses);
  }
}
