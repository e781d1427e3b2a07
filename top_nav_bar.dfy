/** The navigation bar: routing the search box by the first path segment, choosing its
    placeholder and visibility, arming the countdown on the opening registration, and
    closing that registration when the countdown completes. */
module TopNav {
  import opened Text
  import opened Model

  const CourseSearchHint: string := "Enter course name or id to search"
  const LabSearchHint: string := "Enter lab name to search"
  const RegistrationClosed: string := "Registration closed"
  const CloseFailed: string := "Failed to close registration"

  // ---------------------------------------------------------------------------
  // Routing by path

  /** `pathname.split("/")[1]`, `None` standing for `undefined`. */
  function Segment(pathname: string): Option<string> {
    var parts := Split(pathname);
    if |parts| > 1 then Some(parts[1]) else None
  }

  /** The first piece of a split is a prefix that ends at a slash or at the end. */
  lemma {:induction false} FirstPieceIsPrefix(s: string)
    ensures var f := Split(s)[0];
      |f| <= |s| && s[..|f|] == f && (|f| == |s| || s[|f|] == '/')
  {
    if s != [] && s[0] != '/' {
      FirstPieceIsPrefix(s[1..]);
      var g := Split(s[1..])[0];
      assert Split(s)[0] == [s[0]] + g;
      assert s[..|g| + 1] == [s[0]] + s[1..][..|g|];
    }
  }

  /** On a path, the first segment is what lies between the leading slash and the next. */
  lemma SegmentOfPath(pathname: string)
    requires |pathname| > 0 && pathname[0] == '/'
    ensures Segment(pathname) == Some(Split(pathname[1..])[0])
  {
  }

  /** The segment is empty exactly on "/" and on paths starting "//". */
  lemma RootSegment(pathname: string)
    requires |pathname| > 0 && pathname[0] == '/'
    ensures Segment(pathname) == Some("") <==> |pathname| == 1 || pathname[1] == '/'
  {
    SegmentOfPath(pathname);
    var s := pathname[1..];
    if s != [] && s[0] != '/' {
      assert |Split(s)[0]| > 0;
    }
  }

  /** The segment is "schedule" exactly on "/schedule" and on paths below it. */
  lemma ScheduleSegment(pathname: string)
    requires |pathname| > 0 && pathname[0] == '/'
    ensures Segment(pathname) == Some("schedule")
      <==> |pathname| >= 9 && pathname[1..9] == "schedule" && (|pathname| == 9 || pathname[9] == '/')
  {
    SegmentOfPath(pathname);
    var s := pathname[1..];
    FirstPieceIsPrefix(s);
    if |pathname| >= 9 && pathname[1..9] == "schedule" && (|pathname| == 9 || pathname[9] == '/') {
      var rest := pathname[9..];
      assert s == "schedule" + rest;
      SplitSlashFreePrefix("schedule", rest);
      assert Split(rest)[0] == "" by {
        if rest != [] { assert rest[0] == '/'; }
      }
      assert "schedule" + "" == "schedule";
    }
  }

  /** `handleSearch`: only the root segment searches, as a teaching search. */
  function SearchActions(pathname: string, searchText: string): seq<Action> {
    match Segment(pathname)
    case Some(segment) => if segment == "" then [SetTeachingSearch(searchText)] else []
    case None => []
  }

  /** The placeholder `useEffect`: the root and "schedule" segments set their hint; any
      other path keeps the current placeholder. */
  function PlaceholderActions(pathname: string): seq<Action> {
    match Segment(pathname)
    case Some(segment) =>
      if segment == "" then [SetPlaceholder(CourseSearchHint)]
      else if segment == "schedule" then [SetPlaceholder(LabSearchHint)]
      else []
    case None => []
  }

  /** The search box on a path: a teaching search on "/" and "//…", nothing elsewhere. */
  lemma SearchRouting(pathname: string, searchText: string)
    requires |pathname| > 0 && pathname[0] == '/'
    ensures SearchActions(pathname, searchText)
      == if |pathname| == 1 || pathname[1] == '/' then [SetTeachingSearch(searchText)] else []
  {
    RootSegment(pathname);
  }

  /** The placeholder on a path: the course hint on "/", the lab hint under "/schedule",
      no change anywhere else. */
  lemma PlaceholderRouting(pathname: string)
    requires |pathname| > 0 && pathname[0] == '/'
    ensures PlaceholderActions(pathname)
      == if |pathname| == 1 || pathname[1] == '/' then [SetPlaceholder(CourseSearchHint)]
         else if |pathname| >= 9 && pathname[1..9] == "schedule" && (|pathname| == 9 || pathname[9] == '/')
         then [SetPlaceholder(LabSearchHint)]
         else []
  {
    RootSegment(pathname);
    ScheduleSegment(pathname);
  }

  /** A search updates the teaching search exactly where the box invites a course search. */
  lemma SearchAgreesWithPlaceholder(pathname: string, searchText: string)
    ensures SearchActions(pathname, searchText) != []
      <==> PlaceholderActions(pathname) == [SetPlaceholder(CourseSearchHint)]
  {
    if Segment(pathname) == Some("schedule") {
      assert LabSearchHint != CourseSearchHint by {
        assert LabSearchHint[6] != CourseSearchHint[6];
      }
    }
  }

  /** The search bar is shown off the root path, and on it only when there is a
      registration. */
  function SearchBarVisible(pathname: string, registrations: seq<Registration>): bool {
    if pathname != "/" then true else |registrations| > 0
  }

  /** Typing in the bar updates the teaching search on "/" once there is a registration,
      and on paths starting "//"; on "/" with no registration there is no bar to type
      in, and everywhere else (including under "/schedule") the bar does nothing. */
  lemma SearchFromBar(pathname: string, registrations: seq<Registration>, searchText: string)
    requires |pathname| > 0 && pathname[0] == '/'
    ensures SearchBarVisible(pathname, registrations) && SearchActions(pathname, searchText) != []
      <==> (pathname == "/" && registrations != []) || (|pathname| > 1 && pathname[1] == '/')
    ensures SearchActions(pathname, searchText) != [] ==>
      SearchActions(pathname, searchText) == [SetTeachingSearch(searchText)]
  {
    SearchRouting(pathname, searchText);
  }

  // ---------------------------------------------------------------------------
  // Countdown and automatic close

  /** `renderCountdown`: the deadline a countdown is armed with, if any. */
  function Countdown(registrationStatus: Status, registrations: seq<Registration>): (deadline: Option<int>)
    ensures deadline.Some? <==>
      registrationStatus == Succeeded && exists i :: 0 <= i < |registrations| && registrations[i].isOpening
    ensures deadline.Some? ==>
      exists i :: IsFirstOpening(registrations, i) && registrations[i].endDate == deadline.value
  {
    if registrationStatus == Succeeded then
      match FindOpening(registrations)
      case Some(reg) => Some(reg.endDate)
      case None => None
    else None
  }

  /** `handleRegAutoClose` over the loaded registrations, `response` answering the edit. */
  function AutoCloseTrace(registrations: seq<Registration>, response: Response): seq<Effect> {
    match FindOpening(registrations)
    case None => []
    case Some(reg) =>
      [SetStatus(Pending)]
        + Dispatches([EditRegistration(reg.(isOpening := false))])
        + CloseReport(response)
        + [SetStatus(Idle)]
  }

  function CloseReport(response: Response): seq<Effect> {
    match response
    case Accepted(_) => ReportSuccess(RegistrationClosed)
    case Rejected(message) => ReportFailure(message, CloseFailed)
  }

  /** With no opening registration nothing is dispatched and the status is untouched. */
  lemma AutoCloseWithoutOpening(registrations: seq<Registration>, response: Response)
    ensures AutoCloseTrace(registrations, response) == []
      <==> forall i :: 0 <= i < |registrations| ==> !registrations[i].isOpening
  {
  }

  /** The one request sent is the first opening registration with `isOpening` cleared and
      every other field as it was. */
  lemma AutoCloseRequest(registrations: seq<Registration>, response: Response)
    requires exists i :: 0 <= i < |registrations| && registrations[i].isOpening
    ensures exists i :: (IsFirstOpening(registrations, i)
      && RequestsOf(AutoCloseTrace(registrations, response))
         == [EditRegistration(registrations[i].(isOpening := false))])
  {
    var reg := FindOpening(registrations).value;
    SubmitTraceRequests([EditRegistration(reg.(isOpening := false))], CloseReport(response), [SetStatus(Idle)]);
  }

  /** `status` is `pending` while the edit is out and `idle` afterwards, on success and
      on failure. */
  lemma AutoCloseStatus(s: Status, registrations: seq<Registration>, response: Response)
    requires exists i :: 0 <= i < |registrations| && registrations[i].isOpening
    ensures var trace := AutoCloseTrace(registrations, response);
      RequestsWhilePending(s, trace) && StatusAfter(s, trace) == Idle
  {
    var reg := FindOpening(registrations).value;
    SubmitTraceStatus(s, [EditRegistration(reg.(isOpening := false))], CloseReport(response), [SetStatus(Idle)]);
  }

  /** "Registration closed" with the success flag when the edit is accepted; otherwise the
      server's message, or the fallback, with the error flag. That message is the only
      snackbar text the handler sets. */
  lemma AutoCloseReport(registrations: seq<Registration>, response: Response)
    requires exists i :: 0 <= i < |registrations| && registrations[i].isOpening
    ensures var trace := AutoCloseTrace(registrations, response);
      && (response.Accepted? ==>
            Dispatch(SetSnackBarContent(RegistrationClosed)) in trace
            && Dispatch(ShowSuccessSnackBar) in trace && Dispatch(ShowErrorSnackBar) !in trace)
      && (response.Rejected? ==>
            Dispatch(SetSnackBarContent(response.serverMessage.GetOr(CloseFailed))) in trace
            && Dispatch(ShowErrorSnackBar) in trace && Dispatch(ShowSuccessSnackBar) !in trace)
    ensures var trace := AutoCloseTrace(registrations, response);
      var message := if response.Accepted? then RegistrationClosed else response.serverMessage.GetOr(CloseFailed);
      forall m :: Dispatch(SetSnackBarContent(m)) in trace <==> m == message
  {
    var reg := FindOpening(registrations).value;
    var trace := AutoCloseTrace(registrations, response);
    var sent := Dispatches([EditRegistration(reg.(isOpening := false))]);
    assert trace == [SetStatus(Pending)] + sent + CloseReport(response) + [SetStatus(Idle)];
    assert Dispatch(ShowSuccessSnackBar) !in sent && Dispatch(ShowErrorSnackBar) !in sent;
    assert forall m :: Dispatch(SetSnackBarContent(m)) !in sent;
  }

  /** The registration the countdown watches is the one its completion closes: same
      deadline, now not opening. */
  lemma CountdownClosesWatchedRegistration(registrations: seq<Registration>, response: Response)
    requires Countdown(Succeeded, registrations).Some?
    ensures exists closed :: (RequestsOf(AutoCloseTrace(registrations, response)) == [EditRegistration(closed)]
      && closed.endDate == Countdown(Succeeded, registrations).value && !closed.isOpening)
  {
    AutoCloseRequest(registrations, response);
    var i :| IsFirstOpening(registrations, i)
      && RequestsOf(AutoCloseTrace(registrations, response))
         == [EditRegistration(registrations[i].(isOpening := false))];
    var j :| IsFirstOpening(registrations, j)
      && registrations[j].endDate == Countdown(Succeeded, registrations).value;
    assert i == j;
  }

  /** The navigation bar's own state. */
  class TopNavBar {
    var closeRegistrationStatus: Status
    var effects: seq<Effect>

    constructor ()
      ensures closeRegistrationStatus == Idle && effects == []
    {
      closeRegistrationStatus := Idle;
      effects := [];
    }

    /** `handleRegAutoClose`: clone the first opening registration, clear its flag on the
        clone and submit it. Registrations are values here, so the clone is a copy and
        the loaded list is untouched. */
    method HandleRegAutoClose(registrations: seq<Registration>, response: Response)
      modifies this
      ensures effects == old(effects) + AutoCloseTrace(registrations, response)
      ensures closeRegistrationStatus
        == if FindOpening(registrations).Some? then Idle else old(closeRegistrationStatus)
    {
      var cloned := FindOpening(registrations);
      if cloned.Some? {
        var registration := cloned.value;
        registration := registration.(isOpening := false);
        closeRegistrationStatus := Pending;
        effects := effects + [SetStatus(Pending), Dispatch(EditRegistration(registration))];
        assert Dispatches([EditRegistration(registration)]) == [Dispatch(EditRegistration(registration))];
        match response {
          case Accepted(_) =>
            effects := effects + ReportSuccess(RegistrationClosed);
          case Rejected(message) =>
            effects := effects + ReportFailure(message, CloseFailed);
        }
        closeRegistrationStatus := Idle;
        effects := effects + [SetStatus(Idle)];
      }
    }
  }
}
