/** The entities the components share (the store's Course, Registration, Teaching and
    Semester records), the answers of the remote API, and the observable effects of a
    component: Redux actions dispatched, local `status` changes and modal closing. */
module Model {
  import opened Text

  datatype Option<+T> = None | Some(value: T) {
    function GetOr(default: T): T {
      match this
      case Some(v) => v
      case None => default
    }
  }

  /** Loading status of a store slice, and of a component's local `status`. */
  datatype Status = Idle | Pending | Succeeded | Failed

  datatype CourseType = Theory | Practical

  datatype Course = Course(
    id: string,
    courseName: string,
    courseType: CourseType,
    numberOfCredits: JsNumber,
    isHidden: bool)

  datatype Semester = Semester(id: string)

  /** Dates are instants in milliseconds. */
  datatype Registration = Registration(
    id: string,
    batch: int,
    startDate: int,
    endDate: int,
    isOpening: bool,
    isHidden: bool,
    semester: string)

  datatype RegistrableCourse = RegistrableCourse(registration: string, course: string)

  datatype Teaching = Teaching(
    course: string,
    group: int,
    startPeriod: nat,
    endPeriod: nat,
    numberOfStudents: int)

  /** What an awaited remote thunk settles to: fulfilled with the new record's id, or
      rejected, carrying the server's message when the error has a response. */
  datatype Response = Accepted(id: string) | Rejected(serverMessage: Option<string>)

  /** Redux actions. The first four are remote thunks (requests); the rest only update
      the store. */
  datatype Action =
    | NewCourse(course: Course)
    | OpenRegistration(registration: Registration)
    | NewRegistrableCourse(association: RegistrableCourse)
    | EditRegistration(registration: Registration)
    | SetSnackBarContent(message: string)
    | ShowSuccessSnackBar
    | ShowErrorSnackBar
    | SetTeachingSearch(text: string)
    | SetPlaceholder(text: string)
  {
    predicate IsRequest() {
      NewCourse? || OpenRegistration? || NewRegistrableCourse? || EditRegistration?
    }
  }

  /** One observable step of a component, in the order it happens. */
  datatype Effect = Dispatch(action: Action) | SetStatus(status: Status) | SetShowModal(show: bool)

  function Dispatches(actions: seq<Action>): (r: seq<Effect>) {
    seq(|actions|, i requires 0 <= i < |actions| => Dispatch(actions[i]))
  }

  function ReportSuccess(message: string): seq<Effect> {
    [Dispatch(SetSnackBarContent(message)), Dispatch(ShowSuccessSnackBar)]
  }

  function ReportError(message: string): seq<Effect> {
    [Dispatch(SetSnackBarContent(message)), Dispatch(ShowErrorSnackBar)]
  }

  /** The `catch` block: the server's message when there is one, else the fallback. */
  function ReportFailure(serverMessage: Option<string>, fallback: string): seq<Effect> {
    ReportError(serverMessage.GetOr(fallback))
  }

  /** The remote requests of a trace, in order. */
  function RequestsOf(trace: seq<Effect>): (r: seq<Action>)
    ensures forall k :: 0 <= k < |r| ==> r[k].IsRequest()
  {
    if trace == [] then []
    else
      var last := trace[|trace| - 1];
      RequestsOf(trace[..|trace| - 1])
        + (if last.Dispatch? && last.action.IsRequest() then [last.action] else [])
  }

  lemma {:induction false} RequestsOfConcat(a: seq<Effect>, b: seq<Effect>)
    ensures RequestsOf(a + b) == RequestsOf(a) + RequestsOf(b)
    decreases |b|
  {
    if b == [] {
      assert a + b == a;
    } else {
      assert (a + b)[..|a + b| - 1] == a + b[..|b| - 1];
      RequestsOfConcat(a, b[..|b| - 1]);
    }
  }

  lemma {:induction false} RequestsOfDispatches(actions: seq<Action>)
    requires forall k :: 0 <= k < |actions| ==> actions[k].IsRequest()
    ensures RequestsOf(Dispatches(actions)) == actions
    decreases |actions|
  {
    if actions != [] {
      var init := actions[..|actions| - 1];
      assert Dispatches(actions)[..|actions| - 1] == Dispatches(init);
      RequestsOfDispatches(init);
      assert init + [actions[|actions| - 1]] == actions;
    }
  }

  /** A trace with no request in it. */
  predicate NoRequests(trace: seq<Effect>) {
    forall k :: 0 <= k < |trace| ==> !(trace[k].Dispatch? && trace[k].action.IsRequest())
  }

  lemma {:induction false} RequestsOfNone(trace: seq<Effect>)
    requires NoRequests(trace)
    ensures RequestsOf(trace) == []
    decreases |trace|
  {
    if trace != [] {
      RequestsOfNone(trace[..|trace| - 1]);
    }
  }

  /** The component's `status` after a trace, starting from `s`: the last one set. */
  function StatusAfter(s: Status, trace: seq<Effect>): Status {
    if trace == [] then s
    else if trace[|trace| - 1].SetStatus? then trace[|trace| - 1].status
    else StatusAfter(s, trace[..|trace| - 1])
  }

  predicate NoStatusChange(trace: seq<Effect>) {
    forall k :: 0 <= k < |trace| ==> !trace[k].SetStatus?
  }

  lemma {:induction false} StatusAfterConcat(s: Status, a: seq<Effect>, b: seq<Effect>)
    ensures StatusAfter(s, a + b) == StatusAfter(StatusAfter(s, a), b)
    decreases |b|
  {
    if b == [] {
      assert a + b == a;
    } else {
      assert (a + b)[..|a + b| - 1] == a + b[..|b| - 1];
      StatusAfterConcat(s, a, b[..|b| - 1]);
    }
  }

  lemma {:induction false} StatusAfterNoChange(s: Status, trace: seq<Effect>)
    requires NoStatusChange(trace)
    ensures StatusAfter(s, trace) == s
    decreases |trace|
  {
    if trace != [] {
      StatusAfterNoChange(s, trace[..|trace| - 1]);
    }
  }

  /** Every remote request of the trace is issued while `status` is `pending`. */
  ghost predicate RequestsWhilePending(s: Status, trace: seq<Effect>) {
    forall k :: 0 <= k < |trace| && trace[k].Dispatch? && trace[k].action.IsRequest() ==>
      StatusAfter(s, trace[..k]) == Pending
  }

  /** The shape every submitting handler has: set `pending`, issue requests without
      touching the status, then only report and clean up. */
  lemma PendingBracket(s: Status, body: seq<Effect>, after: seq<Effect>)
    requires NoStatusChange(body) && NoRequests(after)
    ensures RequestsWhilePending(s, [SetStatus(Pending)] + body + after)
  {
    var trace := [SetStatus(Pending)] + body + after;
    forall k | 0 <= k < |trace| && trace[k].Dispatch? && trace[k].action.IsRequest()
      ensures StatusAfter(s, trace[..k]) == Pending
    {
      assert 1 <= k <= |body|;
      assert trace[..k] == [SetStatus(Pending)] + body[..k - 1];
      StatusAfterConcat(s, [SetStatus(Pending)], body[..k - 1]);
      StatusAfterNoChange(Pending, body[..k - 1]);
    }
  }

  lemma DispatchesConcat(a: seq<Action>, b: seq<Action>)
    ensures Dispatches(a + b) == Dispatches(a) + Dispatches(b)
  {
  }

  /** The requests of a submit handler's trace (`pending`, the requests, the report,
      the `finally` block) are exactly the ones it dispatched, in order. */
  lemma SubmitTraceRequests(requests: seq<Action>, report: seq<Effect>, closing: seq<Effect>)
    requires forall k :: 0 <= k < |requests| ==> requests[k].IsRequest()
    requires NoRequests(report) && NoRequests(closing)
    ensures RequestsOf([SetStatus(Pending)] + Dispatches(requests) + report + closing) == requests
  {
    var head := [SetStatus(Pending)];
    var body := Dispatches(requests);
    RequestsOfConcat(head + body + report, closing);
    RequestsOfConcat(head + body, report);
    RequestsOfConcat(head, body);
    RequestsOfNone(head);
    RequestsOfNone(report);
    RequestsOfNone(closing);
    RequestsOfDispatches(requests);
  }

  /** In a submit handler's trace every request is issued while `pending`, and the
      `finally` block, which starts by setting `idle`, leaves the status `idle`. */
  lemma SubmitTraceStatus(s: Status, requests: seq<Action>, report: seq<Effect>, closing: seq<Effect>)
    requires NoRequests(report) && NoRequests(closing)
    requires |closing| > 0 && closing[0] == SetStatus(Idle) && NoStatusChange(closing[1..])
    ensures var trace := [SetStatus(Pending)] + Dispatches(requests) + report + closing;
      RequestsWhilePending(s, trace) && StatusAfter(s, trace) == Idle
  {
    var body := Dispatches(requests);
    var before := [SetStatus(Pending)] + body + report;
    var trace := before + closing;
    assert trace == [SetStatus(Pending)] + body + (report + closing);
    PendingBracket(s, body, report + closing);
    assert trace == (before + [SetStatus(Idle)]) + closing[1..];
    StatusAfterConcat(s, before + [SetStatus(Idle)], closing[1..]);
    StatusAfterNoChange(Idle, closing[1..]);
  }

  /** Index `i` holds the first registration that is opening. */
  ghost predicate IsFirstOpening(registrations: seq<Registration>, i: int) {
    0 <= i < |registrations| && registrations[i].isOpening
    && forall j :: 0 <= j < i ==> !registrations[j].isOpening
  }

  /** `registrations.find(reg => reg.isOpening === true)`. */
  function FindOpening(registrations: seq<Registration>): (r: Option<Registration>)
    ensures r.None? <==> forall i :: 0 <= i < |registrations| ==> !registrations[i].isOpening
    ensures r.Some? ==> exists i :: IsFirstOpening(registrations, i) && registrations[i] == r.value
  {
    if registrations == [] then None
    else if registrations[0].isOpening then Some(registrations[0])
    else
      var r := FindOpening(registrations[1..]);
      assert r.Some? ==> exists i :: IsFirstOpening(registrations, i) && registrations[i] == r.value
      by {
        if r.Some? {
          var i :| IsFirstOpening(registrations[1..], i) && registrations[1..][i] == r.value;
          assert registrations[i + 1] == r.value;
          forall j | 0 <= j < i + 1 ensures !registrations[j].isOpening {
            if j > 0 { assert registrations[j] == registrations[1..][j - 1]; }
          }
          assert IsFirstOpening(registrations, i + 1);
        }
      }
      assert r.None? ==> forall i :: 0 <= i < |registrations| ==> !registrations[i].isOpening by {
        if r.None? {
          forall i | 0 <= i < |registrations| ensures !registrations[i].isOpening {
            if i > 0 { assert registrations[i] == registrations[1..][i - 1]; }
          }
        }
      }
      r
  }

  /** The index of the first rejected answer among the first `n`, or `n` when all `n`
      are accepted. */
  function FirstRejection(responses: seq<Response>, n: nat): (k: nat)
    requires n <= |responses|
    ensures k <= n
    ensures forall j :: 0 <= j < k ==> responses[j].Accepted?
    ensures k < n ==> responses[k].Rejected?
  {
    if n == 0 then 0
    else
      var k := FirstRejection(responses, n - 1);
      if k < n - 1 then k
      else if responses[n - 1].Rejected? then n - 1
      else n
  }

  /** How many requests a stop-at-first-rejection loop issues: the rejected one is sent. */
  function Sent(k: nat, n: nat): nat
    requires k <= n
  {
    if k < n then k + 1 else n
  }
}
