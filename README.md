# Lab management web front-end — a Dafny model of its component logic

This project models the decision logic of four React components of the lab
management web client. It covers how a course spreadsheet becomes courses and how
they are created. It covers how a registration window is opened and how its courses
are attached, and how the open registration is closed when its countdown ends. It
also covers how the search box is routed by path, and how the lecturer's
registration page joins teachings to courses and picks what to show.

Each component's local state is a Dafny `class`:

- `ImportCourse.ImportCourseModal` holds `status`.
- `OpenRegistration.OpenRegistrationModal` holds `status` and `isAllCoursesApplied`.
- `TopNav.TopNavBar` holds `closeRegistrationStatus`.

Each class also has an `effects` field: the observable steps, in order. A step is a
Redux action dispatched, a `status` change, or the modal being closed. Every handler
is a method whose `ensures` ties the new `effects` to a trace function of its
inputs:

- `ImportCourse.SubmitCoursesTrace`
- `OpenRegistration.OnSubmitTrace`
- `TopNav.AutoCloseTrace`

Lemmas about those trace functions state what the component promises:

- which requests are sent, and in what order;
- that sending stops at the first rejection;
- that `status` is `pending` while a request is out and `idle` afterwards;
- which snackbar message is shown.

The server's answers are inputs. `openResponse` or `response` answers a single
request. `responses[k]` answers the `k`-th request of a loop.

Pure selections are Dafny functions:

- the row conversion's field dispatch;
- the first-segment routing of the path;
- the countdown's deadline;
- `prepareData`;
- the page's view choice, returned as a tag rather than markup.

Modules:

- `Text`: decimal printing and reading, `toLowerCase`, `split("/")`.
- `Model`: the store's records, server answers, effects, the "first opening
  registration" selector, and the first-rejection index shared by the loops.
- `ImportCourse`, `OpenRegistration`, `TopNav`, `LecturerRegistration`: one per
  component.

Some behaviour of the code is easy to misread. The model follows the code on each point:

- A cell left empty reports "… is missing. This teaching will be skipped", yet
  the course is still pushed with that field at its default. The model keeps the
  course.
- An empty teaching table is rendered when the courses failed to load. It is also
  rendered when they loaded and the teachings failed. While the courses are still
  loading, a failed teaching status shows the skeleton.
- `prepareData` runs as soon as the courses are loaded, whatever the teachings'
  status.
- The draft's batch is the number of loaded registrations plus one.
- Nothing prevents a second automatic close while one is pending. No such
  guard is modelled.

## Model

| member | source | states |
|---|---|---|
| Text.NatToString | src/containers/LecturerRegistrationPage.tsx:47 | a number prints as at least one decimal digit, with no leading zero |
| Text.ParseNatToString | src/components/course-page/ImportCourseModal.tsx:90 | reading back the digits `${n}` printed gives `n` |
| Text.NatToStringInjective | src/containers/LecturerRegistrationPage.tsx:47 | two numbers that print alike are equal |
| Text.ToNumber | src/components/course-page/ImportCourseModal.tsx:90 | `Number(s)` is a number exactly when the cell is all digits, otherwise NaN |
| Text.ToNumberOfNatString | src/components/course-page/ImportCourseModal.tsx:90 | `Number` of a printed number is that number |
| Text.LowerCharIdempotent | src/components/course-page/ImportCourseModal.tsx:75 | lowering a lowered character changes nothing |
| Text.ToLowerIdempotent | src/components/course-page/ImportCourseModal.tsx:84-85 | `toLowerCase` is idempotent |
| Text.Split | src/components/Layout/TopNavBar.tsx:79 | `split("/")` yields at least one piece, none containing a slash |
| Text.JoinSplit | src/components/Layout/TopNavBar.tsx:91 | joining the pieces with "/" gives the path back, so splitting loses nothing |
| Text.SplitSlashFreePrefix | src/components/Layout/TopNavBar.tsx:79-80 | a slash-free prefix becomes the start of the first piece, and the other pieces are unchanged |
| Model.PendingBracket | src/components/course-page/ImportCourseModal.tsx:100-122 | every request issued between `setStatus("pending")` and the reports happens while the status is `pending` |
| Model.SubmitTraceRequests | src/components/home-page/OpenRegistrationModal.tsx:60-97 | a submit handler's trace (pending, requests, report, `finally`) sends exactly the requests it dispatched, in order |
| Model.SubmitTraceStatus | src/components/Layout/TopNavBar.tsx:163-182 | in a submit handler's trace every request is issued while `pending`, and the `finally` block leaves the status `idle` |
| Model.FindOpening | src/containers/LecturerRegistrationPage.tsx:68-72 | `find(reg => reg.isOpening)` is none exactly when no registration is opening, and otherwise the first opening one |
| Model.FirstRejection | src/components/course-page/ImportCourseModal.tsx:102-105 | the index where an await-and-unwrap loop throws: every earlier answer accepted, that one rejected, or the length when all are accepted |
| ImportCourse.ClassifyTypeIgnoresCase | src/components/course-page/ImportCourseModal.tsx:82-87 | classifying a lower-cased cell gives the same course type |
| ImportCourse.ClassifyTypeExamples | src/components/course-page/ImportCourseModal.tsx:83-87 | "Theory" and "LÝ THUYẾT" give THEORY; "Lab" and "Practice" give PRACTICAL |
| ImportCourse.ClassifyType | src/components/course-page/ImportCourseModal.tsx:83-87 | a "Loại môn" cell names THEORY when it lower-cases to "theory" or "lý thuyết", PRACTICAL otherwise (definition; the two lemmas above state its properties) |
| ImportCourse.SetField | src/components/course-page/ImportCourseModal.tsx:75-92 | the `switch` on the lower-cased header (definition; `SetFieldOnTemplate` and `SetFieldFields` state its properties) |
| ImportCourse.MissingMessage | src/components/course-page/ImportCourseModal.tsx:68 | the notice "<header> at row <i> is missing. This teaching will be skipped" (definition; `MissingMessageIsNotFormatError` states its property) |
| ImportCourse.ApplyEntries | src/components/course-page/ImportCourseModal.tsx:49-93 | the entry loop of one record as a recursion (definition; `ApplyEntriesMeaning` states what it computes) |
| ImportCourse.SetFieldOnTemplate | src/components/course-page/ImportCourseModal.tsx:75-92 | the lower-cased switch sets `_id`, `courseName`, `type` or `numberOfCredits` for "Mã môn", "Tên môn", "Loại môn" and "STC", and changes nothing for "STT" |
| ImportCourse.SetFieldFields | src/components/course-page/ImportCourseModal.tsx:75-92 | for a template header, the switch changes exactly the field that header names and never `isHidden` |
| ImportCourse.ConvertRow | src/components/course-page/ImportCourseModal.tsx:42-94 | the entry loop over a record, from the default course, computes the record's conversion (course or drop, plus notices) |
| ImportCourse.FirstUnknown | src/components/course-page/ImportCourseModal.tsx:53 | the position of the first header outside the exact whitelist: all before it are in the template |
| ImportCourse.LastValue | src/components/course-page/ImportCourseModal.tsx:65-92 | the last non-empty cell under a header exists exactly when some such cell is non-empty |
| ImportCourse.ApplyEntriesMeaning | src/components/course-page/ImportCourseModal.tsx:49-93 | a record with an unknown header is dropped, discarding fields already set, after the "missing" notices before it and one "Incorrect format" notice; otherwise each field is the last non-empty cell for it, or its default |
| ImportCourse.WellFormedCons | src/components/course-page/ImportCourseModal.tsx:53-61 | a record starting with a template header is kept exactly when the rest of its headers are in the template |
| ImportCourse.MissingReportsCons | src/components/course-page/ImportCourseModal.tsx:65-73 | the "missing" notices before the first unknown header come one per empty cell, in `Object.entries` order |
| ImportCourse.OverlaySkipsEmpty | src/components/course-page/ImportCourseModal.tsx:65-73 | an empty cell leaves the course as it was (`continue`) |
| ImportCourse.OverlayFirstEntry | src/components/course-page/ImportCourseModal.tsx:75-92 | a non-empty template cell sets its field, and later cells may override it |
| ImportCourse.LastValueCons | src/components/course-page/ImportCourseModal.tsx:75-92 | a later non-empty cell under a header wins over the first one |
| ImportCourse.RowResultMeaning | src/components/course-page/ImportCourseModal.tsx:42-94 | a record yields a course exactly when all its headers are in the template, and that course is the defaults overlaid with its cells |
| ImportCourse.KeptCourses | src/components/course-page/ImportCourseModal.tsx:40-48 | at most one course per record, and no imported course is hidden |
| ImportCourse.SheetResultKeepsWellFormed | src/components/course-page/ImportCourseModal.tsx:40-95 | the converted list is exactly the well-formed records' courses, in record order; later records are processed after a bad one |
| ImportCourse.ConvertSheet | src/components/course-page/ImportCourseModal.tsx:34-95 | the `forEach` that pushes courses computes the sheet's conversion |
| ImportCourse.MissingMessageIsNotFormatError | src/components/course-page/ImportCourseModal.tsx:56-68 | a "missing" message never equals the format-error message |
| ImportCourse.MissingReportsNoFormatError | src/components/course-page/ImportCourseModal.tsx:65-73 | the empty-cell notices contain no format error |
| ImportCourse.RowFormatErrors | src/components/course-page/ImportCourseModal.tsx:53-61 | a record reports "Incorrect format" once when dropped and never otherwise |
| ImportCourse.FormatErrorsCountDroppedRows | src/components/course-page/ImportCourseModal.tsx:40-95 | the number of "Incorrect format" notices equals the number of dropped records |
| ImportCourse.NewCourses | src/components/course-page/ImportCourseModal.tsx:102-103 | one `newCourse` request per course, in list order |
| ImportCourse.SubmitCoursesTrace | src/components/course-page/ImportCourseModal.tsx:100-122 | pending, the course requests up to the first rejection, the report, then idle and close (definition; the three lemmas below state its properties) |
| ImportCourse.SubmitCoursesRequests | src/components/course-page/ImportCourseModal.tsx:101-105 | courses are requested in list order up to and including the first rejected one, and none after it |
| ImportCourse.SubmitCoursesStatus | src/components/course-page/ImportCourseModal.tsx:100-122 | `status` is `pending` at every request and ends `idle`, with the modal closed as the last step, whatever the outcome |
| ImportCourse.SubmitCoursesReport | src/components/course-page/ImportCourseModal.tsx:107-118 | success is shown exactly when every course is accepted, and the error flag exactly when one is rejected; the only snackbar text set is "All new courses created", or else the first rejection's server message or "Failed to create all courses" |
| ImportCourse.ImportCourseModal.constructor | src/components/course-page/ImportCourseModal.tsx:23 | the modal starts `idle` |
| ImportCourse.ImportCourseModal.HandleSubmit | src/components/course-page/ImportCourseModal.tsx:26-125 | the handler emits the conversion notices and then the submission trace, and leaves `status` at `idle` |
| ImportCourse.ImportCourseModal.SubmitCourses | src/components/course-page/ImportCourseModal.tsx:100-122 | the sequential `await` loop with its `try`/`catch`/`finally` emits exactly the submission trace and ends `idle` |
| ImportCourse.ImportCourseModal.CreateAll | src/components/course-page/ImportCourseModal.tsx:101-118 | the `for … of` loop requests the courses in order until the first rejection, then reports success or the failure message |
| OpenRegistration.Draft | src/components/home-page/OpenRegistrationModal.tsx:56-59 | the draft has `batch = registrations.length + 1`, is opening and not hidden, belongs to the first semester, and keeps the form's id and dates |
| OpenRegistration.RegistrableCourses | src/components/home-page/OpenRegistrationModal.tsx:65-70 | one `{registration, course}` pair per course, in course order |
| OpenRegistration.RegistrableCoursesCover | src/components/home-page/OpenRegistrationModal.tsx:65-70 | the associations are exactly the new registration paired with each loaded course's id |
| OpenRegistration.NewAssociations | src/components/home-page/OpenRegistrationModal.tsx:72-75 | one `newRegistrableCourse` request per association, in order |
| OpenRegistration.OnSubmitTrace | src/components/home-page/OpenRegistrationModal.tsx:52-99 | `onSubmit`: nothing without a course or a semester, otherwise the submission of the draft (definition; the `OnSubmit*` lemmas state its properties) |
| OpenRegistration.SubmitDraftTrace | src/components/home-page/OpenRegistrationModal.tsx:55-97 | pending, the registration request and its associations, the report, then idle and close (definition) |
| OpenRegistration.OnSubmitOutcome | src/components/home-page/OpenRegistrationModal.tsx:80-93 | the success report, or the `catch` report of the rejected registration or first rejected association (definition; `OnSubmitReport` states it) |
| OpenRegistration.OnSubmitGate | src/components/home-page/OpenRegistrationModal.tsx:54-98 | without a course or a semester, `onSubmit` dispatches nothing, changes no status and does not close the modal |
| OpenRegistration.OnSubmitRequests | src/components/home-page/OpenRegistrationModal.tsx:61-78 | the draft is requested first; associations follow only when it was created and all courses apply, in order, up to the first rejection |
| OpenRegistration.OnSubmitStatus | src/components/home-page/OpenRegistrationModal.tsx:60-97 | `status` is `pending` at every request and ends `idle`, with the modal closed last, on success and failure |
| OpenRegistration.OnSubmitReport | src/components/home-page/OpenRegistrationModal.tsx:80-93 | success is shown exactly when the registration and every needed association are accepted, and the error flag otherwise; the only snackbar text set is "Open registration successfully", or else the rejecting request's server message or "Failed to open registration" |
| OpenRegistration.OpenRegistrationModal.constructor | src/components/home-page/OpenRegistrationModal.tsx:47-50 | the modal starts `idle` with all courses applied |
| OpenRegistration.OpenRegistrationModal.SetAllCoursesApplied | src/components/home-page/OpenRegistrationModal.tsx:138-140 | the checkbox sets the flag and changes nothing else |
| OpenRegistration.OpenRegistrationModal.OnSubmit | src/components/home-page/OpenRegistrationModal.tsx:52-99 | the handler emits exactly the submission trace for the current checkbox and leaves `status` `idle`, or untouched when gated |
| OpenRegistration.OpenRegistrationModal.Submit | src/components/home-page/OpenRegistrationModal.tsx:60-97 | for a completed draft the handler emits pending, the registration and its associations, the report, then idle and close |
| OpenRegistration.OpenRegistrationModal.AfterOpen | src/components/home-page/OpenRegistrationModal.tsx:62-85 | after the registration request: associations only when it was created and all courses apply, then the report |
| OpenRegistration.OpenRegistrationModal.AssociateAll | src/components/home-page/OpenRegistrationModal.tsx:72-93 | the indexed loop sends associations in order until the first rejection, then reports success or the failure message |
| OpenRegistration.SubmitDisabled | src/components/home-page/OpenRegistrationModal.tsx:155-159 | the submit button's `disabled` expression (definition; `SubmitDisabledDuringSubmit` states its property) |
| OpenRegistration.SubmitDisabledDuringSubmit | src/components/home-page/OpenRegistrationModal.tsx:155-159 | the submit button is disabled whenever a request is out; afterwards it is disabled exactly when courses are chosen by hand and none is chosen |
| TopNav.FirstPieceIsPrefix | src/components/Layout/TopNavBar.tsx:79 | the first piece of a split is a prefix ending at a slash or at the end |
| TopNav.Segment | src/components/Layout/TopNavBar.tsx:79 | `pathname.split("/")[1]`, none for `undefined` (definition; the three lemmas below characterise it) |
| TopNav.SegmentOfPath | src/components/Layout/TopNavBar.tsx:79 | on a path, `split("/")[1]` is the piece after the leading slash |
| TopNav.RootSegment | src/components/Layout/TopNavBar.tsx:79-80 | the segment is `""` exactly on "/" and on paths beginning "//" |
| TopNav.ScheduleSegment | src/components/Layout/TopNavBar.tsx:83 | the segment is "schedule" exactly on "/schedule" and on paths below it |
| TopNav.SearchActions | src/components/Layout/TopNavBar.tsx:77-87 | `handleSearch`'s `switch`: a teaching search on the empty segment, nothing otherwise (definition; `SearchRouting` states it per path) |
| TopNav.PlaceholderActions | src/components/Layout/TopNavBar.tsx:90-99 | the placeholder `useEffect`'s `switch` (definition; `PlaceholderRouting` states it per path) |
| TopNav.SearchRouting | src/components/Layout/TopNavBar.tsx:77-87 | a search sets the teaching search text on the root segment, and dispatches nothing elsewhere, including "schedule" |
| TopNav.PlaceholderRouting | src/components/Layout/TopNavBar.tsx:90-99 | the placeholder is the course hint on the root segment and the lab hint under "schedule"; elsewhere it is left unchanged |
| TopNav.SearchAgreesWithPlaceholder | src/components/Layout/TopNavBar.tsx:77-99 | a search does something exactly on the paths that show the course-search hint |
| TopNav.SearchBarVisible | src/components/Layout/TopNavBar.tsx:213-225 | the search bar is rendered off "/", and on "/" only when there is a registration (definition; `SearchFromBar` states its effect) |
| TopNav.SearchFromBar | src/components/Layout/TopNavBar.tsx:77-87 | typing in the bar updates the teaching search exactly on "/" with a registration and on paths starting "//"; anywhere else, or on "/" with no registration, nothing is dispatched |
| TopNav.Countdown | src/components/Layout/TopNavBar.tsx:186-204 | a countdown is armed exactly when registrations loaded and one is opening, with the first opening registration's end date |
| TopNav.AutoCloseTrace | src/components/Layout/TopNavBar.tsx:154-184 | `handleRegAutoClose`: nothing without an opening registration, otherwise pending, the edit, the report, then idle (definition; the `AutoClose*` lemmas state its properties) |
| TopNav.CloseReport | src/components/Layout/TopNavBar.tsx:168-179 | the success report or the `catch` report of the edit (definition; `AutoCloseReport` states it) |
| TopNav.AutoCloseWithoutOpening | src/components/Layout/TopNavBar.tsx:155-160 | with no opening registration, auto-close does nothing at all |
| TopNav.AutoCloseRequest | src/components/Layout/TopNavBar.tsx:155-166 | the only request edits the first opening registration, with `isOpening` false and every other field equal |
| TopNav.AutoCloseStatus | src/components/Layout/TopNavBar.tsx:163-182 | the close status is `pending` during the edit and `idle` after it, on success and failure |
| TopNav.AutoCloseReport | src/components/Layout/TopNavBar.tsx:168-179 | success shows "Registration closed" with the success flag; failure shows the server's message or "Failed to close registration" with the error flag |
| TopNav.CountdownClosesWatchedRegistration | src/components/Layout/TopNavBar.tsx:186-197 | the registration closed when the countdown completes has the countdown's deadline and is no longer opening |
| TopNav.TopNavBar.constructor | src/components/Layout/TopNavBar.tsx:59-62 | the close status starts `idle` |
| TopNav.TopNavBar.HandleRegAutoClose | src/components/Layout/TopNavBar.tsx:154-184 | the handler emits exactly the auto-close trace; the status ends `idle` when something was closed and is untouched otherwise |
| LecturerRegistration.PeriodText | src/containers/LecturerRegistrationPage.tsx:47 | the period cell `${startPeriod} - ${endPeriod}` (definition; `PeriodTextInjective` states its property) |
| LecturerRegistration.DigitRunOf | src/containers/LecturerRegistrationPage.tsx:47 | a printed number followed by a non-digit ends where the number's digits end |
| LecturerRegistration.LeadingNumber | src/containers/LecturerRegistrationPage.tsx:47 | a number printed before a non-digit can be recovered, along with what follows it |
| LecturerRegistration.PeriodTextInjective | src/containers/LecturerRegistrationPage.tsx:47 | the period text "a - b" determines both periods |
| LecturerRegistration.FindCourse | src/containers/LecturerRegistrationPage.tsx:44-49 | `courses.find` by id is none exactly when no course has that id, and otherwise the first course that does |
| LecturerRegistration.RowOf | src/containers/LecturerRegistrationPage.tsx:42-51 | one table row from a teaching and its course (definition; `PrepareDataRow` states it field by field) |
| LecturerRegistration.PrepareData | src/containers/LecturerRegistrationPage.tsx:32-58 | one row per teaching, in order, each the teaching joined with its first matching course |
| LecturerRegistration.PrepareDataRow | src/containers/LecturerRegistrationPage.tsx:43-50 | a row copies course id, group and student count, prints "start - end", and takes name and credits from the first course with that id |
| LecturerRegistration.PrepareDataConcat | src/containers/LecturerRegistrationPage.tsx:41-52 | rows are prepared one teaching at a time: the rows of a concatenation are the concatenated rows |
| LecturerRegistration.RenderTable | src/containers/LecturerRegistrationPage.tsx:117-199 | the table's rows are the prepared rows when both loads succeeded; the table is empty exactly when courses failed, or courses loaded and teachings failed or are none; otherwise the skeleton shows |
| LecturerRegistration.PreparesRows | src/containers/LecturerRegistrationPage.tsx:221-248 | the case in which `renderContent` reaches `prepareData`: semester and registrations loaded, one registration opening, courses loaded (definition) |
| LecturerRegistration.RenderContent | src/containers/LecturerRegistrationPage.tsx:202-268 | "no semester" exactly when the semester failed; "no registration" and the skeleton for a failed or pending registration load; otherwise the panel of the first opening registration, or "no opening registration yet"; every course lookup must resolve only when the panel's table prepares rows |
| LecturerRegistration.RenderContentNothing | src/containers/LecturerRegistrationPage.tsx:202-268 | the page stays empty exactly while the semester is idle or pending, or the registrations have not started loading |
| LecturerRegistration.TableOnlyWithOpenRegistration | src/containers/LecturerRegistrationPage.tsx:221-248 | when the opening registration's panel shows teaching rows, it shows exactly one per teaching |

## Left out

- Reading the workbook (`FileReader`, `XLSX.read`, `sheet_to_json`) is not modelled. A sheet is given as its records, each record an ordered list of header and cell-text pairs.
- Cells are modelled as text only. `sheet_to_json` gives numeric cells as JavaScript numbers. A numeric "Mã môn" cell would set `_id` to a number. A numeric "Loại môn" cell would make `toLowerCase` throw inside the `forEach`, so the handler would stop before `setStatus("pending")` and send nothing. Neither case is modelled.
- Teaching periods are naturals, printed by `Text.NatToString`. JavaScript's `${n}` also prints negative numbers, fractions and numbers of 10^21 or more ("-1", "1.5", "1e+21"). Those period values are not modelled.
- Text.ToNumber: `Number(s)` is modelled only on strings of decimal digits. Any other text (signs, decimals, spaces, exponents) reads as NaN here, whereas JavaScript would read many of them as numbers.
- Text.LowerChar: lower-casing covers ASCII, Latin-1 and the Vietnamese letters only, not all of Unicode's case mapping.
- Redux thunks, the store and the data-fetching hooks are not modelled. Their results are inputs: loaded lists, load statuses, and one answer per request.
- `console.log` calls are not modelled.
- An accepted `openRegistration` is assumed to carry the created registration, so the `if (regResult)` test of the registration modal is folded into acceptance. An accepted answer without a payload, which would skip the associations and still report success, is not modelled.
- The `selectedCourses` prop of the registration modal is only logged by `onSubmit`. It appears only in the submit-disabled predicate.
- Timing is not modelled: the countdown's clock, `react-countdown` and `Date.toDateString` formatting are left out. The model captures which deadline is armed and what its completion does.
- Concurrency between an awaiting handler and later renders is not modelled. Each handler runs to completion on the state it started from.
- Styling and markup are not modelled, nor are the semester-modal renderers of the navigation bar. Views are tags.
- The search bar's own component (`SearchBar.tsx`) is not modelled: it only keeps a focus flag for styling.
- TopNav.TopNavBar.HandleRegAutoClose: `_.cloneDeep` is modelled by value semantics. A registration is a value, so the loaded list cannot be mutated by construction rather than by proof.
- LecturerRegistration.PrepareData: the non-null assertion `!` on the course lookup is a precondition. A teaching whose course is not loaded would make the page throw, and that case is not modelled.
- LecturerRegistration.RenderTable: it carries the same precondition whenever the courses have loaded, because `prepareData` runs then. `RenderContent` and the lemmas about it need it only when the opening registration's panel is rendered with the courses loaded (`PreparesRows`), since that is the only place the page calls `renderTable`.
