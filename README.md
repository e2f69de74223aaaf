# Clinic front desk: a verified model

This project models the front-desk application of a clinic: a NestJS backend
that keeps a daily walk-in queue and a doctors table, and a React frontend
whose pages run the queue, book appointments, edit doctors and patients, and
summarise the day on a dashboard. Each core file is one Dafny module. All
modules are given to the verifier together.

- `queue_entry_entity.dfy` (`QueueEntryEntity`): the queue-entry record, its
  enumerations, defaults, required references, and the uniqueness its
  `queueNumber` column declares.
- `queue_service.dfy` (`QueueService`): today's numbering, today's list, and
  the `QueueTable` class, whose `entries` stand for the repository that
  `addToQueue` and `updateQueueStatus` change.
- `queue_page.dfy` (`QueuePage`): calling, holding and completing patients,
  priority changes, the reset filter, statistics, and the rendered
  number and wait estimate.
- `appointments_page.dfy` (`AppointmentsPage`): the status buttons, the list
  update, the date filter, loading, and booking with its optional queue
  request.
- `doctors_service.dfy` (`DoctorsService`): the `DoctorTable` class with
  active-only reads, soft removal, status updates and the search whose `where`
  dictionary is built one filter at a time.
- `doctors_page.dfy` (`DoctorsPage`): the page's local status changes, edits and
  additions, the filters, the status labels, and the option lists.
- `patient_context.dfy` (`PatientContext`): the shared patient list and its
  load, add, update and delete operations, each on success and on failure.
- `patients_page.dfy` (`PatientsPage`): the patient search, the age
  calculation, and the edit form filled from a patient.
- `dashboard.dfy` (`Dashboard`): the six counters and the recent-activity
  list.
- `client_layout.dfy` (`ClientLayout`): the route and authentication guard.
- `common.dfy` and `strings.dfy`: the JavaScript idioms the code is written
  in. These are `find`, `filter`, `filter(...).length`, `new Set`,
  `toLowerCase`, `includes` and `split(sep)[0]`.

Service calls, fetches and clocks are parameters. An operation that awaits a
call is given what the call answered: a value, or `None` when it failed. It
returns the state the code leaves behind.

Times are integers. The window "today" is an input running from today's
midnight to tomorrow's midnight. `Between` includes both ends, so the window
includes both ends too.

Where the documented design and the code disagree, the model follows the code:

- The design says that entering `with_doctor` stamps `calledAt` and that
  entering `completed` stamps `completedAt`. `updateQueueStatus` writes only
  `status`, so in the model both timestamps keep whatever the row had.
- The design describes the day as a half-open interval. The code uses
  `Between`, which includes tomorrow's midnight.

Two other observations from the code:

- The frontend's booking form posts a queue entry without a `userId`, and so
  does the queue page's own `addToQueue`, which sends only `patientId` and
  `priority` (frontend/src/app/queue/page.tsx:39-42). The entity declares
  `userId` as NOT NULL, so `CreateEntry` refuses that draft with
  `MissingUserId`: as written, no frontend path can add a queue entry.
- The dashboard counts a doctor as active only when its status is stated as
  active. The doctors page's status filter treats a missing status as active.
  `Dashboard.ActiveCountAtMostActiveFilter` relates the two counts.

## Model

| member | source | states |
|---|---|---|
| QueueEntryEntity.CreateEntry | backend/src/entities/queue-entry.entity.ts:36-78 | a draft becomes a row exactly when patientId and userId are present (whether they name stored rows is not modelled); otherwise it is refused, naming the first missing reference; an absent status is waiting and an absent priority normal; the row carries the computed number, the generated id and the creation instant; notes, calledAt, completedAt and doctorId are copied as given |
| QueueEntryEntity.SaveDeclared | backend/src/entities/queue-entry.entity.ts:33-34 | under the declared table-wide unique `queueNumber`, a row is stored iff no stored row of any day has its number; the table is extended by exactly that row; table-wide uniqueness is preserved |
| QueueService.MaxNumberIn | backend/src/queue/queue.service.ts:54-59 | none iff no row was created in the window; otherwise a number that an in-window row carries and that no in-window row exceeds |
| QueueService.NextQueueNumber | backend/src/queue/queue.service.ts:48-62 | 1 when nothing was created today; otherwise one more than a number issued today and greater than every number issued today |
| QueueService.EarlierDaysIgnored | backend/src/queue/queue.service.ts:49-58 | rows created before the window never change the number issued today |
| QueueService.NextAfterAdd | backend/src/queue/queue.service.ts:54-61 | once the issued number is stored inside the window, the next number issued is exactly one more |
| QueueService.SaveInWindow | backend/src/entities/queue-entry.entity.ts:33-34 | the corrected per-day uniqueness: a row is refused iff a row of the same day has its number; per-day uniqueness is preserved |
| QueueService.NextNumberAccepted | backend/src/queue/queue.service.ts:48-62 | the number computed for today never clashes with a number already issued today |
| QueueService.AddToQueueDeclared | backend/src/queue/queue.service.ts:13-19 | `addToQueue` against the declared table-wide uniqueness: succeeds iff patient and user are given (existence of the referenced rows not modelled) and no stored row of any day has the computed number; then appends exactly `CreateEntry`'s row with that number; a missing reference is refused with `CreateEntry`'s error, a clash as a duplicate |
| QueueService.DeclaredUniqueBlocksLaterDays | backend/src/entities/queue-entry.entity.ts:33-34 | once any earlier day issued number 1, the first walk-in of a new day is refused as a duplicate |
| QueueService.SecondDayFirstWalkInRefused | backend/src/queue/queue.service.ts:54-61 | concrete case: one entry yesterday, then today's first walk-in is refused |
| QueueService.InsertByNumber | backend/src/queue/queue.service.ts:33 | insertion into a list sorted by `queueNumber` keeps it sorted and adds exactly that entry |
| QueueService.SortByNumber | backend/src/queue/queue.service.ts:33 | ascending `queueNumber` order, and a permutation of the input |
| QueueService.CurrentQueue | backend/src/queue/queue.service.ts:22-35 | sorted by `queueNumber`; holds every row created in the window as often as it is stored, and nothing else; priority plays no part |
| QueueService.SetStatus | backend/src/queue/queue.service.ts:41 | rows with the id take the new status; every other column and every other row is unchanged |
| QueueService.CurrentQueueAfterSetStatus | backend/src/queue/queue.service.ts:22-46 | reading today's queue after `update(id, { status })` gives the earlier read with the same overwrite: the update changes neither the day filter nor the order |
| QueueService.SaveComputedEntry | backend/src/queue/queue.service.ts:13-19 | under the corrected per-day uniqueness, the row `addToQueue` builds is always accepted under per-day uniqueness; ids stay distinct; uniqueness is kept; the next number is one more |
| QueueService.QueueTable.AddToQueue | backend/src/queue/queue.service.ts:13-20 | `addToQueue` saved under the corrected per-day uniqueness (the declared table-wide rule is `AddToQueueDeclared`): succeeds iff patient and user are given (existence of the referenced rows not modelled); appends exactly the created row with the next number and the next id; a refusal leaves the table alone; the following number is one more; per-day uniqueness is kept |
| QueueService.QueueTable.UpdateQueueStatus | backend/src/queue/queue.service.ts:37-46 | the table becomes the status overwrite; the answer is absent iff no row has the id, and otherwise is the old row with the new status |
| QueuePage.FirstWithStatus | frontend/src/app/queue/page.tsx:135-136 | none iff no entry has the status; otherwise the entry at the first index with that status |
| QueuePage.UpdateStatus | frontend/src/app/queue/page.tsx:22-61 | on success the page shows the server's current queue after the status write, whatever it showed before, and loading is over; when the page was in step with the server, that is the shown list with the id's entries in the new status and nothing else changed; on failure the list and every other field stay and the error reads "Failed to update queue status" |
| QueuePage.CallNextPatient | frontend/src/app/queue/page.tsx:96-101 | with nobody waiting no request is made and the page is unchanged; otherwise the first waiting entry of the shown list is asked for: on success the page shows the server's queue after sending that entry's id to the doctor; on failure only the error is set |
| QueuePage.CallNextInStep | frontend/src/app/queue/page.tsx:53-101 | when the page was in step with the server, a successful call shows the same list with the first waiting entry at with_doctor; with distinct ids no other entry changes |
| QueuePage.HoldPatient | frontend/src/app/queue/page.tsx:103-112 | the page reloads the server's queue either way: after the write on success, unchanged on failure; the error is the status error on failure, never the hold handler's own text; in step with the server, on success only the id's entries become waiting |
| QueuePage.MarkCompleted | frontend/src/app/queue/page.tsx:114-116 | on success the page shows the server's queue after the write, which, in step with the server, is the shown list with the id's entries completed; on failure only the error is set |
| QueuePage.StatusFailuresKeepQueue | frontend/src/app/queue/page.tsx:53-116 | a failed request shows the status error; calling next and marking completed keep the shown list, holding shows the server's unchanged list |
| QueuePage.ReloadDiscardsLocalEdits | frontend/src/app/queue/page.tsx:53-124 | the reload after a successful status change brings back what a local reset hid and undoes a local priority change: the page shows the last loaded list with only the status overwrite |
| QueuePage.HoldUndoesCallNext | frontend/src/app/queue/page.tsx:96-112 | in step with the server and with distinct ids, holding the patient just called puts the list back exactly as it was |
| QueuePage.UpdatePriority | frontend/src/app/queue/page.tsx:63-68 | only the priority of entries with the id changes; length, order and other fields stay |
| QueuePage.StatusPartition | frontend/src/app/queue/page.tsx:127-133 | the four status counts add up to the list length |
| QueuePage.Stats | frontend/src/app/queue/page.tsx:127-133 | each counter is the number of entries with its status (urgent: its priority); total is the length; waiting + with_doctor + completed + cancelled = total, so the three shown counters never exceed it; urgent ≤ total |
| QueuePage.CallNextMovesOne | frontend/src/app/queue/page.tsx:96-101 | in step with the server, calling the next patient moves exactly one entry from waiting to with_doctor and leaves the completed count |
| QueuePage.ResetQueue | frontend/src/app/queue/page.tsx:118-124 | keeps exactly the waiting and with_doctor entries; its length is their count |
| QueuePage.ResetQueueKeepsOrder | frontend/src/app/queue/page.tsx:121 | reset distributes over concatenation, so kept entries stay in their relative order |
| QueuePage.ResetQueueStats | frontend/src/app/queue/page.tsx:118-133 | after a reset nothing is completed, the waiting and with_doctor counts are unchanged, and a second reset changes nothing |
| QueuePage.DisplayRows | frontend/src/app/queue/page.tsx:326-340 | the entry at index i shows number i+1 and waits 15 minutes for each entry ahead |
| QueuePage.DisplayDependsOnlyOnIds | frontend/src/app/queue/page.tsx:326-340 | the rendering depends only on the order of ids, not on queueNumber, priority or status |
| QueuePage.PriorityDoesNotReorder | frontend/src/app/queue/page.tsx:63-68 | changing a priority never changes a displayed number or wait |
| AppointmentsPage.ActionsOffered | frontend/src/app/appointments/page.tsx:241-279 | every row offers Cancel, last; Confirm iff scheduled, Start iff confirmed, Complete iff in progress; two buttons exactly for those three statuses, otherwise Cancel alone |
| AppointmentsPage.OfferedActionsProgress | frontend/src/app/appointments/page.tsx:242-279 | an offered forward button moves exactly one stage along scheduled, confirmed, in progress, completed; Cancel always leads to cancelled |
| AppointmentsPage.TerminalOnlyCancel | frontend/src/app/appointments/page.tsx:273-279 | completed, cancelled and no-show rows offer only Cancel |
| AppointmentsPage.ForwardPathToCompleted | frontend/src/app/appointments/page.tsx:242-265 | three forward clicks take scheduled to completed |
| AppointmentsPage.WithStatus | frontend/src/app/appointments/page.tsx:76-78 | only the status of rows with the id changes |
| AppointmentsPage.UpdateAppointmentStatus | frontend/src/app/appointments/page.tsx:73-83 | on success the list takes the new status and nothing else changes; on failure only the error is set |
| AppointmentsPage.FilteredAppointments | frontend/src/app/appointments/page.tsx:138 | exactly the appointments whose date is the selected date |
| AppointmentsPage.FilterCommutesWithStatus | frontend/src/app/appointments/page.tsx:138 | filtering by day after a status change gives the changed filtered list |
| AppointmentsPage.LoadAppointments | frontend/src/app/appointments/page.tsx:43-57 | the list is replaced only on success; on failure the error is set; loading ends either way |
| AppointmentsPage.EmptyForm | frontend/src/app/appointments/page.tsx:117-128 | no patient or doctor, empty texts, 30 minutes, queue box ticked |
| AppointmentsPage.HandleSubmit | frontend/src/app/appointments/page.tsx:85-115 | a created appointment is appended once; a normal-priority queue request is made iff the create call succeeded and the box is ticked; the modal closes and the form resets iff every call succeeded; otherwise the error is set and the modal and form stay; loading and the selected date never change |
| AppointmentsPage.BookedAppearsOnItsDay | frontend/src/app/appointments/page.tsx:99 | a booked appointment becomes the last row of its own day's list, which is otherwise unchanged |
| DoctorsService.BuildWhere | backend/src/doctors/doctors.service.ts:38-60 | `isActive` is always required; specialization and location are substring conditions present iff given non-empty; gender and status are equality conditions present iff given |
| DoctorsService.WhereMeansFilters | backend/src/doctors/doctors.service.ts:44-62 | a row meets that dictionary iff it is active and meets every given filter |
| DoctorsService.Deactivated | backend/src/doctors/doctors.service.ts:35 | rows with the id have `isActive` cleared; all else is unchanged; distinct ids stay distinct |
| DoctorsService.WithDoctorStatus | backend/src/doctors/doctors.service.ts:66 | rows with the id take the status; `isActive` and all else are unchanged |
| DoctorsService.OthersStillFound | backend/src/doctors/doctors.service.ts:34-36 | an update confined to one id leaves every other id's lookup unchanged |
| DoctorsService.RemoveShrinksFindAll | backend/src/doctors/doctors.service.ts:18-36 | after removal `findAll` is the old list, in order, without the removed doctor |
| DoctorsService.DoctorTable.FindAll | backend/src/doctors/doctors.service.ts:18-20 | exactly the active rows |
| DoctorsService.DoctorTable.FindById | backend/src/doctors/doctors.service.ts:22-24 | none iff no active row has the id, so an inactive doctor is never found; otherwise an active stored row with the id |
| DoctorsService.DoctorTable.Remove | backend/src/doctors/doctors.service.ts:34-36 | the row stays with `isActive` cleared; afterwards `findById` gives none; other lookups are unchanged |
| DoctorsService.DoctorTable.SearchDoctors | backend/src/doctors/doctors.service.ts:38-63 | the result holds exactly the stored rows that are active and meet every given filter; with no filter it equals `findAll`, order included |
| DoctorsService.DoctorTable.UpdateStatus | backend/src/doctors/doctors.service.ts:65-68 | only status changes, `isActive` included among what stays; the answer is `findById` afterwards, so none for an inactive or missing doctor |
| DoctorsPage.StatusLabel | frontend/src/app/doctors/page.tsx:221-234 | a missing status or "active" reads "Active", "on_leave" "On Leave", "break" "On Break", "inactive" "Inactive"; "Unknown" iff the text is not one of the four status texts |
| DoctorsPage.StatusLabelsDistinct | frontend/src/app/doctors/page.tsx:221-234 | the four statuses get four different labels, none "Unknown" |
| DoctorsPage.LoadDoctors | frontend/src/app/doctors/page.tsx:43-57 | success: the fetched list with the error cleared; failure: an empty list with an error; loading ends; no other field changes |
| DoctorsPage.UpdateDoctorStatus | frontend/src/app/doctors/page.tsx:59-100 | an unknown id changes nothing; otherwise doctors with the id take the status, and `isActive` becomes whether that status is active; the error is cleared and the message names the doctor; nothing else changes |
| DoctorsPage.ApplyForm | frontend/src/app/doctors/page.tsx:122-134 | the seven form fields are written; id, status, isActive, availability and createdAt are kept |
| DoctorsPage.OpenEditModal | frontend/src/app/doctors/page.tsx:102-114 | the edit form holds the doctor's seven fields, so applying it gives back the doctor; the editor opens on that doctor and no other field changes |
| DoctorsPage.HandleEditSubmit | frontend/src/app/doctors/page.tsx:116-153 | with no doctor being edited nothing changes; otherwise only doctors with the edited id take the form's fields; status and isActive are kept everywhere; the modal closes, the message names the form's doctor, and no other field changes |
| DoctorsPage.EditWithoutChangesKeepsList | frontend/src/app/doctors/page.tsx:102-137 | opening a listed doctor and saving the untouched form leaves the list unchanged |
| DoctorsPage.EmptyForm | frontend/src/app/doctors/page.tsx:155-165 | empty texts and gender male |
| DoctorsPage.HandleAddSubmit | frontend/src/app/doctors/page.tsx:167-204 | exactly one doctor is appended, built from the form, with the clock as id, availability "Available", `isActive` true and status active; the modal closes, the form empties, the message names the new doctor, and no other field changes |
| DoctorsPage.FilteredDoctors | frontend/src/app/doctors/page.tsx:236-243 | a doctor is shown iff all hold: the term is a case-insensitive substring of "first last"; the specialization matches exactly or the filter is empty; the location filter is a substring of the location or is empty; the status, defaulting to active, matches or the filter is empty |
| DoctorsPage.NoFiltersShowsAll | frontend/src/app/doctors/page.tsx:236-243 | with every filter empty the whole list is shown, in order |
| DoctorsPage.UpdatedShownUnderItsStatus | frontend/src/app/doctors/page.tsx:236-243 | a doctor just given a status is shown under that status filter when it passes the other tests |
| DoctorsPage.Specializations | frontend/src/app/doctors/page.tsx:245 | duplicate-free, and holds exactly the specializations present |
| DoctorsPage.Locations | frontend/src/app/doctors/page.tsx:246 | duplicate-free, holds exactly the first comma-separated segments of the locations, none containing a comma |
| PatientContext.LoadPatients | frontend/src/contexts/PatientContext.tsx:36-48 | the list is replaced only on success; the error is set on failure; loading is false afterwards |
| PatientContext.AddPatient | frontend/src/contexts/PatientContext.tsx:50-61 | success appends the created patient after all earlier ones and returns it; failure leaves the list, sets the error and rethrows |
| PatientContext.ReplaceById | frontend/src/contexts/PatientContext.tsx:67 | exactly the entries with the id become the new record; length and others unchanged |
| PatientContext.UpdatePatient | frontend/src/contexts/PatientContext.tsx:63-74 | success replaces the entries with the id and returns the record; failure leaves the list, sets the error and rethrows |
| PatientContext.DeletePatient | frontend/src/contexts/PatientContext.tsx:76-86 | success removes every entry with the id and keeps the rest in order; failure leaves the list, sets the error and rethrows |
| PatientContext.DeleteUndoesAdd | frontend/src/contexts/PatientContext.tsx:50-86 | deleting a just-added patient's id gives the old list without that id, which is the old list when the id was new |
| PatientContext.DeleteAfterUpdate | frontend/src/contexts/PatientContext.tsx:63-86 | an id-keeping update is invisible after deleting that id |
| PatientContext.FailuresKeepList | frontend/src/contexts/PatientContext.tsx:36-86 | no failed call changes the list |
| PatientsPage.FilteredPatients | frontend/src/app/patients/page.tsx:41-46 | a patient is listed iff the term is a case-insensitive substring of first name, last name or email, or a case-sensitive substring of phone; never more than all patients |
| PatientsPage.EmptySearchListsAll | frontend/src/app/patients/page.tsx:41-46 | an empty term lists every patient, in order |
| PatientsPage.NameTestsIgnoreTermCase | frontend/src/app/patients/page.tsx:42-44 | two terms with the same lower-cased form get the same answers from the name and email tests; a term and its lower-cased form agree there |
| PatientsPage.CalculateAge | frontend/src/app/patients/page.tsx:132-142 | "Unknown" iff the date text is empty; otherwise the k whose anniversary has come while the next one has not |
| PatientsPage.AgeIsUnique | frontend/src/app/patients/page.tsx:136-141 | only one k has that property |
| PatientsPage.AgeMonotone | frontend/src/app/patients/page.tsx:136-141 | the age never decreases as today moves forward |
| PatientsPage.AgeNotNegative | frontend/src/app/patients/page.tsx:136-141 | the age is never negative for a birth on or before today |
| PatientsPage.OrEmpty | frontend/src/app/patients/page.tsx:120-122 | a missing optional text becomes empty; a present one is kept |
| PatientsPage.OpenEditModal | frontend/src/app/patients/page.tsx:111-125 | names, email and phone copied; the date of birth is the part before the first 'T'; gender always empty; missing optional texts empty |
| Dashboard.ComputeStats | frontend/src/app/dashboard/page.tsx:61-73 | totals by length; active doctors are those whose status is explicitly active; completed and pending are the completed and scheduled appointments of the day, so together at most the day's count; patients in queue always 0 |
| Dashboard.ActivityFor | frontend/src/app/dashboard/page.tsx:78-85 | the item keeps the appointment's id; its kind is completion iff the appointment is completed, otherwise appointment; "3i+2 minutes ago" |
| Dashboard.RecentActivity | frontend/src/app/dashboard/page.tsx:76-85 | at most five items: those of the first five appointments, in order |
| Dashboard.LoadDashboardData | frontend/src/app/dashboard/page.tsx:45-95 | success sets counters, activity and an empty error; failure keeps counters and activity and sets the error; loading ends |
| Dashboard.ActivityTimesIncrease | frontend/src/app/dashboard/page.tsx:82 | each later item is three minutes older, and keeps its appointment's id |
| Dashboard.ActiveCountAtMostActiveFilter | frontend/src/app/dashboard/page.tsx:62 | the dashboard's active count never exceeds what the doctors page shows under the active filter |
| ClientLayout.Layout | frontend/src/app/ClientLayout.tsx:15-58 | spinner while loading; access denied for a signed-out visitor off the public routes; redirect to /dashboard for a signed-in user on /login or /register; otherwise the page, with navigation iff signed in and off the public routes |
| ClientLayout.PublicRoutesExactly | frontend/src/app/ClientLayout.tsx:25-26 | the public routes are exactly /login, / and /register |
| ClientLayout.SignedInHomeHasNoNavigation | frontend/src/app/ClientLayout.tsx:53-58 | a signed-in user on / sees the page without navigation |
| ClientLayout.NavigationMeansSignedIn | frontend/src/app/ClientLayout.tsx:29-58 | navigation implies signed in, not loading, and off the public routes; a signed-out visitor never sees a protected page |

## Left out

- The backend `create` and `update` of doctors: they pass a partial record straight to the ORM and read it back, with no rule of their own.
- `createdAt`/`updatedAt` stamping, the `appointments` and `queueEntries` relations, and the joined `patient`/`doctor`/`user` objects that reads load: the ORM produces these. Queue reads return the bare rows.
- Wall clocks: "today", `Date.now()` ids and creation times are parameters. Date parsing is too: `calculateAge` is given the calendar days already read from the text, so time zones are not modelled.
- Lower-casing covers ASCII letters only. `LIKE` is a case-sensitive substring test. The database's collation and the `%`/`_` wildcards inside a filter value are not modelled.
- `parseInt` on the booking form: a selector holds an id or nothing, and nothing stands for the empty text.
- Number-to-text formatting of times and names: `Dashboard.ActivityFor` keeps the number of minutes, not the label text.
- The queue page's status buttons call the server and then reload the list: the model takes the server's rows and today's window as parameters and shows their current queue. It does not model the reload failing, nor the unawaited reload racing another request.
- The queue page's `addToQueue` and `removeFromQueue`: each is a request followed by a reload, with no list rule of its own.
- Concurrency: two requests that read the same last number can issue it twice. The model has a single writer.
- Network failures other than "the call failed", axios, `console` output, `setTimeout` message clearing, `window.confirm`, and the redirect's `window.location` assignment.
- The Edit button of the appointments page: it opens a modal whose submit handler is not part of the code.
- The dashboard's progress-bar percentages: floating-point division.
- The controllers. They do not route PATCH `/queue/:id/status` or DELETE `/queue/:id`, which the frontend calls. They also do not route PATCH `/appointments/:id/status` (frontend/src/services/appointment.service.ts:69): the appointments controller has only PUT `/appointments/:id` (backend/src/appointments/appointments.controller.ts:61). In the program as written, `updateAppointmentStatus` therefore always takes its failure branch. That is transport wiring and not part of this model: `AppointmentsPage.UpdateAppointmentStatus` and the queue page's status buttons take the call's outcome as a parameter.
- `QueueEntryEntity.CreateEntry`, `QueueService.AddToQueueDeclared` and `QueueService.QueueTable.AddToQueue` assume that `patientId`, `userId` and a given `doctorId` name stored rows. The entity declares `@ManyToOne` relations joined on those columns (backend/src/entities/queue-entry.entity.ts:59-78), and with the schema synchronized (backend/src/config/mysql.config.ts:21) they become foreign keys. So `save` also refuses a reference that names no stored patient, user or doctor. That refusal is not modelled, because the model carries no patient, user or doctor tables for the queue.
- `QueueEntryEntity.CreateEntry` and `QueueService.QueueTable.AddToQueue` do not model an `id` or `createdAt` inside the posted body. The body is a `Partial<QueueEntry>` (backend/src/queue/queue.controller.ts:24-27), and `create({...queueData, queueNumber})` keeps both fields. A supplied `id` makes `save` update that row instead of adding one. A supplied `createdAt` can place the entry outside today's window. The model always generates the id and takes the creation instant from the clock.
- `QueuePage.CallNextInStep`, `QueuePage.HoldUndoesCallNext` and `QueuePage.CallNextMovesOne` hold only when the page is in step with the server (`Synced`: no local reset or priority change since the last load) and, for "nothing else changes", ids are distinct. Ids are primary keys, so the server never returns two rows with one id. Out of step, `QueuePage.ReloadDiscardsLocalEdits` says what the reload shows instead.
- `DoctorsService.BuildWhere` and `DoctorsService.DoctorTable.SearchDoctors` type the `gender` and `status` filters as the entity's enumerations. The search route passes whatever query text arrives (backend/src/doctors/doctors.controller.ts:26-36), and an equality condition on a text that is no gender or status matches no row. The model has no such value, so that empty result is not modelled.

## Findings

| source | as written | input that shows it | evidently intended | confidence | as-written member | corrected member |
|---|---|---|---|---|---|---|
| backend/src/entities/queue-entry.entity.ts:33-34 | `queueNumber` is unique across the whole table. `getNextQueueNumber` (backend/src/queue/queue.service.ts:54-61) restarts at 1 every day. | Entry #1 was created yesterday at instant 36000000. Today is the window 86400000..172800000. The first walk-in at 90000000 gets number 1, and the save is refused as a duplicate. The table does not change, so every later walk-in that day is refused too. | Numbers are unique within a day. | high; not executed | QueueService.DeclaredUniqueBlocksLaterDays | QueueService.SaveInWindow, QueueService.SaveComputedEntry, QueueService.QueueTable.AddToQueue |
