# Hospital portal: the data layer and dashboard bookkeeping, in Dafny

This project models the logic behind a hospital-portal single-page app. The
UI around it is not modelled. The model covers four parts:

- **The appointment store** (`appointment_service.dfy`, module
  `AppointmentService`):
  - the three read-only queries: a patient's appointments, the booked
    appointments of a doctor's roster, and the booked times of a doctor's
    day;
  - booking, which rejects a slot already held by a booked appointment;
  - cancellation by id.

  The persisted collection is the `appointments` field of the class
  `AppointmentStore`, and booking and cancellation are its methods. The
  store invariant "no two booked appointments share a doctor, date and
  time" is proved to survive both of them.
- **The mock backend** (`mock_api.dfy`, module `MockApi`):
  - login, with the password stripped from the returned user;
  - patient registration, which rejects a username already in use;
  - a doctor's patients;
  - the conversation between two users, oldest first, using a stable sort;
  - sending a message;
  - the per-doctor conversation overview;
  - marking messages read.

  The overview makes two loops over the doctor's messages and builds a
  record keyed by patient id. It is a method proved equal to a reference
  definition. Lemmas then state what that definition means: one entry per
  known patient the doctor exchanged messages with, the newest such message
  (the earliest in the log on a tie), the number of that patient's unread
  messages, and newest conversation first.

  The mutable tables (`doctors`, `patients`, `allUsers`, `messages`) are
  fields of the class `Backend`. The methods `Register`, `SendMessage` and
  `MarkMessagesAsRead` update them.
- **The toast list** (`notification_context.dfy`, module
  `NotificationContext`): appending a toast, with `Info` as the default
  kind, and removing toasts by id.
- **Doctor-dashboard bookkeeping** (`doctor_dashboard.dfy`, module
  `DoctorDashboard`):
  - the alert upsert keyed by patient and vital sign;
  - the unread badge, which is the sum of the unread counts;
  - the notify-once rule run on every poll of the overview, with its
    40-character message preview.

  The set of already-notified message ids is kept across polls, so it is
  the field of the class `NotifiedMessages`.

`sequences.dfy` (module `Sequences`) supplies what the other modules share:

- `filter`, which keeps exactly the accepted elements, each as often as
  before and in the same order;
- `find`, which returns the first match;
- the stable sort that `Array.prototype.sort` is, stated as:
  - sorted;
  - a permutation of its input;
  - each group of equal keys appears in its original relative order.

`wrappers.dfy` holds `Option` and `Result`.

Clock values are parameters. This covers the `appt-…`, `patient-…` and
`msg-…` ids, the time of a new message and the toast id. Timestamps are
integers (milliseconds), compared the way `getTime()` compares them.

Two behaviours of the appointment service are worth knowing:

- `cancelAppointment` returns `true` for every id that is present,
  including a record that is already cancelled or completed. Rewriting the
  status of an already-cancelled record changes nothing, and the call still
  reports success. `AppointmentService.AppointmentStore.Cancel` states
  this, and `AppointmentService.CancelTwice` shows that a second
  cancellation leaves the store as the first left it.
- Booking accepts any time string; the service does not check it against
  the offered slots.

## Model

| member | source | states |
|---|---|---|
| Sequences.FilterMembers | services/appointmentService.ts:27 | `filter` keeps an element exactly when it is in the input and accepted, with its multiplicity in the input |
| Sequences.FilterIsSubsequence | services/appointmentService.ts:27 | `filter` keeps the relative order of what it keeps |
| Sequences.FilterConcat | services/mockApi.ts:112 | filtering a log that grew by appending is filtering the old log and the new part separately |
| Sequences.FilterAll | context/NotificationContext.tsx:30 | a filter that rejects nothing returns its input |
| Sequences.Find | services/mockApi.ts:56 | `find` returns None exactly when nothing matches, otherwise a matching element with no match before it |
| Sequences.SortBy | services/mockApi.ts:94 | the sort returns a permutation of its input, ordered by ascending key |
| Sequences.InsertSorted | services/mockApi.ts:94 | inserting into a sorted list keeps it sorted |
| Sequences.SortByStable | services/mockApi.ts:94 | for every key, the elements with that key appear in the same relative order before and after the sort |
| Sequences.SortByKeepsElements | services/mockApi.ts:139 | the sort neither adds nor drops an element |
| Sequences.PermutationDistinctKeys | services/mockApi.ts:139 | sorting a list whose elements have pairwise different keys keeps that property |
| AppointmentService.ForPatient | services/appointmentService.ts:24-30 | exactly the records of that patient, in every status, with their multiplicity and in store order |
| AppointmentService.ForDoctor | services/appointmentService.ts:32-38 | exactly the booked records whose patient is on the roster, in store order; cancelled and completed records never appear |
| AppointmentService.HeldOn | services/appointmentService.ts:43-44 | exactly the booked records of that doctor and date, each as often as in the store, in store order |
| AppointmentService.BookedTimes | services/appointmentService.ts:40-48 | a time is listed exactly when a booked record holds that doctor, date and time |
| AppointmentService.ExclusiveFilter | services/appointmentService.ts:43-44 | restricting an exclusive store to some of its records keeps it exclusive |
| AppointmentService.BookedTimesDistinct | services/appointmentService.ts:40-48 | in an exclusive store no time is listed twice for a doctor's day |
| AppointmentService.FindIndex | services/appointmentService.ts:79 | `findIndex` returns -1 exactly when no record has the id, otherwise the first such index |
| AppointmentService.EvolvesTransitive | services/appointmentService.ts:50-88 | the "records only gain a Cancelled status" relation composes over a sequence of operations |
| AppointmentService.AppendKeepsExclusive | services/appointmentService.ts:59-72 | appending a record on a slot the conflict check found free keeps the store exclusive |
| AppointmentService.CancelKeepsExclusive | services/appointmentService.ts:79-83 | cancelling a record keeps the store exclusive |
| AppointmentService.CancelFreesSlot | services/appointmentService.ts:59-64 | after a booked record is cancelled, its slot is no longer taken and its time is no longer among the booked times, so booking it again succeeds |
| AppointmentService.CancelTwice | services/appointmentService.ts:79-83 | a second cancellation of the same id finds the same record and leaves the store unchanged |
| AppointmentService.AppointmentStore.constructor | services/appointmentService.ts:5-13 | the store opens on the saved list, or on the empty list when storage holds nothing readable |
| AppointmentService.AppointmentStore.Book | services/appointmentService.ts:50-74 | fails exactly when a booked record holds the slot, and then leaves the store unchanged; otherwise appends a booked record with the request's fields; records only evolve; exclusivity is preserved; with a fresh id, unique ids are preserved |
| AppointmentService.AppointmentStore.Cancel | services/appointmentService.ts:76-88 | returns true exactly when the id is present; then only the first record with it changes, to Cancelled; otherwise nothing changes; exclusivity and unique ids are preserved |
| MockApi.Login | services/mockApi.ts:55-63 | some user is returned exactly when a user's username and password both match; it is the first such user, without its password |
| MockApi.FindById | services/mockApi.ts:81-82 | a user is returned exactly when one has the id; it is the first such user in the table |
| MockApi.DoctorPatients | services/mockApi.ts:83-88 | empty for an unknown doctor; otherwise exactly the patients on the doctor's roster, in patient-table order |
| MockApi.LoginAfterRegister | services/mockApi.ts:64-80 | a user appended under a fresh username is the one login then returns for its credentials |
| MockApi.GetConversation | services/mockApi.ts:90-96 | exactly the messages between the two users in either direction, with their multiplicity, oldest first, and messages with equal timestamps in log order |
| MockApi.DoctorMessages | services/mockApi.ts:112 | exactly the messages the doctor sent or received, each as often as in the log, in log order |
| MockApi.PartnerKeysSound | services/mockApi.ts:114-128 | the overview's keys are known patients the doctor exchanged messages with, each such patient is a key, and no key repeats |
| MockApi.LatestWithIsLatest | services/mockApi.ts:118 | the message kept for a patient is none when the doctor exchanged no message with them; otherwise it is a newest such message, and the earliest in the log among equally new ones |
| MockApi.UnreadCountConcat | services/mockApi.ts:130-137 | the unread count of two consecutive parts of the log is the sum of their counts |
| MockApi.UnreadInDoctorMessages | services/mockApi.ts:130-137 | counting over the doctor's messages equals counting the patient's unread messages to the doctor over the whole log |
| MockApi.Entries | services/mockApi.ts:139 | `Object.values` yields one entry per key |
| MockApi.EntriesFacts | services/mockApi.ts:109-142 | each entry holds the patient's record, the latest message and the unread count; every key has an entry; no two entries share a patient |
| MockApi.ConversationsNewestFirst | services/mockApi.ts:139 | the overview is ordered by last-message time, newest first |
| MockApi.ConversationsOnePerPatient | services/mockApi.ts:110-139 | no patient appears twice in the overview |
| MockApi.EntryContents | services/mockApi.ts:109-142 | one entry holds a known patient's record, their newest message with the doctor, and their unread count over the whole log |
| MockApi.ConversationContents | services/mockApi.ts:109-142 | each overview entry is a known patient's record with a message of theirs with the doctor that no other such message is newer than, and the count of that patient's unread messages to the doctor in the whole log |
| MockApi.ConversationsDistinctLastIds | services/mockApi.ts:109-142 | when message ids are unique in the log, no two overview entries share the id of their last message |
| MockApi.ConversationsComplete | services/mockApi.ts:114-128 | every known patient the doctor exchanged a message with has an entry |
| MockApi.FirstPassKeys | services/mockApi.ts:114-128 | the first loop's record has exactly the overview's keys, all of them known patients |
| MockApi.FirstPassLatest | services/mockApi.ts:118-125 | each entry of the first loop's record holds the patient's record and latest message; a known patient without an entry exchanged no message with the doctor |
| MockApi.CollectLatest | services/mockApi.ts:114-128 | the first loop's keys in insertion order, and for each key the patient's record and latest message |
| MockApi.CountUnread | services/mockApi.ts:130-137 | the second loop adds to each existing entry the number of unread messages from that patient to the doctor, and creates no entry |
| MockApi.GetDoctorConversations | services/mockApi.ts:109-142 | the two loops, `Object.values` and the sort compute exactly the reference overview |
| MockApi.MarkedRead | services/mockApi.ts:143-150 | every message from the sender to the receiver is read afterwards; every other message is unchanged; only the read flag changes |
| MockApi.MarkedReadIdempotent | services/mockApi.ts:143-150 | marking read twice is marking read once |
| MockApi.NoUnreadAfterMarking | services/mockApi.ts:143-150 | after a patient's messages to a doctor are marked read, none of them is unread |
| MockApi.MarkingClearsOverviewCount | services/mockApi.ts:143-150 | after a patient's messages to a doctor are marked read, the doctor's overview shows no unread messages for that patient |
| MockApi.Backend.constructor | services/mockApi.ts:23 | the user table is the doctors, then the patients, then the staff |
| MockApi.Backend.Register | services/mockApi.ts:64-80 | a username already in use yields None and no change; otherwise the new patient, assigned to `doc-1`, is appended to both tables and returned without its password; unique usernames are preserved |
| MockApi.Backend.SendMessage | services/mockApi.ts:97-108 | appends one unread message with the given sender, receiver, text, id and time, and returns it |
| MockApi.Backend.MarkMessagesAsRead | services/mockApi.ts:143-150 | the log becomes its read-marked version in place; the user tables are unchanged |
| NotificationContext.AddToast | context/NotificationContext.tsx:20-27 | one toast is appended after the unchanged earlier toasts, with the given id and message and with kind `Info` unless another is given |
| NotificationContext.RemoveToast | context/NotificationContext.tsx:29-31 | no toast with the id remains, every other toast stays with its multiplicity and in order, and an absent id changes nothing |
| NotificationContext.RemoveAfterAdd | context/NotificationContext.tsx:20-31 | dismissing a just-added toast whose id is fresh gives back the earlier list |
| NotificationContext.RemoveToastIdempotent | context/NotificationContext.tsx:29-31 | removing the same id twice is removing it once |
| NotificationContext.RemoveToastCommutes | context/NotificationContext.tsx:29-31 | the order in which two ids are dismissed does not matter |
| NotificationContext.AddThenRemoveOther | context/NotificationContext.tsx:20-31 | adding a toast and dismissing a different id commute |
| DoctorDashboard.HandleNewAlert | pages/DoctorDashboard.tsx:305-312 | with an alert on the same patient and vital present, every such alert is replaced in place and the length is kept; otherwise the new alert is prepended to the old list |
| DoctorDashboard.HandleNewAlertShows | pages/DoctorDashboard.tsx:305-312 | the new alert is shown and is the only one for its patient and vital; alerts about other subjects are shown exactly as before |
| DoctorDashboard.HandleNewAlertKeepsOnePerSubject | pages/DoctorDashboard.tsx:305-312 | "at most one alert per patient and vital" is preserved |
| DoctorDashboard.HandleNewAlertIdempotent | pages/DoctorDashboard.tsx:305-312 | delivering the same alert twice is delivering it once |
| DoctorDashboard.TotalUnread | pages/DoctorDashboard.tsx:322 | the badge is 0 exactly when every conversation has no unread messages, and is at least each conversation's count |
| DoctorDashboard.TotalUnreadConcat | pages/DoctorDashboard.tsx:322 | the badge of a concatenation is the sum of the badges |
| DoctorDashboard.Preview | pages/DoctorDashboard.tsx:294 | a text longer than 40 characters becomes its first 40 characters and "...", 43 in all; a shorter text is unchanged |
| DoctorDashboard.PollNotified | pages/DoctorDashboard.tsx:292-298 | after a poll the notified set is the old one plus the last-message id of every conversation with unread messages whose last message is not the doctor's |
| DoctorDashboard.PollQuiet | pages/DoctorDashboard.tsx:292-298 | a poll over conversations that are all notified already raises nothing and changes nothing |
| DoctorDashboard.SecondPollQuiet | pages/DoctorDashboard.tsx:292-298 | polling again with the same overview raises no further toast |
| DoctorDashboard.PollToasts | pages/DoctorDashboard.tsx:292-298 | when no two conversations share a last message, a conversation raises a toast, in order, exactly when it has unread messages, its last message is not the doctor's, and that message was not notified before |
| DoctorDashboard.PollOverview | pages/DoctorDashboard.tsx:288-299 | polling the doctor's overview of a log with unique message ids raises, in overview order, exactly the toasts of the conversations that should notify |
| DoctorDashboard.NotifiedMessages.constructor | pages/DoctorDashboard.tsx:281 | the notified set starts empty |
| DoctorDashboard.NotifiedMessages.Notify | pages/DoctorDashboard.tsx:292-298 | the loop raises exactly the toasts of the reference poll, each reading `New message from <patient name>: "<preview of the last message>"`, and leaves the notified set as the reference poll does; the set only grows |

## Left out

- Rendering, routing, charts, modals and styling are not modelled. That
  includes the rest of the dashboards and pages, the layout, the toast
  component and its auto-dismiss timer, and the `useNotification`
  error raised outside a provider. None of it computes state that the
  modelled operations use.
- The AI chat service is not part of this model: it is a call into a
  foreign network SDK. The simulated vital-sign feed is not part of this
  model either: it is a floating-point random walk driven by
  `Math.random` and timers.
- The authentication context and the patient dashboard are not
  modelled. The context only forwards to login and registration. The
  patient dashboard's notify rule repeats the doctor dashboard's.
- Persistence is left out. `localStorage`, JSON parsing and printing, and
  the fallback to the empty list on a parse error become the constructor's
  optional saved list. A failing save is only logged by the source; the
  model treats every save as successful.
- `mockRequest` is left out: its delay, its Promise, and the JSON deep copy
  of every result. The model returns values, so callers can never alias
  the backend's records in it; the source's clients get copies too. The
  deep copy has one effect the model does not capture: for `undefined`,
  `JSON.stringify` gives `undefined` and `JSON.parse` then throws inside
  the timer callback, so the Promise never settles (see the next line).
- Concurrency is left out. That covers the polling intervals, overlapping
  polls, and the read-modify-write race between browser tabs on the
  appointment store. The model runs every operation to completion, one
  after another.
- The clock is left out. Ids built from `Date.now()`, message times
  and toast ids are parameters. Dates and times of appointments are
  compared as text, as the source compares them.
- The seed tables (doctors, patients, staff, messages) and the constant
  analytics data are fixtures. `MockApi.Backend.constructor` takes the
  tables as parameters instead. `getAnalytics` returns the constant data and
  is not modelled.
- The doctor table holds `Doctor` records in the source, so every doctor
  has a patient roster. The model's `User` does not force doctors to carry
  a `DoctorProfile`; `MockApi.Roster` gives an empty roster for any other
  profile, a case the typed source table never produces.
- `getPatient` and `getDoctor` have no method of their own.
  `MockApi.FindById` is the `find` by id they perform on the patient or
  doctor table (as do `getDoctorPatients` and the overview's patient
  lookup). For an id that is in the table the result is that record. For
  an unknown id `find` gives `undefined`, and the source's `getPatient`
  and `getDoctor` then never settle, because the deep copy in
  `mockRequest` throws; the model's `None` stands for the result of the
  `find`, not for a value the caller receives.
- MockApi.Entries: `Object.values` is modelled as key insertion order.
  JavaScript lists integer-like keys first, but patient ids (`patient-…`)
  are never integer-like.
- DoctorDashboard.Preview: counts Dafny characters. JavaScript's `length`
  and `substring` count UTF-16 code units, so the two differ for text
  outside the Basic Multilingual Plane.
- DoctorDashboard.PollToasts: stated only for lists in which no two
  conversations share a last-message id. `DoctorDashboard.PollOverview`
  shows that the overview of a log with unique message ids is such a list.
  `DoctorDashboard.PollNotified` and `DoctorDashboard.NotifiedMessages.Notify`
  cover every input.
- DoctorDashboard.NotifiedMessages.Notify: returns the toast texts in
  order instead of calling `addToast`. Each text would be added with
  `NotificationContext.AddToast` and kind `Info`.
- DoctorDashboard.TotalUnread and the unread counts use unbounded naturals;
  JavaScript numbers are exact far beyond any reachable count.
- The alert reading is a `real`. No arithmetic is done on it, so
  floating-point behaviour does not matter.
