# Appointment store of a calendar front end

This project models the in-memory appointment store of a small calendar
application (`AppointmentService`) and proves properties about it. The store
holds one piece of state: the list of appointments, kept as the current value
of a behaviour subject that starts out empty. It has three operations:

- **add** appends an appointment to a fresh copy of the list and publishes it.
- **delete** publishes a fresh list without the entries that carry a given id.
  It publishes even when no entry matches.
- **update** finds the first entry with the updated appointment's id. It
  overwrites that slot in the current array and publishes a copy. When the id
  is absent it changes nothing and publishes nothing.

Files:

- `appointment.dfy` (module `AppointmentModel`): the `Appointment` record. `Date` is an opaque type.
- `appointment_list.dfy` (module `AppointmentList`): the list computations as functions, with lemmas about them.
  - `Without` is the filter.
  - `FindIndex` is the first-match search.
  - `Updated` is the replace-first.
  - `Kept` gives the indices a filter keeps.
- `appointment_service.dfy` (module `AppointmentStore`): the class `AppointmentService`.
  - Its field `current: array<Appointment>` is the subject's value.
  - Its ghost field `log` records every published snapshot, the initial empty list included.
  - Each method's `ensures` ties the new state and the new log to the list functions.
  - `UpdateAppointment` also says that the array published before the call is the one written into, so that earlier snapshot changes too.
  - The module also defines call sequences (`Call`, `Step`, `Run`, `Published`) and lemmas about whole sessions.
  - `Perform` and `PerformAll` drive the class with such calls. They prove that the class's list and log are exactly what `Run` and `Published` give, so the session lemmas are statements about the store itself.
- `appointment_form.dfy` (module `AppointmentForm`): submitting the new-appointment form. A valid form (non-empty title and date) adds exactly one appointment. An invalid form adds nothing.

The source does not guarantee that ids are unique. `add` performs no check, so
uniqueness is proved only conditionally. `delete` and `update` preserve it.
`add` preserves it exactly when the new id is absent. A session preserves it
when every add brings a fresh id, which is what the form's generated ids give.

## Model

| member | source | states |
|---|---|---|
| `AppointmentStore.AppointmentService.constructor` | src/app/shared/appointment.service.ts:9 | the store starts with an empty list, and that empty list is the first published snapshot |
| `AppointmentStore.AppointmentService.Snapshot` | src/app/shared/appointment.service.ts:9-10 | a new subscriber first receives the last published snapshot, which equals the current list |
| `AppointmentStore.NewArray` | src/app/shared/appointment.service.ts:14 | a spread copy is a fresh array with the same contents |
| `AppointmentStore.AppointmentService.AddAppointment` | src/app/shared/appointment.service.ts:12-15 | new list = old list followed by the appointment, in a fresh array; exactly one snapshot is published; with distinct ids before, ids stay distinct after exactly when the added id was absent |
| `AppointmentStore.AppointmentService.DeleteAppointment` | src/app/shared/appointment.service.ts:17-20 | new list = the old list without the id's entries, in a fresh array; one snapshot is always published, even when nothing matched; distinct ids stay distinct |
| `AppointmentStore.AppointmentService.UpdateAppointment` | src/app/shared/appointment.service.ts:22-29 | new list = the old list with its first entry of that id replaced by the update; the array published before the call now holds that new list; with the id present a fresh copy is published; with the id absent the array and the log are unchanged; distinct ids stay distinct |
| `AppointmentList.Without` | src/app/shared/appointment.service.ts:19 | filtering never lengthens the list |
| `AppointmentList.WithoutKept` | src/app/shared/appointment.service.ts:19 | the filtered list is the entries at an increasing sequence of indices, namely exactly the indices whose id differs; so every other entry is kept, in its original relative order |
| `AppointmentList.WithoutRemovesId` | src/app/shared/appointment.service.ts:19 | after a delete no entry carries the deleted id |
| `AppointmentList.WithoutMembers` | src/app/shared/appointment.service.ts:19 | an appointment is in the filtered list if and only if it was in the list and carries a different id |
| `AppointmentList.WithoutLength` | src/app/shared/appointment.service.ts:19 | the length drops by exactly the number of entries that carried the id |
| `AppointmentList.CountPositive` | src/app/shared/appointment.service.ts:19 | the number of matching entries is positive if and only if the id is present |
| `AppointmentList.WithoutUnchanged` | src/app/shared/appointment.service.ts:19 | a delete leaves the list as it was if and only if the id is absent |
| `AppointmentList.WithoutIdempotent` | src/app/shared/appointment.service.ts:17-20 | deleting the same id a second time changes nothing |
| `AppointmentList.WithoutKeepsUnique` | src/app/shared/appointment.service.ts:19 | pairwise distinct ids stay pairwise distinct after a delete |
| `AppointmentList.DeleteUndoesAdd` | src/app/shared/appointment.service.ts:12-20 | deleting the id of an appointment just appended with a fresh id gives back the original list |
| `AppointmentList.FindIndex` | src/app/shared/appointment.service.ts:24 | the result is -1 if and only if no entry carries the id; otherwise it is the first index whose entry carries the id |
| `AppointmentList.Updated` | src/app/shared/appointment.service.ts:24-27 | an update never changes the length of the list |
| `AppointmentList.UpdatedAt` | src/app/shared/appointment.service.ts:24-27 | exactly the first position carrying the id is overwritten with the update; every other position, including later entries with the same id, is unchanged |
| `AppointmentList.UpdatedAbsent` | src/app/shared/appointment.service.ts:25 | an update whose id is absent leaves the list unchanged |
| `AppointmentList.UpdatedPresent` | src/app/shared/appointment.service.ts:25-26 | an update whose id is present puts the updated appointment into the list |
| `AppointmentList.UpdatedSameIds` | src/app/shared/appointment.service.ts:26 | an update does not change which ids are present |
| `AppointmentList.UpdatedKeepsUnique` | src/app/shared/appointment.service.ts:24-26 | pairwise distinct ids stay distinct after an update, because the replacement carries the matched id |
| `AppointmentList.UpdatedIdempotent` | src/app/shared/appointment.service.ts:22-29 | repeating the same update changes nothing more |
| `AppointmentList.AppendKeepsUnique` | src/app/shared/appointment.service.ts:14 | with distinct ids before, appending keeps them distinct if and only if the new id is absent |
| `AppointmentStore.RunKeepsUnique` | src/app/shared/appointment.service.ts:12-29 | over any sequence of add, delete and update calls whose adds bring fresh ids, ids stay pairwise distinct |
| `AppointmentStore.DistinctAddsTail` | src/app/shared/appointment.service.ts:12-15 | after the first add of a run of adds with distinct fresh ids, the remaining adds are still distinct and fresh for the longer list |
| `AppointmentStore.AddsOnly` | src/app/shared/appointment.service.ts:12-15 | a run of adds with distinct fresh ids publishes one snapshot per add; the k-th snapshot is k+1 entries longer than the start and has distinct ids; the final list is the start followed by the added appointments in order |
| `AppointmentStore.AddThenDelete` | src/app/shared/appointment.service.ts:12-20 | adding an appointment with a fresh id and then deleting that id publishes the longer list and then the original list |
| `AppointmentStore.DeleteTwice` | src/app/shared/appointment.service.ts:17-20 | deleting an id twice publishes two snapshots, and both are the same filtered list |
| `AppointmentStore.UpdateAbsentPublishesNothing` | src/app/shared/appointment.service.ts:22-29 | an update of an absent id leaves the list unchanged and publishes no snapshot |
| `AppointmentStore.RunSnoc` | src/app/shared/appointment.service.ts:12-29 | one more call extends the final list by one step and the published snapshots by that call's snapshot, if it publishes one |
| `AppointmentStore.Perform` | src/app/shared/appointment.service.ts:12-29 | performing a call on the store changes its list as `Step` says and logs one snapshot exactly when the call publishes (every add and delete, and an update of a present id) |
| `AppointmentStore.PerformAll` | src/app/shared/appointment.service.ts:12-29 | performing a sequence of calls in order leaves the store holding `Run` of the calls, with the log extended by exactly the snapshots `Published` lists |
| `AppointmentForm.Submit` | src/app/appointment-form/appointment-form.component.ts:100-107 | a valid form (title and date non-empty) adds exactly one appointment, with the generated id, the entered fields and the parsed date, in a fresh array, and publishes once; an invalid form leaves the list, the array and the log unchanged; a generated id that is absent keeps ids distinct |

## Left out

- The calendar component (src/app/calendar/calendar.component.ts) is not modelled. Its rendering calls and its click and drop callbacks are thin wrappers over a third-party widget that is not visible. It only forwards ids and rebuilt appointments to `DeleteAppointment` and `UpdateAppointment`.
- The browser `confirm()` prompt that gates a delete is not modelled. It is browser I/O.
- RxJS subscription and delivery are not modelled. They are replaced by the ghost log of published snapshots in publication order. The subscriber list itself is left out.
- Id generation (`uuidv4()`) is a parameter of `AppointmentForm.Submit`. It is foreign code. Freshness is an explicit hypothesis where uniqueness is claimed.
- Date parsing (`new Date(...)`) is a parameter, and `Date` is an opaque type. Both are foreign.
- AppointmentForm.Submit: does not model the form's `reset()` (line 108). After a reset, Angular sets every control to null, and a later submission without a description would carry a null description. The model's fields are plain strings and cannot be null.
- Angular-side form validation is left out. `Validators.required` and the form's valid flag are reduced to "title and date text are non-empty". The inline error display is left out too.
- Angular decorators, templates, styles and the dependency-injection configuration are not modelled. So is the `console.log` on form changes. None of them contains logic.
- The appointment type file in src/app/shared is not part of this model. The record's fields are taken from what the calendar component reads and writes.
- Ids are meant to be unique: the form gives every new appointment a freshly generated uuid (src/app/appointment-form/appointment-form.component.ts:103). The store does not enforce this, and the model follows the code. Uniqueness is proved only under the stated freshness hypotheses.
