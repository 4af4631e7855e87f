# Slot allocation engine of the adviser-search app, in Dafny

The app matches students who need a course-work supervisor with teachers.
Each teacher owns a number of consultation slots, bounded by the teacher's
`max_slots`. A student requests a slot. The slot's teacher approves or rejects
the request, and approving one request rejects every other pending request on
that slot.

This project models that engine as one store, the class `Allocation.Store`. It
holds the slot table, the request table, the teacher profiles and a monotonic
counter. The counter issues row ids and stands for `created_at`. The store's
methods are the five handlers of `searching/views.py` and the capacity hook of
`profiles/signals.py`. Each handler is one atomic step. On an error it returns
`Err` and leaves the store unchanged.

Every handler preserves `Store.Valid()`. It states these facts:

- foreign keys hold, and ids and creation ranks are below the counter;
- every slot is in the state `Slot.save` leaves it in;
- no student is bound to two slots;
- each student has at most one pending request;
- a bound student has no pending request;
- an approved request's slot is bound to its student.

Files:

- `slot_models.dfy` models `searching/models.py`: the slot and request rows, `Slot.clean`, `is_full`, and the duplicate-pending check.
- `profile_models.dfy` models `profiles/models.py`: profiles, `StudentProfile.clean`, `can_change_topic`, the slot counts, and the legacy `Profile.clean`.
- `onboarding.dfy` models `profiles/forms.py`: the form as a class whose `errors` list is appended to, plus the role dispatch of `save`.
- `queries.dfy` holds the read-only part of `searching/views.py`: the teacher filter, the guards of a request, and `can_send_request`.
- `capacity.dfy` holds the pure part of `profiles/signals.py`: which slots a shrinking teacher loses, and how counts move.
- `store.dfy` holds the store, its invariants, and the handlers.
- `scenarios.dfy` holds client runs checked from the handlers' contracts: the capacity limit, cascade rejection, and a shrink stopped by bound slots.

Points where the code says more, or less, than its own comments, and which the model follows as coded:

- The docstring of `send_slot_request_view` (searching/views.py:106-109) lists three checks. The code makes four: the department rule for 3rd- and 4th-year students (lines 121-125) comes first.
- The status `cancelled` is a declared choice (searching/models.py:99) that no handler assigns. The cascade on approval sets `rejected`.
- The slot's `topic` field (searching/models.py:40) is never written by a handler, so it keeps the value it was created with.
- Approve checks `is_filled` (searching/views.py:199) but not `is_available`. Submit checks both (line 127).
- No handler takes a lock or opens a transaction.
- The table constraint allows one pending request per (student, slot) (searching/models.py:128-134). The view enforces one pending request per student across all slots (searching/views.py:131).

## Model

| member | source | states |
|---|---|---|
| `SlotModels.NewSlot` | searching/models.py:38-39 | a new slot has no student, is available and not filled, and has no topic |
| `SlotModels.Clean` | searching/models.py:49-59 | a slot with a student becomes filled and unavailable; a slot without one becomes unfilled and keeps its availability; no other field changes |
| `SlotModels.CleanNormalises` | searching/models.py:49-64 | after a save, `is_filled` holds exactly when a student is set and excludes `is_available`; saving is idempotent and leaves exactly the normal slots unchanged |
| `SlotModels.IsFullOnSavedSlot` | searching/models.py:66-73 | on a saved slot, `is_full` holds exactly when a student is set, and agrees with `is_filled` |
| `SlotModels.IsFull` | searching/models.py:66-73 | a slot with a student is full; on a slot in its saved form, full exactly when filled |
| `SlotModels.OneSlotPerStudent` | searching/models.py:30-37 | the one-to-one `student` field: no student is linked to two slots |
| `SlotModels.UniquePendingPerPair` | searching/models.py:128-134 | the `unique_pending_request` constraint: two pending requests never share both student and slot |
| `SlotModels.DuplicatePending` | searching/models.py:136-150 | `SlotRequest.clean` refuses only pending requests, and never refuses the first request |
| `SlotModels.DuplicateCheckGuardsConstraint` | searching/models.py:128-155 | writing a request passes the duplicate-pending check exactly when the write keeps the per-(student, slot) pending constraint |
| `ProfileModels.StudentClean` | profiles/models.py:75-83 | the only error raised is on `department` |
| `ProfileModels.StudentCleanFailsExactly` | profiles/models.py:75-83 | the check fails exactly for year 3 or 4 with no department; years 1 and 2 always pass |
| `ProfileModels.CanChangeTopic` | profiles/models.py:85-98 | false when a slot is assigned to the student or any of the student's requests is approved, true otherwise |
| `ProfileModels.TeacherSlots` | profiles/models.py:162-169 | the ids of exactly the teacher's slots |
| `ProfileModels.AvailableSlots` | profiles/models.py:153-160 | the teacher's slots that are available and not filled |
| `ProfileModels.FilledSlots` | profiles/models.py:171-178 | the teacher's slots that are filled |
| `ProfileModels.TotalSlotsCount` | profiles/models.py:162-169 | the number of the teacher's slots; how it moves when slots are added or removed is stated by `Capacity.AddSlotCounts` and `Capacity.RemoveSlotsCounts` |
| `ProfileModels.AvailableSlotsCount` | profiles/models.py:153-160 | the number of available, unfilled slots; never more than the total |
| `ProfileModels.FilledSlotsCount` | profiles/models.py:171-178 | the number of filled slots; never more than the total |
| `ProfileModels.AvailableAndFilledWithinTotal` | profiles/models.py:153-178 | the available and filled sets are disjoint, so the two counts sum to at most the total |
| `ProfileModels.LegacyProfileClean` | profiles/models.py:208-219 | the group error occurs exactly for a student with an empty group, the department error exactly for a teacher with no department, and no other error occurs |
| `Onboarding.FormYearsWiderThanChoices` | profiles/forms.py:23-29 | the form accepts every year the profile lists as a choice, and also 5 and 6, which are not choices |
| `Onboarding.FormAdmitsYearOutsideChoices` | profiles/forms.py:23-29 | a student form with a group and a year in range but outside the choices (so 5 or 6) is valid, and creates a profile that passes `StudentProfile.clean` with that year |
| `Onboarding.StudentFieldErrors` | profiles/forms.py:77-86 | `group` fails exactly when the group is empty; `year_of_study` exactly when the year is missing; `student_department` exactly when a present year is 3 or 4 and the department is missing; a missing year skips the department check; no teacher field is reported |
| `Onboarding.TeacherFieldErrors` | profiles/forms.py:88-91 | `teacher_department` is the only error, reported exactly when no department is chosen |
| `Onboarding.FieldErrors` | profiles/forms.py:57-75 | errors come from the student checks for role student, from the teacher checks for role teacher, and there are none without a role |
| `Onboarding.ValidationIgnoresOtherRole` | profiles/forms.py:70-91 | two forms that agree on group, year and student department get the same student errors; two forms that agree on the teacher department get the same teacher errors; no other field is read |
| `Onboarding.OnboardingForm.AddError` | profiles/forms.py:80 | appends exactly one error |
| `Onboarding.OnboardingForm.ValidateStudentFields` | profiles/forms.py:77-86 | appends exactly the student-field errors |
| `Onboarding.OnboardingForm.ValidateTeacherFields` | profiles/forms.py:88-91 | appends exactly the teacher-field errors |
| `Onboarding.OnboardingForm.Clean` | profiles/forms.py:57-75 | appends exactly the errors of the chosen role |
| `Onboarding.BlankToNone` | profiles/forms.py:117-118 | a blank string becomes None; any other string is kept |
| `Onboarding.SaveProfile` | profiles/forms.py:93-134 | a valid form creates a student profile exactly for role student and a teacher profile exactly for role teacher |
| `Onboarding.ValidStudentFormMakesCleanProfile` | profiles/forms.py:111-120 | a valid student form yields a profile that passes `StudentProfile.clean` and the legacy check, and keeps the group, the year and the department; a non-blank specialization or topic is stored as given and a blank one as None |
| `Onboarding.ValidTeacherFormMakesDefaultTeacher` | profiles/forms.py:122-134 | a valid teacher form yields an unapproved teacher with the chosen department, the chosen interests and `max_slots` 4; a non-blank bio is stored as given and a blank one as None |
| `Queries.FilterTeachers` | searching/views.py:31-45 | every listed teacher is approved and passes the department rule of 3rd/4th-year students |
| `Queries.FilterTeachersNarrows` | searching/views.py:32-45 | every reachable approved teacher is listed without filters, and each optional filter only narrows the list |
| `Queries.FilterTeachersAppliesFilters` | searching/views.py:32-45 | without filters, exactly the approved teachers the department rule allows are listed; with filters, exactly those of them in the chosen department and with the chosen interest |
| `Queries.RestrictedStudentSeesOnlyOwnDepartment` | searching/views.py:34-43 | a restricted student who asks for another department gets an empty list |
| `Queries.HasPending` | searching/views.py:131 | the student has a pending request on some slot |
| `Queries.HasFilledSlot` | searching/views.py:135 | the student is bound to a filled slot, which implies a slot is assigned to the student |
| `Queries.SubmitRefusal` | searching/views.py:121-137 | reports the first failing guard in order: department, unavailable slot, pending request, bound student; none exactly when all pass |
| `Queries.CanSendRequestAsWritten` | searching/views.py:81-95 | when set, the teacher has an available slot and the student is not bound to a filled slot |
| `Queries.CanSendRequest` | searching/views.py:81-95 | the flag with any pending request clearing it; it implies the flag as written |
| `Queries.CanSendRequestAgreesWithSubmit` | searching/views.py:81-137 | for a student the department rule allows, the corrected flag holds exactly when some available slot of the teacher accepts a request, and then every one does |
| `Queries.CanSendRequestAsWrittenOverpromises` | searching/views.py:82-95 | a concrete state where the flag as written is set but the request is refused with DuplicateRequest |
| `Capacity.UnboundSlots` | profiles/signals.py:24 | exactly the teacher's slots with no student |
| `Capacity.NewestExists` | profiles/signals.py:24 | a non-empty set of slots has a most recently created member |
| `Capacity.Newest` | profiles/signals.py:24 | a candidate created after every other candidate |
| `Capacity.NewestFirst` | profiles/signals.py:24 | picks min(k, n) candidates, each created after every candidate left out |
| `Capacity.AddSlotCounts` | profiles/signals.py:19-20 | a new slot adds one to its teacher's count and leaves other teachers' slots alone |
| `Capacity.RemoveSlotsCounts` | profiles/signals.py:24 | removing some of a teacher's slots lowers its count by their number and leaves other teachers' slots alone |
| `Capacity.ShrinkVictims` | profiles/signals.py:22-24 | only unbound slots of the teacher are chosen |
| `Capacity.ReconciledCount` | profiles/signals.py:14-24 | the count after the hook is never below `max_slots`, and equals it when the hook grows or keeps the slots |
| `Capacity.RemoveUnboundCounts` | profiles/signals.py:22-24 | after deleting some unbound slots of a teacher, its unbound slots are exactly the rest and its count falls by their number |
| `Capacity.ShrinkOutcome` | profiles/signals.py:22-24 | shrinking deletes at most count − `max_slots` slots, never drops below `max_slots`, reaches it unless the unbound slots run out, keeps every bound slot, and deletes the newest unbound slots first |
| `Allocation.SinglePendingImpliesConstraint` | searching/views.py:131 | one pending request per student implies the per-(student, slot) constraint |
| `Allocation.CascadeReject` | searching/views.py:211-214 | same request ids; every pending request on the slot except the kept one becomes rejected; no other request changes; approved and rejected requests are untouched |
| `Allocation.WithoutSlots` | searching/models.py:108-113 | exactly the requests whose slot is not deleted survive, unchanged |
| `Allocation.BoundTo` | searching/views.py:203-206 | the approved slot is bound to the student, filled, unavailable and normal; teacher, topic and rank are kept |
| `Allocation.ApproveNeverDoubleBinds` | searching/views.py:131-137 | under the invariants, the student of a pending request is bound to no slot |
| `Allocation.CanChangeTopicIffUnbound` | profiles/models.py:85-98 | under the invariants, a student can change the topic exactly while no slot is bound to the student |
| `Allocation.SubmitKeepsConsistent` | searching/views.py:127-144 | adding a request that passed the guards keeps the invariants |
| `Allocation.ApproveKeepsConsistent` | searching/views.py:195-214 | binding, approving and cascading keep the invariants |
| `Allocation.RejectKeepsConsistent` | searching/views.py:239-244 | rejecting a pending request keeps the invariants |
| `Allocation.AddSlotKeepsConsistent` | searching/views.py:292 | adding a fresh slot keeps the invariants |
| `Allocation.RemoveUnboundKeepsConsistent` | searching/views.py:316-320 | deleting unbound slots with their requests keeps the invariants |
| `Allocation.Store.SaveSlot` | searching/models.py:61-64 | writes the cleaned slot |
| `Allocation.Store.CreateSlotRow` | profiles/signals.py:20 | adds a new unbound, available slot under a fresh id |
| `Allocation.Store.SaveRequest` | searching/models.py:136-155 | refuses a duplicate pending request and changes nothing; otherwise writes the request under its key or a fresh id |
| `Allocation.Store.Submit` | searching/views.py:118-144 | NotFound for a missing slot; otherwise the first failing guard in order, with nothing changed; otherwise exactly one new pending request for (student, slot) and nothing else; keeps the invariants |
| `Allocation.Store.Approve` | searching/views.py:189-214 | NotFound, NotOwner, AlreadyProcessed, SlotUnavailable in that order, with nothing changed; otherwise the slot is bound, the request approved, no request on the slot is left pending, and only pending requests change |
| `Allocation.Store.Reject` | searching/views.py:233-244 | NotFound, NotOwner, AlreadyProcessed in that order, with nothing changed; otherwise only that request becomes rejected |
| `Allocation.Store.CreateSlot` | searching/views.py:286-292 | refused when the teacher already owns `max_slots` slots; otherwise the count grows by exactly one, with a new unbound, available slot |
| `Allocation.Store.DeleteSlot` | searching/views.py:310-320 | NotFound, NotOwner, SlotOccupied in that order, with nothing changed; otherwise the slot and every request on it are gone |
| `Allocation.Store.ReconcileSlots` | profiles/signals.py:14-24 | grows to exactly `max_slots` with new unbound slots; does nothing at `max_slots`; above it deletes the chosen newest unbound slots and their requests; touches only this teacher's unbound slots |
| `Allocation.Store.CreateSlots` | profiles/signals.py:17-20 | the growing branch's loop: exactly `n` new unbound, available slots of the teacher under fresh ids, the count rises by `n`, existing slots and all requests stay as they were, the invariants hold |
| `Allocation.Store.DeleteUnboundSlots` | profiles/signals.py:22-24 | deleting unbound slots removes exactly those slots and, by the cascade, exactly the requests on them, keeping the invariants |
| `Allocation.Store.SaveTeacher` | profiles/signals.py:7-8 | after a teacher profile is saved, the hook brings that teacher's slot count to the reconciled count; when growing or keeping, every existing slot and every request stays as it was and only new unbound slots of the teacher appear; when shrinking, exactly the chosen newest unbound slots go, with exactly the requests on them, and bound slots and other teachers' slots stay |

## Findings

| source | as written | input that shows it | evidently intended | confidence | as-written member | corrected member |
|---|---|---|---|---|---|---|
| searching/views.py:82-95 | `can_send_request` looks only for a pending request of the student to this teacher | a student with a pending request to teacher 2 opens the page of teacher 1, which has a free slot: the flag is set, but the request is refused ("you already have an active request") | the flag is cleared by any pending request, as the guard at line 131 requires | medium, not executed | `Queries.CanSendRequestAsWritten` (shown by `Queries.CanSendRequestAsWrittenOverpromises`) | `Queries.CanSendRequest` (proved by `Queries.CanSendRequestAgreesWithSubmit`) |

## Left out

- Rendering, flash messages, redirects and URL routing are left out. Each handler returns only its result value.
- Authentication, sessions and the role decorators are left out. The caller's student or teacher identity is a parameter. `CreateSlot` requires the caller's teacher profile to exist, as `@teacher_required` guarantees.
- Concurrency is left out. The code takes no locks and opens no transactions, so each handler is modelled as one sequential atomic step.
- `created_at` and `updated_at` are replaced by a counter used only for ordering.
- The shrink branch of the capacity hook (profiles/signals.py:24) calls `.delete()` on a sliced queryset, which Django refuses at run time. The model implements the evident intent: delete up to the excess of the newest unbound slots, with their requests.
- Whether the hook runs at all depends on app registration outside the core (users/apps.py). The model runs it on every teacher save.
- Database-level failures are not modelled, such as an integrity error from the one-to-one field. The invariants make them unreachable through the handlers.
- A student saved with a department that is later deleted (`SET_NULL`) is not modelled. Admin edits and the deletion of profiles are not modelled either.
- `Onboarding.SaveProfile` does not model the user link. It models the scientific interests as the set the form gives.
- Display code is left out: `__str__`, verbose names, `teacher_requests_view`, `teacher_slots_view` and `slot_detail_view`.
