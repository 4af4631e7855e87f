/**
 * The read-only part of the views (searching/views.py): the teacher list a
 * student sees, the guards of a slot request, and the "can send a request"
 * flag of the teacher page.
 */
module Queries {
  import opened Wrappers
  import opened SlotModels
  import opened ProfileModels

  /** The outcomes a handler reports instead of performing its change. */
  datatype Error =
    | NotFound            // get_object_or_404 found no row
    | DepartmentMismatch  // a 3rd/4th-year student asked a teacher of another department
    | SlotUnavailable     // the slot is filled (or, for a request, not available)
    | DuplicateRequest    // the student already has a pending request
    | AlreadyAssigned     // the student is already bound to a filled slot
    | NotOwner            // the slot belongs to another teacher
    | AlreadyProcessed    // the request is no longer pending
    | SlotOccupied        // a filled slot cannot be deleted
    | CapacityExceeded    // the teacher already owns max_slots slots
    | DuplicatePendingForSlot  // SlotRequest.clean refused the save

  datatype Result<T> = Ok(value: T) | Err(error: Error)

  /** A 3rd/4th-year student with a department is restricted to that department. */
  predicate DepartmentRestricted(p: Student) {
    UpperYear(p.yearOfStudy) && p.department.Some?
  }

  /** The department rule lets student `p` deal with teacher `t`. */
  predicate DepartmentAllowed(p: Student, t: Teacher) {
    !DepartmentRestricted(p) || t.department == p.department
  }

  /**
   * `filter_teachers_view`: approved teachers, optionally of one department
   * and with one scientific interest, and only the student's own department
   * for a restricted student.
   */
  function FilterTeachers(teachers: map<TeacherId, Teacher>, p: Student,
                          department: Option<DeptId>, interest: Option<InterestId>): (r: set<TeacherId>)
    ensures r <= teachers.Keys
    ensures forall t :: t in r ==> teachers[t].isApproved && DepartmentAllowed(p, teachers[t])
  {
    set t | t in teachers && teachers[t].isApproved &&
            (department.None? || teachers[t].department == department) &&
            (interest.None? || interest.value in teachers[t].interests) &&
            DepartmentAllowed(p, teachers[t])
  }

  /** An unfiltered approved teacher in the student's reach is listed, and each optional filter only narrows the list. */
  lemma FilterTeachersNarrows(teachers: map<TeacherId, Teacher>, p: Student,
                              department: Option<DeptId>, interest: Option<InterestId>)
    ensures forall t :: t in teachers && teachers[t].isApproved && DepartmentAllowed(p, teachers[t]) ==>
      t in FilterTeachers(teachers, p, None, None)
    ensures FilterTeachers(teachers, p, department, interest) <= FilterTeachers(teachers, p, None, interest)
    ensures FilterTeachers(teachers, p, department, interest) <= FilterTeachers(teachers, p, department, None)
  {
  }

  /**
   * The department filter keeps exactly the listed teachers of that
   * department, and the interest filter exactly those with that interest;
   * with the unfiltered list pinned down above, this fixes the whole result.
   */
  lemma FilterTeachersAppliesFilters(teachers: map<TeacherId, Teacher>, p: Student,
                                     department: Option<DeptId>, interest: Option<InterestId>)
    ensures forall t :: t in FilterTeachers(teachers, p, department, interest) <==>
      && t in FilterTeachers(teachers, p, None, None)
      && (department.None? || teachers[t].department == department)
      && (interest.None? || interest.value in teachers[t].interests)
    ensures forall t :: t in FilterTeachers(teachers, p, None, None) <==>
      t in teachers && teachers[t].isApproved && DepartmentAllowed(p, teachers[t])
  {
  }

  /** A restricted student who asks for another department's teachers gets an empty list. */
  lemma RestrictedStudentSeesOnlyOwnDepartment(teachers: map<TeacherId, Teacher>, p: Student,
                                               d: DeptId, interest: Option<InterestId>)
    requires DepartmentRestricted(p) && Some(d) != p.department
    ensures FilterTeachers(teachers, p, Some(d), interest) == {}
  {
  }

  /** Student `s` has a pending request on any slot. */
  predicate HasPending(requests: map<RequestId, SlotRequest>, s: StudentId) {
    exists id :: id in requests && requests[id].student == s && requests[id].status == Pending
  }

  /** Student `s` is bound to a filled slot. */
  predicate HasFilledSlot(slots: map<SlotId, Slot>, s: StudentId)
    ensures HasFilledSlot(slots, s) ==> HasAssignedSlot(slots, s)
  {
    exists id :: id in slots && slots[id].student == Some(s) && slots[id].isFilled
  }

  /**
   * The guards of `send_slot_request_view` on an existing slot whose teacher
   * is `owner`, in the order the view checks them: the first one that fails
   * is reported, and None means the request is created.
   */
  function SubmitRefusal(slots: map<SlotId, Slot>, requests: map<RequestId, SlotRequest>,
                         p: Student, s: StudentId, slotId: SlotId, owner: Teacher): (r: Option<Error>)
    requires slotId in slots
    ensures r == Some(DepartmentMismatch) <==> !DepartmentAllowed(p, owner)
    ensures r == Some(SlotUnavailable) <==>
      DepartmentAllowed(p, owner) && (slots[slotId].isFilled || !slots[slotId].isAvailable)
    ensures r == Some(DuplicateRequest) <==>
      DepartmentAllowed(p, owner) && slots[slotId].isAvailable && !slots[slotId].isFilled && HasPending(requests, s)
    ensures r == Some(AlreadyAssigned) <==>
      DepartmentAllowed(p, owner) && slots[slotId].isAvailable && !slots[slotId].isFilled &&
      !HasPending(requests, s) && HasFilledSlot(slots, s)
    ensures r.None? <==>
      DepartmentAllowed(p, owner) && slots[slotId].isAvailable && !slots[slotId].isFilled &&
      !HasPending(requests, s) && !HasFilledSlot(slots, s)
  {
    if !DepartmentAllowed(p, owner) then Some(DepartmentMismatch)
    else if slots[slotId].isFilled || !slots[slotId].isAvailable then Some(SlotUnavailable)
    else if HasPending(requests, s) then Some(DuplicateRequest)
    else if HasFilledSlot(slots, s) then Some(AlreadyAssigned)
    else None
  }

  /** Some request of `s` to a slot of teacher `t` is pending (`active_request` of the teacher page). */
  predicate HasPendingWithTeacher(slots: map<SlotId, Slot>, requests: map<RequestId, SlotRequest>,
                                  s: StudentId, t: TeacherId) {
    exists id :: id in requests && requests[id].student == s && requests[id].status == Pending &&
      requests[id].slot in slots && slots[requests[id].slot].teacher == t
  }

  /**
   * `can_send_request` of `teacher_detail_view` as written: it looks only for
   * a pending request to this teacher.
   */
  function CanSendRequestAsWritten(slots: map<SlotId, Slot>, requests: map<RequestId, SlotRequest>,
                                   s: StudentId, t: TeacherId): (r: bool)
    ensures r ==> AvailableSlots(slots, t) != {} && !HasFilledSlot(slots, s)
  {
    !HasPendingWithTeacher(slots, requests, s, t) && !HasFilledSlot(slots, s) && AvailableSlots(slots, t) != {}
  }

  /**
   * The flag as a student would read it, "a request to this teacher would be
   * accepted": any pending request, to any teacher, clears it.
   */
  function CanSendRequest(slots: map<SlotId, Slot>, requests: map<RequestId, SlotRequest>,
                          s: StudentId, t: TeacherId): (r: bool)
    ensures r ==> CanSendRequestAsWritten(slots, requests, s, t)
  {
    !HasPending(requests, s) && !HasFilledSlot(slots, s) && AvailableSlots(slots, t) != {}
  }

  /**
   * For a student the department rule lets reach teacher `t`, the flag is
   * set exactly when every available slot of `t` would accept the request,
   * and there is one.
   */
  lemma CanSendRequestAgreesWithSubmit(slots: map<SlotId, Slot>, requests: map<RequestId, SlotRequest>,
                                       p: Student, s: StudentId, t: TeacherId, owner: Teacher)
    requires DepartmentAllowed(p, owner)
    ensures CanSendRequest(slots, requests, s, t) ==>
      forall id :: id in AvailableSlots(slots, t) ==> SubmitRefusal(slots, requests, p, s, id, owner).None?
    ensures CanSendRequest(slots, requests, s, t) <==>
      exists id :: id in AvailableSlots(slots, t) && SubmitRefusal(slots, requests, p, s, id, owner).None?
  {
  }

  /**
   * The flag as written can be set while every request would be refused: a
   * student with a pending request to teacher 2 opens the page of teacher 1,
   * sees the button, and the request fails with DuplicateRequest.
   */
  lemma CanSendRequestAsWrittenOverpromises()
    ensures var slots := map[0 := NewSlot(1, 0), 1 := NewSlot(2, 1)];
            var requests := map[0 := SlotRequest(7, 1, Pending, "")];
            var p := Student("PMi-31", 1, None, None, None);
            var owner := Teacher(None, {}, None, DefaultMaxSlots, true);
            CanSendRequestAsWritten(slots, requests, 7, 1) &&
            !CanSendRequest(slots, requests, 7, 1) &&
            SubmitRefusal(slots, requests, p, 7, 0, owner) == Some(DuplicateRequest)
  {
    var slots := map[0 := NewSlot(1, 0), 1 := NewSlot(2, 1)];
    var requests := map[0 := SlotRequest(7, 1, Pending, "")];
    assert 0 in AvailableSlots(slots, 1);
    assert 0 in requests && requests[0].student == 7 && requests[0].status == Pending;
  }
}
