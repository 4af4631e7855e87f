/**
 * Student and teacher profiles and the slot counts a teacher profile reports
 * (profiles/models.py).
 */
module ProfileModels {
  import opened Wrappers
  import opened SlotModels

  /** `TeacherProfile.max_slots` defaults to 4. */
  const DefaultMaxSlots: int := 4

  /** The year choices of `StudentProfile.year_of_study`. */
  const YearChoices: set<int> := {1, 2, 3, 4}

  /** The field a validation error is attached to. */
  datatype Field = Group | YearOfStudy | Department | StudentDepartment | TeacherDepartment

  datatype Teacher = Teacher(
    department: Option<DeptId>,
    interests: set<InterestId>,
    bio: Option<string>,
    maxSlots: int,
    isApproved: bool)

  datatype Student = Student(
    group: string,
    yearOfStudy: int,
    specialization: Option<string>,
    courseTopic: Option<string>,
    department: Option<DeptId>)

  /** Third- and fourth-year students are bound to their own department. */
  predicate UpperYear(year: int) {
    year == 3 || year == 4
  }

  /**
   * `StudentProfile.clean`: None when the profile is acceptable, otherwise
   * the field the error is raised on.
   */
  function StudentClean(p: Student): (r: Option<Field>)
    ensures r.Some? ==> r == Some(Department)
  {
    if UpperYear(p.yearOfStudy) && p.department.None? then Some(Department) else None
  }

  /** The check fails exactly for a 3rd/4th-year student without a department; years 1 and 2 always pass. */
  lemma StudentCleanFailsExactly(p: Student)
    ensures StudentClean(p).Some? <==> (p.yearOfStudy == 3 || p.yearOfStudy == 4) && p.department.None?
    ensures p.yearOfStudy == 1 || p.yearOfStudy == 2 ==> StudentClean(p).None?
  {
  }

  /** The slot whose one-to-one link points at `s`, if any (`hasattr(self, 'assigned_slot')`). */
  predicate HasAssignedSlot(slots: map<SlotId, Slot>, s: StudentId) {
    exists id :: id in slots && slots[id].student == Some(s)
  }

  /** Some request of `s` is approved. */
  predicate HasApprovedRequest(requests: map<RequestId, SlotRequest>, s: StudentId) {
    exists id :: id in requests && requests[id].student == s && requests[id].status == Approved
  }

  /**
   * `StudentProfile.can_change_topic`: a topic can be changed only before a
   * teacher has approved the student.
   */
  function CanChangeTopic(slots: map<SlotId, Slot>, requests: map<RequestId, SlotRequest>, s: StudentId): (r: bool)
    ensures HasAssignedSlot(slots, s) ==> !r
    ensures HasApprovedRequest(requests, s) ==> !r
    ensures !HasAssignedSlot(slots, s) && !HasApprovedRequest(requests, s) ==> r
  {
    if HasAssignedSlot(slots, s) then false
    else !HasApprovedRequest(requests, s)
  }

  /** Every slot of teacher `t` (`self.slots`). */
  function TeacherSlots(slots: map<SlotId, Slot>, t: TeacherId): (ids: set<SlotId>)
    ensures ids <= slots.Keys
    ensures forall id :: id in ids <==> id in slots && slots[id].teacher == t
  {
    set id | id in slots && slots[id].teacher == t
  }

  /** The slots of `t` that are available and not filled. */
  function AvailableSlots(slots: map<SlotId, Slot>, t: TeacherId): (ids: set<SlotId>)
    ensures ids <= TeacherSlots(slots, t)
    ensures forall id :: id in ids <==> id in TeacherSlots(slots, t) && slots[id].isAvailable && !slots[id].isFilled
  {
    set id | id in slots && slots[id].teacher == t && slots[id].isAvailable && !slots[id].isFilled
  }

  /** The slots of `t` that are filled. */
  function FilledSlots(slots: map<SlotId, Slot>, t: TeacherId): (ids: set<SlotId>)
    ensures ids <= TeacherSlots(slots, t)
    ensures forall id :: id in ids <==> id in TeacherSlots(slots, t) && slots[id].isFilled
  {
    set id | id in slots && slots[id].teacher == t && slots[id].isFilled
  }

  /** `TeacherProfile.total_slots_count`. */
  function TotalSlotsCount(slots: map<SlotId, Slot>, t: TeacherId): nat {
    |TeacherSlots(slots, t)|
  }

  /** `TeacherProfile.available_slots_count`. */
  function AvailableSlotsCount(slots: map<SlotId, Slot>, t: TeacherId): (n: nat)
    ensures n <= TotalSlotsCount(slots, t)
  {
    SubsetCardinality(AvailableSlots(slots, t), TeacherSlots(slots, t));
    |AvailableSlots(slots, t)|
  }

  /** `TeacherProfile.filled_slots_count`. */
  function FilledSlotsCount(slots: map<SlotId, Slot>, t: TeacherId): (n: nat)
    ensures n <= TotalSlotsCount(slots, t)
  {
    SubsetCardinality(FilledSlots(slots, t), TeacherSlots(slots, t));
    |FilledSlots(slots, t)|
  }

  /** A subset is no larger than its superset. */
  lemma {:induction false} SubsetCardinality<T>(a: set<T>, b: set<T>)
    requires a <= b
    ensures |a| <= |b|
    decreases |b|
  {
    if a != {} {
      var x :| x in a;
      SubsetCardinality(a - {x}, b - {x});
    }
  }

  /**
   * No slot is both available and filled, so the available and filled
   * counts together never exceed the total.
   */
  lemma AvailableAndFilledWithinTotal(slots: map<SlotId, Slot>, t: TeacherId)
    ensures AvailableSlots(slots, t) * FilledSlots(slots, t) == {}
    ensures AvailableSlotsCount(slots, t) + FilledSlotsCount(slots, t) <= TotalSlotsCount(slots, t)
  {
    var av, fi := AvailableSlots(slots, t), FilledSlots(slots, t);
    assert av * fi == {};
    assert |av + fi| == |av| + |fi|;
    SubsetCardinality(av + fi, TeacherSlots(slots, t));
  }

  /** The role of the legacy profile. */
  datatype Role = StudentRole | TeacherRole

  /**
   * The legacy `Profile.clean`: a student needs a group and a teacher needs a
   * department; None when the profile passes.
   */
  function LegacyProfileClean(role: Role, group: string, department: Option<DeptId>): (r: Option<Field>)
    ensures r == Some(Group) <==> role == StudentRole && group == ""
    ensures r == Some(Department) <==> role == TeacherRole && department.None?
    ensures r.None? || r == Some(Group) || r == Some(Department)
  {
    if role == StudentRole && group == "" then Some(Group)
    else if role == TeacherRole && department.None? then Some(Department)
    else None
  }
}
