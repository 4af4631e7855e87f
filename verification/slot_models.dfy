/**
 * Consultation slots and slot requests, as the two tables of the slot
 * allocation engine store them (searching/models.py).
 */
module SlotModels {
  import opened Wrappers

  type TeacherId = nat
  type StudentId = nat
  type DeptId = nat
  type InterestId = nat
  type SlotId = nat
  type RequestId = nat

  /** The status choices of a slot request. `Cancelled` is declared but nothing assigns it. */
  datatype Status = Pending | Approved | Rejected | Cancelled {
    /** Approve, Reject and the cascade only ever move a request out of `Pending`. */
    predicate IsTerminal() { this == Approved || this == Rejected }
  }

  /** A new request starts as `pending`. */
  const DefaultStatus: Status := Pending

  /**
   * One row of the slot table. `student` is the one-to-one link to a student
   * profile; `created` is the value of a monotonic counter standing for
   * `created_at`, used only for ordering.
   */
  datatype Slot = Slot(
    teacher: TeacherId,
    student: Option<StudentId>,
    isAvailable: bool,
    isFilled: bool,
    topic: Option<string>,
    created: nat)

  /** One row of the request table. */
  datatype SlotRequest = SlotRequest(
    student: StudentId,
    slot: SlotId,
    status: Status,
    message: string)

  /** A freshly created slot: no student, available, not filled, no topic. */
  function NewSlot(teacher: TeacherId, created: nat): (s: Slot)
    ensures s.teacher == teacher && s.created == created && s.topic.None?
    ensures s.student.None? && s.isAvailable && !s.isFilled
  {
    Slot(teacher, None, true, false, None, created)
  }

  /** The shape every saved slot has: filled exactly when a student is set, and never available when filled. */
  predicate IsNormal(s: Slot) {
    (s.isFilled <==> s.student.Some?) && (s.isFilled ==> !s.isAvailable)
  }

  /**
   * `Slot.clean`, which `Slot.save` runs before every write: a slot with a
   * student becomes filled and unavailable; a slot without one becomes
   * unfilled and keeps its availability flag. No other field is touched.
   */
  function Clean(s: Slot): (c: Slot)
    ensures s.student.Some? ==> c.isFilled && !c.isAvailable
    ensures s.student.None? ==> !c.isFilled && c.isAvailable == s.isAvailable
    ensures c.teacher == s.teacher && c.student == s.student
    ensures c.topic == s.topic && c.created == s.created
  {
    if s.student.Some? then s.(isFilled := true, isAvailable := false)
    else s.(isFilled := false)
  }

  /** After any save the slot is normal, and saving a normal slot changes nothing. */
  lemma CleanNormalises(s: Slot)
    ensures IsNormal(Clean(s))
    ensures Clean(s) == s <==> IsNormal(s)
    ensures Clean(Clean(s)) == Clean(s)
  {
  }

  /** `Slot.is_full`: filled, or a student is set. */
  function IsFull(s: Slot): (r: bool)
    ensures s.student.Some? ==> r
    ensures IsNormal(s) ==> (r <==> s.isFilled)
  {
    s.isFilled || s.student.Some?
  }

  /** On a saved slot `is_full` agrees with `is_filled` and with "a student is set". */
  lemma IsFullOnSavedSlot(s: Slot)
    ensures IsFull(Clean(s)) <==> s.student.Some?
    ensures IsFull(Clean(s)) <==> Clean(s).isFilled
  {
  }

  /** The one-to-one `student` field: no student is linked to two slots. */
  ghost predicate OneSlotPerStudent(slots: map<SlotId, Slot>) {
    forall a, b :: a in slots && b in slots && a != b && slots[a].student.Some? ==>
      slots[a].student != slots[b].student
  }

  /** The `unique_pending_request` constraint: at most one pending request per (student, slot). */
  ghost predicate UniquePendingPerPair(requests: map<RequestId, SlotRequest>) {
    forall a, b ::
      (a in requests && b in requests && a != b &&
       requests[a].status == Pending && requests[b].status == Pending) ==>
        requests[a].student != requests[b].student || requests[a].slot != requests[b].slot
  }

  /**
   * `SlotRequest.clean`: saving `q` under primary key `pk` (None for a new
   * row) is refused when `q` is pending and another pending request for the
   * same student and slot exists. Non-pending requests skip the check.
   */
  predicate DuplicatePending(requests: map<RequestId, SlotRequest>, pk: Option<RequestId>, q: SlotRequest)
    ensures DuplicatePending(requests, pk, q) ==> q.status == Pending
    ensures pk.None? && q.status == Pending && requests == map[] ==> !DuplicatePending(requests, pk, q)
  {
    q.status == Pending &&
    exists id :: id in requests && Some(id) != pk &&
      requests[id].student == q.student && requests[id].slot == q.slot && requests[id].status == Pending
  }

  /**
   * The duplicate check is exactly what keeps the constraint: writing `q` at
   * `id` preserves it when the check passes, and a failing check names a
   * write that would break it.
   */
  lemma DuplicateCheckGuardsConstraint(requests: map<RequestId, SlotRequest>, pk: Option<RequestId>, id: RequestId, q: SlotRequest)
    requires UniquePendingPerPair(requests)
    requires pk == Some(id) || (pk.None? && id !in requests)
    ensures !DuplicatePending(requests, pk, q) <==> UniquePendingPerPair(requests[id := q])
  {
    var after := requests[id := q];
    if DuplicatePending(requests, pk, q) {
      var other :| other in requests && Some(other) != pk &&
        requests[other].student == q.student && requests[other].slot == q.slot && requests[other].status == Pending;
      assert other != id;
      assert after[other] == requests[other] && after[id] == q;
    }
  }
}
