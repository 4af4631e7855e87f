/**
 * The slot allocation engine: the two tables and the teacher profiles as one
 * store, with the handlers of searching/views.py and the capacity hook of
 * profiles/signals.py as its methods. Each handler is one atomic step.
 */
module Allocation {
  import opened Wrappers
  import opened SlotModels
  import opened ProfileModels
  import opened Queries
  import opened Capacity

  /** Every key and creation rank was drawn from the counter before it reached `clock`. */
  ghost predicate BelowClock(slots: map<SlotId, Slot>, requests: map<RequestId, SlotRequest>, clock: nat) {
    (forall id :: id in slots ==> id < clock && slots[id].created < clock) &&
    (forall id :: id in requests ==> id < clock)
  }

  /** Foreign keys: a slot's teacher exists, and a request's slot exists. */
  ghost predicate ForeignKeys(slots: map<SlotId, Slot>, requests: map<RequestId, SlotRequest>,
                              teachers: map<TeacherId, Teacher>) {
    (forall id :: id in slots ==> slots[id].teacher in teachers) &&
    (forall id :: id in requests ==> requests[id].slot in slots)
  }

  /** Every slot has been through `Slot.save`. */
  ghost predicate AllNormal(slots: map<SlotId, Slot>) {
    forall id :: id in slots ==> IsNormal(slots[id])
  }

  /** Each student has at most one pending request, over all slots. */
  ghost predicate SinglePending(requests: map<RequestId, SlotRequest>) {
    forall a, b ::
      (a in requests && b in requests && a != b &&
       requests[a].status == Pending && requests[b].status == Pending) ==>
        requests[a].student != requests[b].student
  }

  /** A student bound to a slot has no pending request. */
  ghost predicate BoundHasNoPending(slots: map<SlotId, Slot>, requests: map<RequestId, SlotRequest>) {
    forall id, r :: id in slots && r in requests && slots[id].student == Some(requests[r].student) ==>
      requests[r].status != Pending
  }

  /** An approved request's slot is bound to the request's student. */
  ghost predicate ApprovedIsBound(slots: map<SlotId, Slot>, requests: map<RequestId, SlotRequest>) {
    forall r :: r in requests && requests[r].status == Approved ==>
      requests[r].slot in slots && slots[requests[r].slot].student == Some(requests[r].student)
  }

  /** The facts every handler keeps. */
  ghost predicate Consistent(slots: map<SlotId, Slot>, requests: map<RequestId, SlotRequest>,
                             teachers: map<TeacherId, Teacher>, clock: nat) {
    BelowClock(slots, requests, clock) &&
    ForeignKeys(slots, requests, teachers) &&
    AllNormal(slots) &&
    DistinctCreation(slots) &&
    OneSlotPerStudent(slots) &&
    SinglePending(requests) &&
    BoundHasNoPending(slots, requests) &&
    ApprovedIsBound(slots, requests)
  }

  /** No request that was approved or rejected before is different after (it may be gone with its slot). */
  ghost predicate KeepsTerminal(before: map<RequestId, SlotRequest>, after: map<RequestId, SlotRequest>) {
    forall id :: id in before && id in after && before[id].status.IsTerminal() ==> after[id] == before[id]
  }

  /** The view's single-pending rule is stronger than the table's per-(student, slot) constraint. */
  lemma SinglePendingImpliesConstraint(requests: map<RequestId, SlotRequest>)
    requires SinglePending(requests)
    ensures UniquePendingPerPair(requests)
  {
  }

  /**
   * The bulk update of `approve_request_view`: every pending request on
   * `slotId` except `keep` becomes rejected; nothing else changes.
   */
  function CascadeReject(requests: map<RequestId, SlotRequest>, slotId: SlotId, keep: RequestId)
    : (r: map<RequestId, SlotRequest>)
    ensures r.Keys == requests.Keys
    ensures forall id :: id in r && id != keep && r[id].slot == slotId ==> r[id].status != Pending
    ensures forall id ::
      (id in requests && id != keep && requests[id].slot == slotId && requests[id].status == Pending) ==>
        r[id] == requests[id].(status := Rejected)
    ensures forall id ::
      (id in requests && (id == keep || requests[id].slot != slotId || requests[id].status != Pending)) ==>
        r[id] == requests[id]
    ensures KeepsTerminal(requests, r)
  {
    map id | id in requests ::
      if id != keep && requests[id].slot == slotId && requests[id].status == Pending
      then requests[id].(status := Rejected) else requests[id]
  }

  /** The requests that survive the deletion of the slots in `gone` (the foreign key cascades). */
  function WithoutSlots(requests: map<RequestId, SlotRequest>, gone: set<SlotId>)
    : (r: map<RequestId, SlotRequest>)
    ensures forall id :: id in r <==> id in requests && requests[id].slot !in gone
    ensures forall id :: id in r ==> r[id] == requests[id]
    ensures KeepsTerminal(requests, r)
  {
    map id | id in requests && requests[id].slot !in gone :: requests[id]
  }

  /** The slot that Approve writes: bound to `s`, filled, unavailable. */
  function BoundTo(slot: Slot, s: StudentId): (b: Slot)
    ensures b.student == Some(s) && b.isFilled && !b.isAvailable && IsNormal(b)
    ensures b.teacher == slot.teacher && b.topic == slot.topic && b.created == slot.created
  {
    slot.(student := Some(s), isFilled := true, isAvailable := false)
  }

  /** A pending request's student is bound nowhere, so approving it never binds a student twice. */
  lemma ApproveNeverDoubleBinds(slots: map<SlotId, Slot>, requests: map<RequestId, SlotRequest>,
                                teachers: map<TeacherId, Teacher>, clock: nat, reqId: RequestId)
    requires Consistent(slots, requests, teachers, clock)
    requires reqId in requests && requests[reqId].status == Pending
    ensures !HasAssignedSlot(slots, requests[reqId].student)
    ensures !HasFilledSlot(slots, requests[reqId].student)
  {
  }

  /** Under the invariants, a student can change the topic exactly while no slot is bound to them. */
  lemma CanChangeTopicIffUnbound(slots: map<SlotId, Slot>, requests: map<RequestId, SlotRequest>,
                                 teachers: map<TeacherId, Teacher>, clock: nat, s: StudentId)
    requires Consistent(slots, requests, teachers, clock)
    ensures CanChangeTopic(slots, requests, s) <==> !HasAssignedSlot(slots, s)
  {
  }

  /** Adding a request of `s` that passed Submit's guards keeps the invariants. */
  lemma SubmitKeepsConsistent(slots: map<SlotId, Slot>, requests: map<RequestId, SlotRequest>,
                              teachers: map<TeacherId, Teacher>, clock: nat,
                              s: StudentId, slotId: SlotId, message: string)
    requires Consistent(slots, requests, teachers, clock)
    requires slotId in slots && !HasPending(requests, s) && !HasFilledSlot(slots, s)
    ensures Consistent(slots, requests[clock := SlotRequest(s, slotId, Pending, message)], teachers, clock + 1)
  {
  }

  /** Binding an unbound slot to a student bound nowhere keeps one slot per student. */
  lemma BindKeepsOneSlotPerStudent(slots: map<SlotId, Slot>, x: SlotId, s: StudentId)
    requires OneSlotPerStudent(slots)
    requires x in slots && !HasAssignedSlot(slots, s)
    ensures OneSlotPerStudent(slots[x := BoundTo(slots[x], s)])
  {
    var slots' := slots[x := BoundTo(slots[x], s)];
    forall a, b | a in slots' && b in slots' && a != b && slots'[a].student.Some?
      ensures slots'[a].student != slots'[b].student
    {
      if a == x {
        assert slots[b].student != Some(s);
      } else if b == x {
        assert slots[a].student != Some(s);
      }
    }
  }

  /** After approval and its cascade, the newly bound student has no pending request left. */
  lemma ApproveKeepsBoundHasNoPending(slots: map<SlotId, Slot>, requests: map<RequestId, SlotRequest>,
                                      reqId: RequestId)
    requires BoundHasNoPending(slots, requests) && SinglePending(requests)
    requires reqId in requests && requests[reqId].status == Pending && requests[reqId].slot in slots
    ensures var q := requests[reqId];
      BoundHasNoPending(slots[q.slot := BoundTo(slots[q.slot], q.student)],
                        CascadeReject(requests[reqId := q.(status := Approved)], q.slot, reqId))
  {
  }

  /** After approval, every approved request still points at a slot bound to its student. */
  lemma ApproveKeepsApprovedIsBound(slots: map<SlotId, Slot>, requests: map<RequestId, SlotRequest>,
                                    reqId: RequestId)
    requires ApprovedIsBound(slots, requests)
    requires reqId in requests && requests[reqId].status == Pending
    requires requests[reqId].slot in slots && slots[requests[reqId].slot].student.None?
    ensures var q := requests[reqId];
      ApprovedIsBound(slots[q.slot := BoundTo(slots[q.slot], q.student)],
                      CascadeReject(requests[reqId := q.(status := Approved)], q.slot, reqId))
  {
    var q := requests[reqId];
    var x := q.slot;
    var slots' := slots[x := BoundTo(slots[x], q.student)];
    var requests' := CascadeReject(requests[reqId := q.(status := Approved)], x, reqId);
    forall r | r in requests' && requests'[r].status == Approved
      ensures requests'[r].slot in slots' && slots'[requests'[r].slot].student == Some(requests'[r].student)
    {
      if r != reqId {
        assert requests[r].status == Approved;
        assert requests[r].slot != x;
      }
    }
  }

  /** Approving a pending request on an unfilled slot, with its cascade, keeps the invariants. */
  lemma ApproveKeepsConsistent(slots: map<SlotId, Slot>, requests: map<RequestId, SlotRequest>,
                               teachers: map<TeacherId, Teacher>, clock: nat, reqId: RequestId)
    requires Consistent(slots, requests, teachers, clock)
    requires reqId in requests && requests[reqId].status == Pending
    requires !slots[requests[reqId].slot].isFilled
    ensures var q := requests[reqId];
      Consistent(slots[q.slot := BoundTo(slots[q.slot], q.student)],
                 CascadeReject(requests[reqId := q.(status := Approved)], q.slot, reqId),
                 teachers, clock)
  {
    var q := requests[reqId];
    ApproveNeverDoubleBinds(slots, requests, teachers, clock, reqId);
    assert slots[q.slot].student.None?;
    BindKeepsOneSlotPerStudent(slots, q.slot, q.student);
    ApproveKeepsBoundHasNoPending(slots, requests, reqId);
    ApproveKeepsApprovedIsBound(slots, requests, reqId);
  }

  /** Rejecting a pending request keeps the invariants. */
  lemma RejectKeepsConsistent(slots: map<SlotId, Slot>, requests: map<RequestId, SlotRequest>,
                              teachers: map<TeacherId, Teacher>, clock: nat, reqId: RequestId)
    requires Consistent(slots, requests, teachers, clock)
    requires reqId in requests && requests[reqId].status == Pending
    ensures Consistent(slots, requests[reqId := requests[reqId].(status := Rejected)], teachers, clock)
  {
  }

  /** Adding a fresh slot of an existing teacher keeps the invariants. */
  lemma AddSlotKeepsConsistent(slots: map<SlotId, Slot>, requests: map<RequestId, SlotRequest>,
                               teachers: map<TeacherId, Teacher>, clock: nat, t: TeacherId)
    requires Consistent(slots, requests, teachers, clock)
    requires t in teachers
    ensures Consistent(slots[clock := NewSlot(t, clock)], requests, teachers, clock + 1)
  {
  }

  /** Deleting unbound slots together with their requests keeps the invariants. */
  lemma RemoveUnboundKeepsConsistent(slots: map<SlotId, Slot>, requests: map<RequestId, SlotRequest>,
                                     teachers: map<TeacherId, Teacher>, clock: nat, gone: set<SlotId>)
    requires Consistent(slots, requests, teachers, clock)
    requires forall id :: id in gone && id in slots ==> slots[id].student.None?
    ensures Consistent(slots - gone, WithoutSlots(requests, gone), teachers, clock)
  {
    var requests' := WithoutSlots(requests, gone);
    forall r | r in requests' && requests'[r].status == Approved
      ensures requests'[r].slot in slots - gone
    {
      assert slots[requests[r].slot].student.Some?;
    }
  }

  /** The slot table, the request table and the teacher profiles, with the counter. */
  class Store {
    var slots: map<SlotId, Slot>
    var requests: map<RequestId, SlotRequest>
    var teachers: map<TeacherId, Teacher>
    /** The monotonic counter that issues ids and stands for `created_at`. */
    var clock: nat

    ghost predicate Valid()
      reads this
    {
      Consistent(slots, requests, teachers, clock)
    }

    constructor ()
      ensures Valid()
      ensures slots == map[] && requests == map[] && teachers == map[] && clock == 0
    {
      slots, requests, teachers, clock := map[], map[], map[], 0;
    }

    /** Draw the next value of the counter. */
    method Tick() returns (n: nat)
      modifies this`clock
      ensures n == old(clock) && clock == old(clock) + 1
    {
      n := clock;
      clock := clock + 1;
    }

    /** `Slot.save`: run `Slot.clean`, then write the row. */
    method SaveSlot(id: SlotId, s: Slot)
      modifies this`slots
      ensures slots == old(slots)[id := Clean(s)]
    {
      slots := slots[id := Clean(s)];
    }

    /** `Slot.objects.create(teacher=t)`: a new unbound, available slot under a fresh id. */
    method CreateSlotRow(t: TeacherId) returns (id: SlotId)
      modifies this`slots, this`clock
      ensures id == old(clock) && clock == old(clock) + 1
      ensures slots == old(slots)[id := NewSlot(t, id)]
    {
      id := Tick();
      SaveSlot(id, NewSlot(t, id));
    }

    /**
     * `SlotRequest.save`: run `SlotRequest.clean`, then write the row under
     * `pk`, or under a fresh id when `pk` is None.
     */
    method SaveRequest(pk: Option<RequestId>, q: SlotRequest) returns (r: Result<RequestId>)
      modifies this`requests, this`clock
      ensures DuplicatePending(old(requests), pk, q) ==>
        r == Err(DuplicatePendingForSlot) && requests == old(requests) && clock == old(clock)
      ensures !DuplicatePending(old(requests), pk, q) ==> r.Ok? && requests == old(requests)[r.value := q]
      ensures !DuplicatePending(old(requests), pk, q) && pk.Some? ==> r.value == pk.value && clock == old(clock)
      ensures !DuplicatePending(old(requests), pk, q) && pk.None? ==>
        r.value == old(clock) && clock == old(clock) + 1
    {
      if DuplicatePending(requests, pk, q) {
        return Err(DuplicatePendingForSlot);
      }
      var id: RequestId;
      if pk.Some? {
        id := pk.value;
      } else {
        id := Tick();
      }
      requests := requests[id := q];
      r := Ok(id);
    }

    /**
     * `send_slot_request_view`: the guards are checked in order and the
     * first that fails is reported with nothing changed; otherwise exactly
     * one new pending request of `s` for the slot is added.
     */
    method Submit(s: StudentId, p: Student, slotId: SlotId, message: string) returns (r: Result<RequestId>)
      requires Valid()
      modifies this
      ensures Valid()
      ensures slotId !in old(slots) ==> r == Err(NotFound)
      ensures slotId in old(slots) ==>
        var refusal := SubmitRefusal(old(slots), old(requests), p, s, slotId, old(teachers)[old(slots)[slotId].teacher]);
        (refusal.Some? ==> r == Err(refusal.value)) && (refusal.None? ==> r.Ok?)
      ensures r.Err? ==> unchanged(this)
      ensures r.Ok? ==>
        && r.value !in old(requests)
        && requests == old(requests)[r.value := SlotRequest(s, slotId, Pending, message)]
        && slots == old(slots) && teachers == old(teachers)
      ensures KeepsTerminal(old(requests), requests)
    {
      if slotId !in slots {
        return Err(NotFound);
      }
      var slot := slots[slotId];
      var owner := teachers[slot.teacher];
      if DepartmentRestricted(p) && owner.department != p.department {
        return Err(DepartmentMismatch);
      }
      if slot.isFilled || !slot.isAvailable {
        return Err(SlotUnavailable);
      }
      if HasPending(requests, s) {
        return Err(DuplicateRequest);
      }
      if HasFilledSlot(slots, s) {
        return Err(AlreadyAssigned);
      }
      SubmitKeepsConsistent(slots, requests, teachers, clock, s, slotId, message);
      r := SaveRequest(None, SlotRequest(s, slotId, DefaultStatus, message));
    }

    /**
     * `approve_request_view`: refused with nothing changed for a foreign
     * slot, a request that is no longer pending, or a filled slot, in that
     * order. Otherwise the slot is bound to the student, the request is
     * approved, and every other pending request on the slot is rejected.
     */
    method Approve(caller: TeacherId, reqId: RequestId) returns (r: Result<()>)
      requires Valid()
      modifies this
      ensures Valid()
      ensures reqId !in old(requests) ==> r == Err(NotFound)
      ensures reqId in old(requests) ==>
        var q := old(requests)[reqId];
        var slot := old(slots)[q.slot];
        r == if slot.teacher != caller then Err(NotOwner)
             else if q.status != Pending then Err(AlreadyProcessed)
             else if slot.isFilled then Err(SlotUnavailable)
             else Ok(())
      ensures r.Err? ==> unchanged(this)
      ensures r.Ok? ==>
        var q := old(requests)[reqId];
        && slots == old(slots)[q.slot := BoundTo(old(slots)[q.slot], q.student)]
        && requests == CascadeReject(old(requests)[reqId := q.(status := Approved)], q.slot, reqId)
        && requests[reqId].status == Approved
        && (forall id :: id in requests && requests[id].slot == q.slot ==> requests[id].status != Pending)
        && teachers == old(teachers) && clock == old(clock)
      ensures KeepsTerminal(old(requests), requests)
    {
      if reqId !in requests {
        return Err(NotFound);
      }
      var q := requests[reqId];
      var slot := slots[q.slot];
      if slot.teacher != caller {
        return Err(NotOwner);
      }
      if q.status != Pending {
        return Err(AlreadyProcessed);
      }
      if slot.isFilled {
        return Err(SlotUnavailable);
      }
      ApproveKeepsConsistent(slots, requests, teachers, clock, reqId);
      SaveSlot(q.slot, slot.(student := Some(q.student), isFilled := true, isAvailable := false));
      assert slots == old(slots)[q.slot := BoundTo(slot, q.student)];
      var _ := SaveRequest(Some(reqId), q.(status := Approved));
      assert requests == old(requests)[reqId := q.(status := Approved)];
      requests := CascadeReject(requests, q.slot, reqId);
      r := Ok(());
    }

    /**
     * `reject_request_view`: refused with nothing changed for a foreign slot
     * or a request that is no longer pending; otherwise only that request
     * becomes rejected.
     */
    method Reject(caller: TeacherId, reqId: RequestId) returns (r: Result<()>)
      requires Valid()
      modifies this
      ensures Valid()
      ensures reqId !in old(requests) ==> r == Err(NotFound)
      ensures reqId in old(requests) ==>
        var q := old(requests)[reqId];
        r == if old(slots)[q.slot].teacher != caller then Err(NotOwner)
             else if q.status != Pending then Err(AlreadyProcessed)
             else Ok(())
      ensures r.Err? ==> unchanged(this)
      ensures r.Ok? ==>
        requests == old(requests)[reqId := old(requests)[reqId].(status := Rejected)] &&
        slots == old(slots) && teachers == old(teachers) && clock == old(clock)
      ensures KeepsTerminal(old(requests), requests)
    {
      if reqId !in requests {
        return Err(NotFound);
      }
      var q := requests[reqId];
      if slots[q.slot].teacher != caller {
        return Err(NotOwner);
      }
      if q.status != Pending {
        return Err(AlreadyProcessed);
      }
      RejectKeepsConsistent(slots, requests, teachers, clock, reqId);
      var _ := SaveRequest(Some(reqId), q.(status := Rejected));
      r := Ok(());
    }

    /**
     * `create_slot_view`: refused when the teacher already owns `max_slots`
     * slots; otherwise one new unbound, available slot is added.
     */
    method CreateSlot(caller: TeacherId) returns (r: Result<SlotId>)
      requires Valid() && caller in teachers
      modifies this
      ensures Valid()
      ensures TotalSlotsCount(old(slots), caller) >= old(teachers)[caller].maxSlots ==>
        r == Err(CapacityExceeded) && unchanged(this)
      ensures TotalSlotsCount(old(slots), caller) < old(teachers)[caller].maxSlots ==>
        r.Ok? && r.value !in old(slots) &&
        slots == old(slots)[r.value := NewSlot(caller, r.value)] &&
        TotalSlotsCount(slots, caller) == TotalSlotsCount(old(slots), caller) + 1 &&
        requests == old(requests) && teachers == old(teachers)
      ensures KeepsTerminal(old(requests), requests)
    {
      if TotalSlotsCount(slots, caller) >= teachers[caller].maxSlots {
        return Err(CapacityExceeded);
      }
      AddSlotKeepsConsistent(slots, requests, teachers, clock, caller);
      AddSlotCounts(slots, clock, NewSlot(caller, clock), caller);
      var id := CreateSlotRow(caller);
      r := Ok(id);
    }

    /**
     * `delete_slot_view`: refused with nothing changed for a foreign or a
     * filled slot; otherwise the slot goes, and with it every request on it.
     */
    method DeleteSlot(caller: TeacherId, slotId: SlotId) returns (r: Result<()>)
      requires Valid()
      modifies this
      ensures Valid()
      ensures slotId !in old(slots) ==> r == Err(NotFound)
      ensures slotId in old(slots) ==>
        r == if old(slots)[slotId].teacher != caller then Err(NotOwner)
             else if old(slots)[slotId].isFilled then Err(SlotOccupied)
             else Ok(())
      ensures r.Err? ==> unchanged(this)
      ensures r.Ok? ==>
        slots == old(slots) - {slotId} && requests == WithoutSlots(old(requests), {slotId}) &&
        teachers == old(teachers) && clock == old(clock)
      ensures KeepsTerminal(old(requests), requests)
    {
      if slotId !in slots {
        return Err(NotFound);
      }
      if slots[slotId].teacher != caller {
        return Err(NotOwner);
      }
      if slots[slotId].isFilled {
        return Err(SlotOccupied);
      }
      RemoveUnboundKeepsConsistent(slots, requests, teachers, clock, {slotId});
      slots := slots - {slotId};
      requests := WithoutSlots(requests, {slotId});
      r := Ok(());
    }

    /**
     * `create_slots_for_teacher`, the hook run after every save of a teacher
     * profile: below the capacity it creates the missing slots one by one;
     * above it, it deletes the most recently created unbound slots of the
     * teacher, at most the excess, together with their requests. Only the
     * teacher's own slots are counted, created or deleted, and bound slots
     * always survive.
     */
    method ReconcileSlots(t: TeacherId)
      requires Valid() && t in teachers
      modifies this
      ensures Valid()
      ensures teachers == old(teachers)
      ensures TotalSlotsCount(slots, t) == ReconciledCount(old(slots), t, teachers[t].maxSlots)
      ensures forall id :: id in old(slots) && (old(slots)[id].teacher != t || old(slots)[id].student.Some?) ==>
        id in slots && slots[id] == old(slots)[id]
      ensures forall id :: id in slots && id !in old(slots) ==> slots[id] == NewSlot(t, id)
      ensures TotalSlotsCount(old(slots), t) < teachers[t].maxSlots ==>
        requests == old(requests) && old(slots).Keys <= slots.Keys &&
        (forall id :: id in old(slots) ==> slots[id] == old(slots)[id])
      ensures TotalSlotsCount(old(slots), t) == teachers[t].maxSlots ==> unchanged(this)
      ensures TotalSlotsCount(old(slots), t) > teachers[t].maxSlots ==>
        var gone := ShrinkVictims(old(slots), t, teachers[t].maxSlots);
        slots == old(slots) - gone && requests == WithoutSlots(old(requests), gone) && clock == old(clock)
      ensures KeepsTerminal(old(requests), requests)
    {
      var current := TotalSlotsCount(slots, t);
      var target := teachers[t].maxSlots;
      if current < target {
        CreateSlots(t, target - current);
      } else if current > target {
        var gone := ShrinkVictims(slots, t, target);
        ShrinkOutcome(slots, t, target);
        DeleteUnboundSlots(gone);
      }
    }

    /** The loop of the hook: `n` calls of `Slot.objects.create(teacher=t)`. */
    method CreateSlots(t: TeacherId, n: nat)
      requires Valid() && t in teachers
      modifies this
      ensures Valid()
      ensures teachers == old(teachers) && requests == old(requests)
      ensures TotalSlotsCount(slots, t) == TotalSlotsCount(old(slots), t) + n
      ensures old(slots).Keys <= slots.Keys
      ensures forall id :: id in old(slots) ==> slots[id] == old(slots)[id]
      ensures forall id :: id in slots && id !in old(slots) ==> slots[id] == NewSlot(t, id)
    {
      var i := 0;
      while i < n
        invariant 0 <= i <= n
        invariant Valid()
        invariant TotalSlotsCount(slots, t) == TotalSlotsCount(old(slots), t) + i
        invariant teachers == old(teachers) && requests == old(requests)
        invariant old(slots).Keys <= slots.Keys
        invariant forall id :: id in old(slots) ==> slots[id] == old(slots)[id]
        invariant forall id :: id in slots && id !in old(slots) ==> slots[id] == NewSlot(t, id)
      {
        AddSlotKeepsConsistent(slots, requests, teachers, clock, t);
        AddSlotCounts(slots, clock, NewSlot(t, clock), t);
        var _ := CreateSlotRow(t);
        i := i + 1;
      }
    }

    /** The bulk delete of the hook: the unbound slots in `gone` go, and the requests on them with them. */
    method DeleteUnboundSlots(gone: set<SlotId>)
      requires Valid()
      requires forall id :: id in gone && id in slots ==> slots[id].student.None?
      modifies this
      ensures Valid()
      ensures slots == old(slots) - gone && requests == WithoutSlots(old(requests), gone)
      ensures teachers == old(teachers) && clock == old(clock)
    {
      RemoveUnboundKeepsConsistent(slots, requests, teachers, clock, gone);
      slots := slots - gone;
      requests := WithoutSlots(requests, gone);
    }

    /**
     * Saving teacher profile `t` (onboarding, the admin's approval, a change
     * of `max_slots`) followed by the hook it triggers.
     */
    method SaveTeacher(t: TeacherId, profile: Teacher)
      requires Valid()
      modifies this
      ensures Valid()
      ensures teachers == old(teachers)[t := profile]
      ensures TotalSlotsCount(slots, t) == ReconciledCount(old(slots), t, profile.maxSlots)
      ensures forall id :: id in old(slots) && (old(slots)[id].teacher != t || old(slots)[id].student.Some?) ==>
        id in slots && slots[id] == old(slots)[id]
      ensures forall id :: id in slots && id !in old(slots) ==> slots[id] == NewSlot(t, id)
      ensures TotalSlotsCount(old(slots), t) <= profile.maxSlots ==>
        requests == old(requests) && old(slots).Keys <= slots.Keys &&
        (forall id :: id in old(slots) ==> slots[id] == old(slots)[id])
      ensures TotalSlotsCount(old(slots), t) > profile.maxSlots ==>
        var gone := ShrinkVictims(old(slots), t, profile.maxSlots);
        slots == old(slots) - gone && requests == WithoutSlots(old(requests), gone) && clock == old(clock)
      ensures KeepsTerminal(old(requests), requests)
    {
      teachers := teachers[t := profile];
      ReconcileSlots(t);
    }
  }
}
