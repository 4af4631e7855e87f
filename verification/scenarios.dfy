/**
 * Client runs of the engine: the capacity limit, the cascade on approval, and
 * a shrink stopped by bound slots, checked from the handlers' contracts alone.
 */
module Scenarios {
  import opened Wrappers
  import opened SlotModels
  import opened ProfileModels
  import opened Queries
  import opened Capacity
  import opened Allocation

  /** A teacher saved with capacity 2 gets two slots from the hook, so a further CreateSlot is refused. */
  method CapacityReached() {
    var store := new Store();
    store.SaveTeacher(1, Teacher(Some(10), {}, None, 2, true));
    assert TotalSlotsCount(store.slots, 1) == 2;
    var full := store.CreateSlot(1);
    assert full == Err(CapacityExceeded);
  }

  /**
   * Two students request one open slot of teacher 1, and a second request
   * of the first student is refused; approving the first request rejects the
   * second, and approving the second is then refused.
   */
  method CascadeOnApproval(store: Store, x: SlotId)
    requires store.Valid() && store.requests == map[]
    requires x in store.slots && store.slots[x] == NewSlot(1, x)
    requires forall id :: id in store.slots ==> store.slots[id].student.None?
    modifies store
  {
    var r1 := store.Submit(7, Student("PMi-11", 1, None, None, None), x, "");
    assert r1.Ok?;
    assert store.requests[r1.value].student == 7;
    var again := store.Submit(7, Student("PMi-11", 1, None, None, None), x, "");
    assert again == Err(DuplicateRequest);

    assert !HasPending(store.requests, 8) && !HasFilledSlot(store.slots, 8);
    var r2 := store.Submit(8, Student("PMi-12", 2, None, None, None), x, "");
    assert r2.Ok? && r2.value != r1.value;

    var approved := store.Approve(1, r1.value);
    assert approved == Ok(());
    assert store.slots[x].student == Some(7) && store.requests[r2.value].status == Rejected;
    var late := store.Approve(1, r2.value);
    assert late == Err(AlreadyProcessed);
  }

  /**
   * A teacher with four slots, two of them bound, whose capacity drops to
   * one loses the two unbound slots and keeps two.
   */
  method ShrinkStopsAtBoundSlots(store: Store, profile: Teacher)
    requires store.Valid()
    requires TotalSlotsCount(store.slots, 1) == 4 && |UnboundSlots(store.slots, 1)| == 2
    requires profile.maxSlots == 1
    modifies store
  {
    store.SaveTeacher(1, profile);
    assert TotalSlotsCount(store.slots, 1) == 2;
  }
}
