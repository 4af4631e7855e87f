/**
 * The pure part of the capacity hook (profiles/signals.py): which slots a
 * shrinking teacher loses, and how slot counts move when a slot is added or
 * a set of slots is removed.
 */
module Capacity {
  import opened Wrappers
  import opened SlotModels
  import opened ProfileModels

  /** No two slots share a creation rank, so "newest first" is a strict order. */
  ghost predicate DistinctCreation(slots: map<SlotId, Slot>) {
    forall a, b :: a in slots && b in slots && a != b ==> slots[a].created != slots[b].created
  }

  /** The slots of `t` with no student (`student__isnull=True`): the only ones the hook may delete. */
  function UnboundSlots(slots: map<SlotId, Slot>, t: TeacherId): (ids: set<SlotId>)
    ensures ids <= TeacherSlots(slots, t)
    ensures forall id :: id in ids <==> id in TeacherSlots(slots, t) && slots[id].student.None?
  {
    set id | id in slots && slots[id].teacher == t && slots[id].student.None?
  }

  /** A non-empty set of slots has a most recently created member. */
  lemma {:induction false} NewestExists(slots: map<SlotId, Slot>, cands: set<SlotId>)
    requires cands != {} && cands <= slots.Keys
    ensures exists m :: m in cands && forall c :: c in cands ==> slots[c].created <= slots[m].created
    decreases |cands|
  {
    var x :| x in cands;
    if cands != {x} {
      var rest := cands - {x};
      NewestExists(slots, rest);
      var m :| m in rest && forall c :: c in rest ==> slots[c].created <= slots[m].created;
      if slots[x].created <= slots[m].created {
        assert forall c :: c in cands ==> slots[c].created <= slots[m].created;
      } else {
        assert forall c :: c in cands ==> slots[c].created <= slots[x].created;
      }
    }
  }

  /** The most recently created slot among `cands` (the head of `order_by('-created_at')`). */
  function Newest(slots: map<SlotId, Slot>, cands: set<SlotId>): (m: SlotId)
    requires cands != {} && cands <= slots.Keys && DistinctCreation(slots)
    ensures m in cands
    ensures forall c :: c in cands && c != m ==> slots[c].created < slots[m].created
  {
    NewestExists(slots, cands);
    var m :| m in cands && forall c :: c in cands ==> slots[c].created <= slots[m].created;
    m
  }

  /**
   * `order_by('-created_at')[:k]` over `cands`: the `k` most recently created
   * slots, or all of them when there are fewer than `k`.
   */
  function NewestFirst(slots: map<SlotId, Slot>, cands: set<SlotId>, k: int): (v: set<SlotId>)
    requires cands <= slots.Keys && DistinctCreation(slots)
    ensures v <= cands
    ensures |v| == if k <= 0 then 0 else if k < |cands| then k else |cands|
    ensures forall a, b :: a in v && b in cands && b !in v ==> slots[b].created < slots[a].created
    decreases |cands|
  {
    if k <= 0 || cands == {} then {}
    else
      var m := Newest(slots, cands);
      {m} + NewestFirst(slots, cands - {m}, k - 1)
  }

  /** Adding a slot of teacher `s.teacher` under a new id adds one to that teacher's count and to no other. */
  lemma AddSlotCounts(slots: map<SlotId, Slot>, id: SlotId, s: Slot, u: TeacherId)
    requires id !in slots
    ensures TeacherSlots(slots[id := s], s.teacher) == TeacherSlots(slots, s.teacher) + {id}
    ensures TotalSlotsCount(slots[id := s], s.teacher) == TotalSlotsCount(slots, s.teacher) + 1
    ensures u != s.teacher ==> TeacherSlots(slots[id := s], u) == TeacherSlots(slots, u)
  {
    assert TeacherSlots(slots[id := s], s.teacher) == TeacherSlots(slots, s.teacher) + {id};
  }

  /** Removing some of the slots of `t` lowers its count by their number and leaves other teachers' slots alone. */
  lemma RemoveSlotsCounts(slots: map<SlotId, Slot>, t: TeacherId, v: set<SlotId>, u: TeacherId)
    requires v <= TeacherSlots(slots, t)
    ensures TeacherSlots(slots - v, t) == TeacherSlots(slots, t) - v
    ensures TotalSlotsCount(slots - v, t) == TotalSlotsCount(slots, t) - |v|
    ensures u != t ==> TeacherSlots(slots - v, u) == TeacherSlots(slots, u)
  {
    assert TeacherSlots(slots - v, t) == TeacherSlots(slots, t) - v;
    if u != t {
      assert TeacherSlots(slots - v, u) == TeacherSlots(slots, u);
    }
  }

  /** The slots the hook deletes when `t` owns more than `target` slots. */
  function ShrinkVictims(slots: map<SlotId, Slot>, t: TeacherId, target: int): (v: set<SlotId>)
    requires DistinctCreation(slots)
    ensures v <= UnboundSlots(slots, t)
  {
    NewestFirst(slots, UnboundSlots(slots, t), TotalSlotsCount(slots, t) - target)
  }

  /**
   * The number of slots `t` owns once the hook has run with capacity
   * `target`: the target when the hook grows or keeps the slots, and
   * otherwise the target or, when there are too few unbound slots to delete,
   * the count left once every unbound slot is gone.
   */
  function ReconciledCount(slots: map<SlotId, Slot>, t: TeacherId, target: int): (n: int)
    ensures n >= target
    ensures TotalSlotsCount(slots, t) <= target ==> n == target
  {
    var before := TotalSlotsCount(slots, t);
    var rest := before - |UnboundSlots(slots, t)|;
    if before <= target then target
    else if rest > target then rest
    else target
  }

  /** Removing unbound slots of `t` leaves exactly the other unbound slots of `t` unbound. */
  lemma RemoveUnboundCounts(slots: map<SlotId, Slot>, t: TeacherId, v: set<SlotId>)
    requires v <= UnboundSlots(slots, t)
    ensures UnboundSlots(slots - v, t) == UnboundSlots(slots, t) - v
    ensures TotalSlotsCount(slots - v, t) == TotalSlotsCount(slots, t) - |v|
  {
    RemoveSlotsCounts(slots, t, v, t);
    assert UnboundSlots(slots - v, t) == UnboundSlots(slots, t) - v;
  }

  /** A subset as large as its superset is the superset. */
  lemma SameSizeSubset<T>(a: set<T>, b: set<T>)
    requires a <= b && |a| == |b|
    ensures a == b
  {
    assert |b - a| == |b| - |a| == 0;
  }

  /**
   * What shrinking does: at most `count - target` slots go, all of them
   * unbound slots of `t` and newer than every unbound slot that stays; the
   * count never drops below the target, and it reaches the target unless
   * the unbound slots run out, in which case only bound slots remain.
   */
  lemma ShrinkOutcome(slots: map<SlotId, Slot>, t: TeacherId, target: int)
    requires DistinctCreation(slots)
    requires TotalSlotsCount(slots, t) > target
    ensures var v := ShrinkVictims(slots, t, target);
      && |v| <= TotalSlotsCount(slots, t) - target
      && TotalSlotsCount(slots - v, t) >= target
      && TotalSlotsCount(slots - v, t) == ReconciledCount(slots, t, target)
      && (|UnboundSlots(slots, t)| >= TotalSlotsCount(slots, t) - target ==> TotalSlotsCount(slots - v, t) == target)
      && (|UnboundSlots(slots, t)| < TotalSlotsCount(slots, t) - target ==> UnboundSlots(slots - v, t) == {})
      && (forall id :: id in slots && slots[id].student.Some? ==> id in slots - v)
      && (forall a, b :: a in v && b in UnboundSlots(slots - v, t) ==> slots[b].created < slots[a].created)
  {
    var v := ShrinkVictims(slots, t, target);
    var un := UnboundSlots(slots, t);
    RemoveUnboundCounts(slots, t, v);
    if |un| < TotalSlotsCount(slots, t) - target {
      SameSizeSubset(v, un);
    }
  }
}
