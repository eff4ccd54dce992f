// The slots of the timer heap on values: what each used slot holds, and how
// the live timers by id and the free list follow from it.
module TimerSlots {
  import opened FreeChains
  import opened HeapOrder
  import opened TimerTables

  datatype Entry = Entry(id: int, timer: Timer)

  predicate IsFree(free: seq<int>, s: int) {
    s in free
  }

  // Slots are in range and agree with their ids; keys are the expiry times.
  ghost predicate Slotted(entries: map<int, Entry>, keys: map<int, int>, size: int) {
    && keys.Keys == entries.Keys
    && forall s {:trigger At(entries, s)} | s in entries ::
         1 <= s < size && SlotOf(At(entries, s).id) == s && keys[s] == At(entries, s).timer.expire
  }

  ghost predicate Listed(entries: map<int, Entry>, timers: map<int, Timer>) {
    && (forall s {:trigger At(entries, s)} | s in entries ::
          At(entries, s).id in timers && timers[At(entries, s).id] == At(entries, s).timer)
    && (forall id {:trigger At(timers, id)} | id in timers ::
          At(timers, id) == timers[id] && SlotOf(id) in entries && At(entries, SlotOf(id)).id == id)
  }

  ghost predicate Stamped(entries: map<int, Entry>, stamps: seq<int>) {
    forall s {:trigger At(entries, s)} | s in entries ::
      0 <= s < |stamps| && StampOf(At(entries, s).id) == stamps[s] >= 0
  }

  // Every slot but the pending one (0 for none) is either free or used.
  ghost predicate Split(size: int, used: set<int>, free: seq<int>, pending: int) {
    && !IsFree(free, pending) && pending !in used && 0 !in used && 0 <= pending < size
    && (forall s {:trigger IsFree(free, s)} | 1 <= s < size && s != pending :: IsFree(free, s) <==> s !in used)
  }

  // ----- adding a pending slot -----

  lemma AddSlotted(entries: map<int, Entry>, keys: map<int, int>, size: int, slot: int, e: Entry)
    requires Slotted(entries, keys, size) && 1 <= slot < size && SlotOf(e.id) == slot
    ensures Slotted(entries[slot := e], keys[slot := e.timer.expire], size)
  {
    forall s | s in entries && s != slot ensures At(entries[slot := e], s) == At(entries, s) {
    }
  }

  lemma AddListed(entries: map<int, Entry>, keys: map<int, int>, size: int, timers: map<int, Timer>,
                  slot: int, e: Entry)
    requires Slotted(entries, keys, size) && Listed(entries, timers) && slot !in entries && SlotOf(e.id) == slot
    ensures Listed(entries[slot := e], timers[e.id := e.timer]) && e.id !in timers
  {
    var entries', timers' := entries[slot := e], timers[e.id := e.timer];
    forall id | id in timers ensures id != e.id && SlotOf(id) in entries && entries[SlotOf(id)].id == id {
      var t := At(timers, id);
    }
    forall s | s in entries' ensures entries'[s].id in timers' && timers'[entries'[s].id] == entries'[s].timer {
      if s != slot { assert At(entries, s).id != e.id; }
    }
  }

  lemma UpdateListed(entries: map<int, Entry>, keys: map<int, int>, size: int, timers: map<int, Timer>,
                     slot: int, timer: Timer)
    requires Slotted(entries, keys, size) && Listed(entries, timers) && slot in entries
    ensures Listed(entries[slot := Entry(entries[slot].id, timer)], timers[entries[slot].id := timer])
    ensures entries[slot].id in timers && |timers[entries[slot].id := timer]| == |timers|
  {
    var id := At(entries, slot).id;
    var entries', timers' := entries[slot := Entry(id, timer)], timers[id := timer];
    assert timers'.Keys == timers.Keys && |timers'| == |timers'.Keys|;
    forall s | s in entries' ensures entries'[s].id in timers' && timers'[entries'[s].id] == entries'[s].timer {
      assert SlotOf(At(entries, s).id) == s;
    }
    forall i | i in timers ensures SlotOf(i) in entries' && entries'[SlotOf(i)].id == i {
      var t := At(timers, i);
    }
  }

  // ----- removing a slot -----

  lemma RemoveSlotted(entries: map<int, Entry>, keys: map<int, int>, size: int, slot: int)
    requires Slotted(entries, keys, size)
    ensures Slotted(entries - {slot}, keys - {slot}, size)
  {
    forall s | s in entries && s != slot ensures At(entries - {slot}, s) == At(entries, s) {
    }
  }

  lemma RemoveListed(entries: map<int, Entry>, keys: map<int, int>, size: int, timers: map<int, Timer>, slot: int)
    requires Slotted(entries, keys, size) && Listed(entries, timers) && slot in entries
    ensures Listed(entries - {slot}, timers - {entries[slot].id})
    ensures entries[slot].id in timers && |timers - {entries[slot].id}| == |timers| - 1
  {
    var id := At(entries, slot).id;
    var entries', timers' := entries - {slot}, timers - {id};
    assert timers'.Keys == timers.Keys - {id};
    forall s | s in entries' ensures entries'[s].id in timers' && timers'[entries'[s].id] == entries'[s].timer {
      assert SlotOf(At(entries, s).id) == s;
    }
    forall i | i in timers' ensures SlotOf(i) in entries' && entries'[SlotOf(i)].id == i {
      var t := At(timers, i);
      assert At(entries, SlotOf(i)).id == i;
    }
  }

  // ----- the split of the slots -----

  lemma TakeSplit(size: int, used: set<int>, free: seq<int>)
    requires Split(size, used, free, 0) && free != [] && Distinct(free) && 1 <= free[0] < size
    ensures Split(size, used, free[1..], free[0])
  {
    var rest := free[1..];
    forall k | 0 <= k < |rest| ensures rest[k] == free[k + 1] != free[0] {
    }
    assert IsFree(free, free[0]);
    forall s | 1 <= s < size && s != free[0] ensures IsFree(rest, s) <==> s !in used {
      assert free == [free[0]] + rest;
      assert IsFree(rest, s) <==> IsFree(free, s);
    }
  }

  lemma AddSplit(size: int, used: set<int>, free: seq<int>, pending: int)
    requires Split(size, used, free, pending) && pending > 0 && 0 !in free
    ensures Split(size, used + {pending}, free, 0)
  {
  }

  lemma RemoveSplit(size: int, used: set<int>, free: seq<int>, slot: int)
    requires Split(size, used, free, 0) && slot in used && 1 <= slot < size
    ensures Split(size, used - {slot}, [slot] + free, 0)
    ensures slot !in free
  {
    assert !IsFree(free, slot);
    forall s ensures IsFree([slot] + free, s) <==> s == slot || IsFree(free, s) {
    }
  }

  lemma GrowSplit(size: int, size': int, used: set<int>, free: seq<int>, pending: int)
    requires Split(size, used, free, pending) && 1 <= size <= size'
    requires forall s | s in used :: s < size
    requires forall s | s in free :: s < size
    ensures Split(size', used, free + Range(size, size'), pending)
  {
    var more := free + Range(size, size');
    forall s ensures IsFree(more, s) <==> IsFree(free, s) || size <= s < size' {
      InRange(size, size', s);
    }
  }

  // ----- the stamps -----

  lemma StampFree(entries: map<int, Entry>, stamps: seq<int>, slot: int, stamp: int)
    requires Stamped(entries, stamps) && slot !in entries && 0 <= slot < |stamps|
    ensures Stamped(entries, stamps[slot := stamp])
  {
    forall s | s in entries ensures 0 <= s < |stamps| && s != slot && StampOf(entries[s].id) == stamps[s] >= 0 {
      var e := At(entries, s);
    }
  }

  lemma AddStamped(entries: map<int, Entry>, stamps: seq<int>, slot: int, e: Entry)
    requires Stamped(entries, stamps) && 0 <= slot < |stamps| && StampOf(e.id) == stamps[slot] >= 0
    ensures Stamped(entries[slot := e], stamps)
  {
    forall s | s in entries && s != slot ensures At(entries[slot := e], s) == At(entries, s) {
    }
  }

  lemma RemoveStamped(entries: map<int, Entry>, stamps: seq<int>, slot: int)
    requires Stamped(entries, stamps)
    ensures Stamped(entries - {slot}, stamps)
  {
    forall s | s in entries && s != slot ensures At(entries - {slot}, s) == At(entries, s) {
    }
  }

  lemma GrowStamped(entries: map<int, Entry>, stamps: seq<int>, longer: seq<int>)
    requires Stamped(entries, stamps) && |stamps| <= |longer| && longer[..|stamps|] == stamps
    ensures Stamped(entries, longer)
  {
    forall s | s in entries ensures 0 <= s < |longer| && StampOf(entries[s].id) == longer[s] >= 0 {
      var e := At(entries, s);
      assert longer[s] == longer[..|stamps|][s];
    }
  }

  // ----- the arrays -----

  // heap and index hold what order, its inverse place and the nodes of the used
  // slots say, but for the slot whose node is on its way to the hole.
  ghost predicate InArrays<N>(used: map<int, N>, order: seq<int>, place: map<int, int>,
                              heap: seq<N>, index: seq<int>, hole: int)
  {
    && |order| <= |heap| == |index|
    && place.Keys == used.Keys
    && Inverse(order, place)
    && (forall p {:trigger Nth(order, p)} | 0 <= p < |order| && p != hole ::
          Nth(order, p) in used && heap[p] == At(used, Nth(order, p)))
    && (forall s {:trigger At(place, s)} | s in place ::
          0 <= s < |index| && (At(place, s) != hole ==> index[s] == At(place, s)))
  }

  ghost predicate SameOutside(a: seq<int>, b: seq<int>, slots: set<int>) {
    && |a| == |b|
    && forall s | 0 <= s < |a| && s !in slots :: a[s] == b[s]
  }

  lemma MoveInArrays<N>(used: map<int, N>, order: seq<int>, place: map<int, int>,
                        heap: seq<N>, index: seq<int>, hole: nat, from: nat)
    requires InArrays(used, order, place, heap, index, hole)
    requires hole < |order| && from < |order| && hole != from
    ensures 0 <= order[from] < |index| && order[from] in used && heap[from] == used[order[from]]
    ensures InArrays(used, Swap(order, hole, from), SwapPlace(order, place, hole, from),
                     heap[hole := heap[from]], index[order[from] := hole], from)
  {
    var slot, moving := Nth(order, from), Nth(order, hole);
    var c, d := At(place, slot), At(place, moving);
    SwapKeepsInverse(order, place, hole, from);
    forall p | 0 <= p < |order| && p != hole && p != from ensures order[p] in used && heap[p] == used[order[p]] {
      var s := Nth(order, p);
    }
    forall s | s in place && s != slot && s != moving
      ensures 0 <= s < |index| && index[s] == place[s] && place[s] != hole && place[s] != from
    {
      var p := At(place, s);
    }
  }

  lemma PlaceInArrays<N>(used: map<int, N>, order: seq<int>, place: map<int, int>,
                         heap: seq<N>, index: seq<int>, hole: nat)
    requires InArrays(used, order, place, heap, index, hole) && hole < |order|
    ensures order[hole] in used && 0 <= order[hole] < |index|
    ensures InArrays(used, order, place, heap[hole := used[order[hole]]], index[order[hole] := hole], -1)
  {
    var slot := Nth(order, hole);
    var c := At(place, slot);
    forall p | 0 <= p < |order| && p != hole ensures order[p] in used && heap[p] == used[order[p]] {
      var s := Nth(order, p);
    }
    forall s | s in place && s != slot ensures 0 <= s < |index| && index[s] == place[s] {
      var p := At(place, s);
    }
  }

  lemma AddInArrays<N>(used: map<int, N>, order: seq<int>, place: map<int, int>,
                       heap: seq<N>, index: seq<int>, slot: int, node: N)
    requires InArrays(used, order, place, heap, index, -1) && slot !in used
    requires |order| < |heap| && 0 <= slot < |index|
    ensures InArrays(used[slot := node], order + [slot], place[slot := |order|], heap, index, |order|)
    ensures slot !in order
  {
    var order', place' := order + [slot], place[slot := |order|];
    AppendKeepsInverse(order, place, slot);
    forall p | 0 <= p < |order| ensures order[p] in used && heap[p] == used[order[p]] {
      var s := Nth(order, p);
    }
    forall s | s in place ensures 0 <= s < |index| && index[s] == place[s] && 0 <= place[s] < |order| {
      var p := At(place, s);
    }
    assert place'.Keys == used[slot := node].Keys;
  }

  lemma GrowInArrays<N>(used: map<int, N>, order: seq<int>, place: map<int, int>,
                        heap: seq<N>, index: seq<int>, heap': seq<N>, index': seq<int>)
    requires InArrays(used, order, place, heap, index, -1)
    requires |heap| <= |heap'| == |index'| && heap'[..|heap|] == heap && index'[..|index|] == index
    ensures InArrays(used, order, place, heap', index', -1)
  {
    assert forall p | 0 <= p < |heap| :: heap'[p] == heap'[..|heap|][p];
    assert forall s | 0 <= s < |index| :: index'[s] == index'[..|index|][s];
    forall s | s in place ensures 0 <= s < |index| && index'[s] == place[s] {
      var p := At(place, s);
    }
  }

  // Weaker than InArrays without a hole.
  lemma OpenHole<N>(used: map<int, N>, order: seq<int>, place: map<int, int>, heap: seq<N>, index: seq<int>, hole: nat)
    requires InArrays(used, order, place, heap, index, -1)
    ensures InArrays(used, order, place, heap, index, hole)
  {
    forall s | s in place ensures 0 <= s < |index| && index[s] == place[s] {
      var p := At(place, s);
      assert 0 <= p;
    }
  }

  // Nothing is said about the hole and the index of its slot.
  lemma HoleIsFree<N>(used: map<int, N>, order: seq<int>, place: map<int, int>, heap: seq<N>, index: seq<int>,
                      hole: nat, node: N, pos: int)
    requires InArrays(used, order, place, heap, index, hole) && hole < |order|
    ensures 0 <= order[hole] < |index|
    ensures InArrays(used, order, place, heap[hole := node], index[order[hole] := pos], hole)
  {
    var slot := Nth(order, hole);
    var h := At(place, slot);
    forall p | 0 <= p < |order| && p != hole ensures order[p] in used && heap[p] == used[order[p]] {
      var s := Nth(order, p);
    }
    forall s | s in place && s != slot ensures 0 <= s < |index| && (place[s] != hole ==> index[s] == place[s]) {
      var p := At(place, s);
    }
  }

  // What stands at a position.
  lemma AtPosition<N>(used: map<int, N>, order: seq<int>, place: map<int, int>, heap: seq<N>, index: seq<int>, pos: nat)
    requires InArrays(used, order, place, heap, index, -1) && pos < |order|
    ensures order[pos] in used && heap[pos] == used[order[pos]]
    ensures order[pos] in place && place[order[pos]] == pos && 0 <= order[pos] < |index| && index[order[pos]] == pos
  {
    var slot := Nth(order, pos);
    var p := At(place, slot);
  }

  lemma RemoveInArrays<N>(used: map<int, N>, order: seq<int>, place: map<int, int>,
                          heap: seq<N>, index: seq<int>, pos: nat, link: int)
    requires InArrays(used, order, place, heap, index, -1) && pos < |order|
    requires 0 <= order[pos] < |index|
    ensures InArrays(used - {order[pos]}, GapOrder(order, pos), GapPlace(order, place, pos), heap,
                     index[order[pos] := link], if pos == |order| - 1 then -1 else pos)
  {
    InverseMeans(order, place);
    GapKeepsInverse(order, place, pos);
    forall p | 0 <= p < |order| ensures order[p] in used && heap[p] == used[order[p]] {
      var s := Nth(order, p);
    }
    forall s | s in place ensures 0 <= s < |index| && index[s] == place[s] {
      var p := At(place, s);
    }
  }
}
