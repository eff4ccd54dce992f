// The whole invariant of the timer heap on values, and what each change to the
// arrays does to it. N stands for the reference to a timer node.
module TimerBooks {
  import opened Wrappers
  import opened FreeChains
  import opened HeapOrder
  import opened TimerTables
  import opened TimerSlots

  datatype Book<+N> = Book(
    used: map<int, N>,          // the live node of each used slot
    entries: map<int, Entry>,   // what that node says
    keys: map<int, int>,        // its expiry time
    order: seq<int>,            // the used slots by heap position
    place: map<int, int>,       // and the inverse of order
    free: seq<int>,             // the chain of free slots
    timers: map<int, Timer>)    // the live timers by id

  // pending is a slot that has left the chain but has no node in the heap yet,
  // or 0.
  ghost predicate Parts<N>(b: Book<N>, pending: int, head: int, heap: seq<N>, index: seq<int>, stamps: seq<int>) {
    && |index| > 0
    && b.entries.Keys == b.used.Keys
    && InArrays(b.used, b.order, b.place, heap, index, -1)
    && Keyed(b.order, b.keys) && HeapOrdered(b.order, b.keys)
    && Slotted(b.entries, b.keys, |index|)
    && Listed(b.entries, b.timers)
    && Stamped(b.entries, stamps)
    && Chain(head, b.free, index)
    && index[0] < 0
    && Split(|index|, b.used.Keys, b.free, pending)
  }

  // The same, kept folded: a proof that only hands the invariant on does not
  // see its parts, one that needs them calls Unfold.
  ghost predicate Sound<N>(b: Book<N>, pending: int, head: int, heap: seq<N>, index: seq<int>, stamps: seq<int>) {
    && |heap| == |index| == |stamps|
    && |b.timers| == |b.order| <= |index| - 2
    && |b.free| == |index| - 1 - |b.order| - (if pending == 0 then 0 else 1)
    && b.entries.Keys == b.used.Keys
    && 0 <= pending < |index|
    && forall k: int {:trigger Unfolds(k)} | Unfolds(k) :: Parts(b, pending, head, heap, index, stamps)
  }

  lemma Unfold<N>(b: Book<N>, pending: int, head: int, heap: seq<N>, index: seq<int>, stamps: seq<int>)
    requires Sound(b, pending, head, heap, index, stamps)
    ensures Parts(b, pending, head, heap, index, stamps)
  {
    assert Unfolds(0);
  }

  lemma UsedInRange<N>(b: Book<N>, size: int, s: int)
    requires b.entries.Keys == b.used.Keys && Slotted(b.entries, b.keys, size) && s in b.used
    ensures 1 <= s < size
  {
    var e := At(b.entries, s);
  }

  lemma SoundInitially<N>(b: Book<N>, heap: seq<N>, index: seq<int>, stamps: seq<int>)
    requires 2 <= |heap| == |index| == |stamps|
    requires b == Book(map[], map[], map[], [], map[], Range(1, |index|), map[])
    requires forall i | 0 <= i < |index| :: index[i] == -(i + 1)
    ensures Sound(b, 0, 1, heap, index, stamps)
  {
    ChainInit(index);
    forall s ensures IsFree(b.free, s) <==> 1 <= s < |index| {
      InRange(1, |index|, s);
    }
  }

  // ----- taking a slot -----

  lemma SoundPop<N>(b: Book<N>, head: int, heap: seq<N>, index: seq<int>, stamps: seq<int>, stamp: int)
    requires Sound(b, 0, head, heap, index, stamps)
    ensures b.free != [] && head == b.free[0] && 1 <= head < |index|
    ensures Sound(b.(free := b.free[1..]), head, -index[head], heap, index, stamps[head := stamp])
  {
    Unfold(b, 0, head, heap, index, stamps);
    ChainPop(head, b.free, index);
    TakeSplit(|index|, b.used.Keys, b.free);
    assert IsFree(b.free, head);
    assert head !in b.entries;
    StampFree(b.entries, stamps, head, stamp);
  }

  lemma SoundGrow<N>(b: Book<N>, pending: int, head: int, heap: seq<N>, index: seq<int>, stamps: seq<int>,
                     heap': seq<N>, index': seq<int>, stamps': seq<int>)
    requires Sound(b, pending, head, heap, index, stamps)
    requires |heap| < |heap'| == |index'| == |stamps'|
    requires heap'[..|heap|] == heap && index'[..|index|] == index && stamps'[..|stamps|] == stamps
    requires forall i | |index| <= i < |index'| :: index'[i] == -(i + 1)
    ensures Sound(b.(free := b.free + Range(|index|, |index'|)), pending, head, heap', index', stamps')
  {
    Unfold(b, pending, head, heap, index, stamps);
    ChainGrow(head, b.free, index, index');
    forall s | s in b.used ensures s < |index| {
      UsedInRange(b, |index|, s);
    }
    GrowSplit(|index|, |index'|, b.used.Keys, b.free, pending);
    GrowStamped(b.entries, stamps, stamps');
    GrowInArrays(b.used, b.order, b.place, heap, index, heap', index');
    forall s | s in b.entries ensures 1 <= s < |index'| {
      var e := At(b.entries, s);
    }
    assert index'[0] == index'[..|index|][0];
  }

  // ----- filling it -----

  // The book once the pending slot has a node; where it goes in the order is
  // for the sifting to find out.
  function Inserted<N>(b: Book<N>, slot: int, node: N, e: Entry, order: seq<int>, place: map<int, int>): Book<N> {
    Book(b.used[slot := node], b.entries[slot := e], b.keys[slot := e.timer.expire], order, place, b.free,
         b.timers[e.id := e.timer])
  }

  lemma BeforeInsert<N>(b: Book<N>, slot: int, head: int, heap: seq<N>, index: seq<int>, stamps: seq<int>,
                        node: N, e: Entry)
    requires Sound(b, slot, head, heap, index, stamps) && slot > 0 && SlotOf(e.id) == slot
    ensures var order', place' := b.order + [slot], b.place[slot := |b.order|];
            var b' := Inserted(b, slot, node, e, order', place');
            && Slotted(b'.entries, b'.keys, |index|)
            && InArrays(b'.used, order', place', heap, index, |b.order|)
            && Keyed(order', b'.keys) && OrderedButUp(order', b'.keys, |b.order|)
  {
    Unfold(b, slot, head, heap, index, stamps);
    AddSlotted(b.entries, b.keys, |index|, slot, e);
    AddInArrays(b.used, b.order, b.place, heap, index, slot, node);
    AppendLeaf(b.order, b.keys, slot, e.timer.expire);
  }

  lemma AfterInsert<N>(b: Book<N>, slot: int, head: int, heap: seq<N>, index: seq<int>, stamps: seq<int>,
                       node: N, e: Entry, order': seq<int>, place': map<int, int>, heap': seq<N>, index': seq<int>)
    requires Sound(b, slot, head, heap, index, stamps) && slot > 0 && SlotOf(e.id) == slot
    requires StampOf(e.id) == stamps[slot] >= 0 && |b.order| + 2 < |index|
    requires |order'| == |b.order| + 1 && |heap'| == |heap|
    requires var b' := Inserted(b, slot, node, e, order', place');
             && InArrays(b'.used, order', place', heap', index', -1)
             && Keyed(order', b'.keys) && HeapOrdered(order', b'.keys)
             && SameOutside(index, index', b'.used.Keys)
    ensures Sound(Inserted(b, slot, node, e, order', place'), 0, head, heap', index', stamps)
    ensures e.id !in b.timers
  {
    Unfold(b, slot, head, heap, index, stamps);
    var b' := Inserted(b, slot, node, e, order', place');
    AddSlotted(b.entries, b.keys, |index|, slot, e);
    AddListed(b.entries, b.keys, |index|, b.timers, slot, e);
    AddStamped(b.entries, stamps, slot, e);
    assert 0 !in b.free;
    AddSplit(|index|, b.used.Keys, b.free, slot);
    assert b'.used.Keys == b.used.Keys + {slot};
    UnusedIndex(b', head, index, index');
  }

  lemma UnusedIndex<N>(b: Book<N>, head: int, index: seq<int>, index': seq<int>)
    requires Split(|index|, b.used.Keys, b.free, 0) && Chain(head, b.free, index)
    requires SameOutside(index, index', b.used.Keys)
    ensures Chain(head, b.free, index') && index'[0] == index[0]
  {
    forall s | 0 <= s < |index| && s in b.free ensures index'[s] == index[s] {
      assert IsFree(b.free, s);
    }
    ChainFrame(head, b.free, index, index');
  }

  // ----- emptying a slot -----

  function Removed<N>(b: Book<N>, slot: int, order: seq<int>, place: map<int, int>): Book<N>
    requires slot in b.entries
  {
    Book(b.used - {slot}, b.entries - {slot}, b.keys - {slot}, order, place, [slot] + b.free,
         b.timers - {b.entries[slot].id})
  }

  lemma BeforeRemove<N>(b: Book<N>, head: int, heap: seq<N>, index: seq<int>, stamps: seq<int>, pos: nat)
    requires Sound(b, 0, head, heap, index, stamps) && pos < |b.order|
    ensures var slot := b.order[pos];
            && slot in b.used && slot in b.entries && heap[pos] == b.used[slot]
            && 1 <= slot < |index| && slot !in b.free
            && SlotOf(b.entries[slot].id) == slot && StampOf(b.entries[slot].id) == stamps[slot]
            && b.entries[slot].id in b.timers && b.timers[b.entries[slot].id] == b.entries[slot].timer
  {
    Unfold(b, 0, head, heap, index, stamps);
    AtPosition(b.used, b.order, b.place, heap, index, pos);
    var e := At(b.entries, b.order[pos]);
    assert !IsFree(b.free, b.order[pos]);
  }

  lemma LastInGap<N>(b: Book<N>, head: int, heap: seq<N>, index: seq<int>, stamps: seq<int>, pos: nat)
    requires Sound(b, 0, head, heap, index, stamps) && pos < |b.order| - 1
    ensures var last := GapOrder(b.order, pos)[pos];
            last in b.used - {b.order[pos]} && heap[|b.order| - 1] == b.used[last]
  {
    Unfold(b, 0, head, heap, index, stamps);
    AtPosition(b.used, b.order, b.place, heap, index, |b.order| - 1);
    AtPosition(b.used, b.order, b.place, heap, index, pos);
  }

  lemma DuringRemove<N>(b: Book<N>, head: int, heap: seq<N>, index: seq<int>, stamps: seq<int>, pos: nat)
    requires Sound(b, 0, head, heap, index, stamps) && pos < |b.order|
    requires b.order[pos] in b.entries && 0 <= b.order[pos] < |index|
    ensures var order', place' := GapOrder(b.order, pos), GapPlace(b.order, b.place, pos);
            var b' := Removed(b, b.order[pos], order', place');
            && Slotted(b'.entries, b'.keys, |index|)
            && InArrays(b'.used, order', place', heap, index[b.order[pos] := -head],
                        if pos == |b.order| - 1 then -1 else pos)
            && Keyed(order', b'.keys) && OrderedButAt(order', b'.keys, pos)
  {
    Unfold(b, 0, head, heap, index, stamps);
    var slot := b.order[pos];
    RemoveSlotted(b.entries, b.keys, |index|, slot);
    RemoveInArrays(b.used, b.order, b.place, heap, index, pos, -head);
    GapKeepsOrder(b.order, b.keys, pos);
    InverseMeans(b.order, b.place);
    OrderedWithout(GapOrder(b.order, pos), b.keys, pos, slot);
  }

  lemma AfterRemove<N>(b: Book<N>, head: int, heap: seq<N>, index: seq<int>, stamps: seq<int>, pos: nat,
                       order': seq<int>, place': map<int, int>, heap': seq<N>, index': seq<int>)
    requires Sound(b, 0, head, heap, index, stamps) && pos < |b.order|
    requires b.order[pos] in b.entries && 1 <= b.order[pos] < |index| && b.order[pos] in b.used
    requires |order'| == |b.order| - 1 && |heap'| == |heap|
    requires var b' := Removed(b, b.order[pos], order', place');
             && InArrays(b'.used, order', place', heap', index', -1)
             && Keyed(order', b'.keys) && HeapOrdered(order', b'.keys)
             && SameOutside(index[b.order[pos] := -head], index', b'.used.Keys)
    ensures Sound(Removed(b, b.order[pos], order', place'), 0, b.order[pos], heap', index', stamps[b.order[pos] := 0])
  {
    Unfold(b, 0, head, heap, index, stamps);
    var slot := b.order[pos];
    var b' := Removed(b, slot, order', place');
    RemoveSlotted(b.entries, b.keys, |index|, slot);
    RemoveListed(b.entries, b.keys, |index|, b.timers, slot);
    RemoveStamped(b.entries, stamps, slot);
    StampFree(b'.entries, stamps, slot, 0);
    RemoveSplit(|index|, b.used.Keys, b.free, slot);
    assert b'.used.Keys == b.used.Keys - {slot};
    ChainPush(head, b.free, index, slot);
    UnusedIndex(b', slot, index[slot := -head], index');
  }

  // ----- arming the top again -----

  function ReArmedBook<N>(b: Book<N>, slot: int, timer: Timer, order: seq<int>, place: map<int, int>): Book<N>
    requires slot in b.entries
  {
    var id := b.entries[slot].id;
    Book(b.used, b.entries[slot := Entry(id, timer)], b.keys[slot := timer.expire], order, place, b.free,
         b.timers[id := timer])
  }

  lemma BeforeReArm<N>(b: Book<N>, head: int, heap: seq<N>, index: seq<int>, stamps: seq<int>, timer: Timer)
    requires Sound(b, 0, head, heap, index, stamps) && |b.order| > 0 && b.order[0] in b.entries
    ensures var b' := ReArmedBook(b, b.order[0], timer, b.order, b.place);
            && Slotted(b'.entries, b'.keys, |index|)
            && InArrays(b'.used, b.order, b.place, heap, index, 0)
            && Keyed(b.order, b'.keys) && OrderedButDown(b.order, b'.keys, 0)
  {
    Unfold(b, 0, head, heap, index, stamps);
    var slot := b.order[0];
    var e := At(b.entries, slot);
    AddSlotted(b.entries, b.keys, |index|, slot, Entry(e.id, timer));
    OpenHole(b.used, b.order, b.place, heap, index, 0);
    InverseMeans(b.order, b.place);
    RaiseTop(b.order, b.keys, timer.expire);
  }

  lemma AfterReArm<N>(b: Book<N>, head: int, heap: seq<N>, index: seq<int>, stamps: seq<int>, slot: int, timer: Timer,
                      order': seq<int>, place': map<int, int>, heap': seq<N>, index': seq<int>)
    requires Sound(b, 0, head, heap, index, stamps) && slot in b.entries
    requires |order'| == |b.order| && |heap'| == |heap|
    requires var b' := ReArmedBook(b, slot, timer, order', place');
             && InArrays(b'.used, order', place', heap', index', -1)
             && Keyed(order', b'.keys) && HeapOrdered(order', b'.keys)
             && SameOutside(index, index', b'.used.Keys)
    ensures Sound(ReArmedBook(b, slot, timer, order', place'), 0, head, heap', index', stamps)
  {
    Unfold(b, 0, head, heap, index, stamps);
    var b' := ReArmedBook(b, slot, timer, order', place');
    var e := At(b.entries, slot);
    AddSlotted(b.entries, b.keys, |index|, slot, Entry(e.id, timer));
    UpdateListed(b.entries, b.keys, |index|, b.timers, slot, timer);
    AddStamped(b.entries, stamps, slot, Entry(e.id, timer));
    UnusedIndex(b', head, index, index');
  }

  // ----- looking up -----

  // What the index array says about any id, live or not.
  lemma LocateInBook<N>(b: Book<N>, head: int, heap: seq<N>, index: seq<int>, stamps: seq<int>, id: int)
    requires Sound(b, 0, head, heap, index, stamps)
    ensures id in b.timers <==>
              && 0 <= SlotOf(id) < |index| && index[SlotOf(id)] >= 0 && stamps[SlotOf(id)] == StampOf(id)
    ensures id in b.timers ==>
              && SlotOf(id) in b.used && index[SlotOf(id)] < |b.order|
              && heap[index[SlotOf(id)]] == b.used[SlotOf(id)]
              && b.entries[SlotOf(id)] == Entry(id, b.timers[id])
  {
    Unfold(b, 0, head, heap, index, stamps);
    var slot := SlotOf(id);
    if id in b.timers {
      var t := At(b.timers, id);
      var e := At(b.entries, slot);
      var p := At(b.place, slot);
      AtPosition(b.used, b.order, b.place, heap, index, p);
    } else if 0 <= slot < |index| && index[slot] >= 0 && stamps[slot] == StampOf(id) {
      if slot in b.used {
        var e := At(b.entries, slot);
        SameSlotAndStamp(id, e.id);
      } else {
        assert IsFree(b.free, slot) || slot == 0;
        FreeIsNegative(head, b.free, index, slot);
      }
    }
  }

  lemma SlotOfEntry<N>(b: Book<N>, head: int, heap: seq<N>, index: seq<int>, stamps: seq<int>, slot: int)
    requires Sound(b, 0, head, heap, index, stamps) && slot in b.used
    ensures 1 <= slot < |index| && SlotOf(b.entries[slot].id) == slot
  {
    Unfold(b, 0, head, heap, index, stamps);
    var e := At(b.entries, slot);
  }

  // The index entry of a slot is not negative exactly if the slot is used.
  lemma UsedIffIndexed<N>(b: Book<N>, head: int, heap: seq<N>, index: seq<int>, stamps: seq<int>, slot: int)
    requires Sound(b, 0, head, heap, index, stamps) && 0 <= slot < |index|
    ensures index[slot] >= 0 <==> slot in b.used
    ensures slot in b.used ==>
              slot in b.entries && index[slot] < |b.order| && heap[index[slot]] == b.used[slot]
              && SlotOf(b.entries[slot].id) == slot
  {
    Unfold(b, 0, head, heap, index, stamps);
    if slot in b.used {
      var e := At(b.entries, slot);
      var p := At(b.place, slot);
      AtPosition(b.used, b.order, b.place, heap, index, p);
    } else {
      assert IsFree(b.free, slot) || slot == 0;
      if slot != 0 {
        FreeIsNegative(head, b.free, index, slot);
      }
    }
  }

  lemma FreeIsNegative(head: int, free: seq<int>, index: seq<int>, slot: int)
    requires Chain(head, free, index) && slot in free
    ensures 0 <= slot < |index| && index[slot] < 0
  {
    var k :| 0 <= k < |free| && free[k] == slot;
    if k + 1 < |free| {
      assert index[free[k]] == -free[k + 1];
    }
  }

  lemma SameSlotAndStamp(id: int, id': int)
    requires SlotOf(id) == SlotOf(id') && StampOf(id) == StampOf(id')
    ensures id == id'
  {
  }

  // The top of a nonempty heap is a live timer with the least expiry time.
  lemma TopOfBook<N>(b: Book<N>, head: int, heap: seq<N>, index: seq<int>, stamps: seq<int>)
    requires Sound(b, 0, head, heap, index, stamps) && |b.order| > 0
    ensures var slot := b.order[0];
            && slot in b.used && slot in b.entries && heap[0] == b.used[slot] && SlotOf(b.entries[slot].id) == slot
            && b.entries[slot].id in b.timers && b.timers[b.entries[slot].id] == b.entries[slot].timer
            && forall id | id in b.timers :: b.entries[slot].timer.expire <= b.timers[id].expire
  {
    Unfold(b, 0, head, heap, index, stamps);
    var slot := b.order[0];
    AtPosition(b.used, b.order, b.place, heap, index, 0);
    var e := At(b.entries, slot);
    forall id | id in b.timers ensures e.timer.expire <= b.timers[id].expire {
      var t := At(b.timers, id);
      var e' := At(b.entries, SlotOf(id));
      var p := At(b.place, SlotOf(id));
      AtPosition(b.used, b.order, b.place, heap, index, p);
      TopIsMinimum(b.order, b.keys, p);
    }
  }

  // The view from outside is well formed.
  lemma SoundIsWellFormed<N>(b: Book<N>, head: int, heap: seq<N>, index: seq<int>, stamps: seq<int>, seed: int)
    requires Sound(b, 0, head, heap, index, stamps)
    ensures WellFormed(TimerTable(b.timers, b.free, |index|, seed))
  {
    Unfold(b, 0, head, heap, index, stamps);
    forall id | id in b.timers ensures SlotOf(id) in b.used && b.entries[SlotOf(id)].id == id && StampOf(id) >= 0 {
      var t := At(b.timers, id);
      var e := At(b.entries, SlotOf(id));
    }
    forall s ensures s in b.free || s in Slots(b.timers) <==> 1 <= s < |index| {
      if s in b.used {
        var e := At(b.entries, s);
        assert e.id in b.timers && SlotOf(e.id) == s;
      }
      if s in b.free {
        assert IsFree(b.free, s);
        FreeIsNegative(head, b.free, index, s);
      }
      assert IsFree(b.free, s) <==> s in b.free;
    }
    forall id | id in b.timers ensures SlotOf(id) !in b.free {
      var e := At(b.entries, SlotOf(id));
      assert IsFree(b.free, SlotOf(id)) <==> SlotOf(id) in b.free;
    }
  }
}
