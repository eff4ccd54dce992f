// The timer heap seen from outside: live timers by id, and the free slots in
// the order in which they will be handed out. The class in HeapTimer.dfy is
// proved to compute these functions; the theorems here are about them.
module TimerTables {
  import opened FreeChains
  import opened Randoms

  // Times in microseconds.
  datatype Timer = Timer(expire: int, interval: int, hasCallback: bool)

  datatype TimerTable = TimerTable(timers: map<int, Timer>, free: seq<int>, size: int, seed: int)

  // ----- timer ids: (slot << 32) | stamp -----

  function MakeId(slot: int, stamp: int): (id: int)
    requires 0 <= stamp < 0x1_0000_0000
    ensures SlotOf(id) == slot && LowWord(id) == stamp
  {
    slot * 0x1_0000_0000 + stamp
  }

  // id >> 32
  function SlotOf(id: int): int {
    id / 0x1_0000_0000
  }

  // id & 0xffffffff
  function LowWord(id: int): int {
    id % 0x1_0000_0000
  }

  // The low word cast to int32_t.
  function StampOf(id: int): int {
    if LowWord(id) < 0x8000_0000 then LowWord(id) else LowWord(id) - 0x1_0000_0000
  }

  lemma IdIsSlotAndStamp(id: int, slot: int, stamp: int)
    requires 0 <= stamp < 0x8000_0000
    ensures id == MakeId(slot, stamp) <==> SlotOf(id) == slot && StampOf(id) == stamp
  {
  }

  // ----- invariant -----

  ghost function Slots(timers: map<int, Timer>): set<int> {
    set id | id in timers :: SlotOf(id)
  }

  ghost predicate OneIdPerSlot(timers: map<int, Timer>) {
    forall i, j | i in timers && j in timers && SlotOf(i) == SlotOf(j) :: i == j
  }

  // Every slot of 1 .. size-1 is either used by exactly one live timer or
  // occurs exactly once in the free list, and a registration finds a free slot.
  ghost predicate WellFormed(t: TimerTable) {
    && OneIdPerSlot(t.timers)
    && Distinct(t.free)
    && (forall id | id in t.timers :: SlotOf(id) !in t.free)
    && (forall s :: s in t.free || s in Slots(t.timers) <==> 1 <= s < t.size)
    && (forall id | id in t.timers :: 0 <= StampOf(id))
    && |t.timers| + |t.free| == t.size - 1
    && |t.timers| + 2 <= t.size
  }

  // ----- operations -----

  function Initial(heapSize: nat, seed: int): TimerTable {
    TimerTable(map[], Range(1, heapSize + 1), heapSize + 1, seed)
  }

  function NewId(t: TimerTable): int
    requires t.free != []
  {
    MakeId(t.free[0], Next(t.seed))
  }

  function GrownSize(t: TimerTable): int {
    if |t.timers| + 2 >= t.size then 2 * t.size else t.size
  }

  function Register(t: TimerTable, interval: int, expire: int, hasCallback: bool): TimerTable
    requires t.free != [] && t.size >= 0
  {
    if interval == 0 then t
    else
      TimerTable(t.timers[NewId(t) := Timer(expire, interval, hasCallback)],
                 t.free[1..] + Range(t.size, GrownSize(t)), GrownSize(t), Next(t.seed))
  }

  function Unregister(t: TimerTable, id: int): TimerTable {
    if id in t.timers then t.(timers := t.timers - {id}, free := [SlotOf(id)] + t.free) else t
  }

  // ----- every operation keeps the invariant -----

  // With a size of 0 there is no slot to register with.
  lemma InitialWellFormed(heapSize: nat, seed: int)
    ensures WellFormed(Initial(heapSize, seed)) <==> heapSize >= 1
  {
    var t := Initial(heapSize, seed);
    forall s ensures s in t.free || s in Slots(t.timers) <==> 1 <= s < t.size {
      InRange(1, heapSize + 1, s);
    }
  }

  // A registration yields a positive 64-bit id that no live timer has and adds
  // just that timer.
  lemma RegisterAddsOne(t: TimerTable, interval: int, expire: int, hasCallback: bool)
    requires WellFormed(t)
    ensures 0 < NewId(t) && (t.size <= 0x8000_0000 ==> NewId(t) < 0x8000_0000_0000_0000)
    ensures NewId(t) !in t.timers
    ensures interval != 0 ==>
              WellFormed(Register(t, interval, expire, hasCallback))
  {
    var slot := t.free[0];
    var id := NewId(t);
    assert slot in t.free;
    assert SlotOf(id) == slot;
    if interval != 0 {
      var t' := Register(t, interval, expire, hasCallback);
      RegisterSlots(t, interval, expire, hasCallback);
      assert StampOf(id) == Next(t.seed);
    }
  }

  lemma RegisterSlots(t: TimerTable, interval: int, expire: int, hasCallback: bool)
    requires WellFormed(t) && interval != 0
    ensures var t' := Register(t, interval, expire, hasCallback);
            && Distinct(t'.free)
            && (forall id | id in t'.timers :: SlotOf(id) !in t'.free)
            && (forall s :: s in t'.free || s in Slots(t'.timers) <==> 1 <= s < t'.size)
  {
    var t' := Register(t, interval, expire, hasCallback);
    var extra := Range(t.size, GrownSize(t));
    forall s ensures s in t'.free <==> (s in t.free && s != t.free[0]) || t.size <= s < t'.size {
      if t.size <= s < t'.size { assert extra[s - t.size] == s; }
      if s in t.free && s != t.free[0] {
        var k :| 0 <= k < |t.free| && t.free[k] == s;
        assert t'.free[k - 1] == s;
      }
    }
    forall s ensures s in Slots(t'.timers) <==> s in Slots(t.timers) || s == t.free[0] {
      if s in Slots(t.timers) {
        var id :| id in t.timers && SlotOf(id) == s;
        assert id in t'.timers;
      }
      if s == t.free[0] {
        assert NewId(t) in t'.timers && SlotOf(NewId(t)) == s;
      }
    }
    forall i, j | 0 <= i < j < |t'.free| ensures t'.free[i] != t'.free[j] {
      assert forall k | 0 <= k < |t.free| :: t.free[k] in t.free;
    }
    assert t.free[0] in t.free;
    forall id | id in t'.timers ensures SlotOf(id) !in t'.free {
      if id in t.timers {
        assert SlotOf(id) in Slots(t.timers);
      } else {
        assert SlotOf(id) == t.free[0];
      }
    }
  }

  lemma UnregisterWellFormed(t: TimerTable, id: int)
    requires WellFormed(t)
    ensures WellFormed(Unregister(t, id))
  {
  }

  // Unregistering takes away the named timer and no other; its slot is the next
  // to be handed out.
  lemma UnregisterMeans(t: TimerTable, id: int)
    requires WellFormed(t)
    ensures var t' := Unregister(t, id);
            && t'.timers.Keys == t.timers.Keys - {id}
            && (forall j | j in t'.timers :: t'.timers[j] == t.timers[j])
            && t'.size == t.size && t'.seed == t.seed
            && (id in t.timers ==> t'.free != [] && SlotOf(NewId(t')) == SlotOf(id))
  {
  }

  // The heap grows exactly when a registration takes the last free slot, and
  // then has as many free slots as it had slots.
  lemma GrowthLeavesRoom(t: TimerTable, interval: int, expire: int, hasCallback: bool)
    requires WellFormed(t) && interval != 0
    ensures var t' := Register(t, interval, expire, hasCallback);
            && t'.size >= t.size
            && (t'.size > t.size <==> |t.free| == 1)
            && (t'.size > t.size ==> |t'.free| == t.size)
  {
    RegisterAddsOne(t, interval, expire, hasCallback);
  }

  // The table after a registration and its undoing.
  function Undone(t: TimerTable, interval: int, expire: int, hasCallback: bool): TimerTable
    requires WellFormed(t)
  {
    Unregister(Register(t, interval, expire, hasCallback), NewId(t))
  }

  lemma UndoRegister(t: TimerTable, interval: int, expire: int, hasCallback: bool)
    requires WellFormed(t) && interval != 0
    ensures var t' := Undone(t, interval, expire, hasCallback);
            t'.timers == t.timers && t'.free != [] && t'.free[0] == t.free[0] && t'.seed == Next(t.seed)
  {
  }

  // Reusing a slot: after a registration is undone, the next registration gets
  // the same slot, and a different id exactly when the generator's state is not
  // a multiple of M.
  lemma ReusedSlotChangesId(t: TimerTable, interval: int, expire: int, hasCallback: bool)
    requires WellFormed(t) && interval != 0
    ensures var t' := Undone(t, interval, expire, hasCallback);
            && t'.timers == t.timers && t'.free != []
            && SlotOf(NewId(t')) == SlotOf(NewId(t))
            && (NewId(t') != NewId(t) <==> t.seed % 2147483647 != 0)
  {
    UndoRegister(t, interval, expire, hasCallback);
    var t' := Undone(t, interval, expire, hasCallback);
    assert NewId(t') - NewId(t) == Next(Next(t.seed)) - Next(t.seed);
    NextMoves(Next(t.seed));
    NextNonZero(t.seed);
  }

  // Then the old id is a stranger to the timer that has its slot now: to
  // unregister it has no effect, again exactly if the generator's state is not
  // a multiple of M.
  lemma StaleIdIsIgnored(t: TimerTable, interval: int, expire: int, hasCallback: bool, next: Timer)
    requires WellFormed(t) && interval != 0 && next.interval != 0
    ensures var t' := Undone(t, interval, expire, hasCallback);
            && t'.free != [] && t'.size >= 0
            && var t'' := Register(t', next.interval, next.expire, next.hasCallback);
               Unregister(t'', NewId(t)) == t'' <==> t.seed % 2147483647 != 0
  {
    RegisterAddsOne(t, interval, expire, hasCallback);
    ReusedSlotChangesId(t, interval, expire, hasCallback);
    var t' := Undone(t, interval, expire, hasCallback);
    var t'' := Register(t', next.interval, next.expire, next.hasCallback);
    assert NewId(t) in t''.timers <==> NewId(t) == NewId(t');
  }
}
