// The fixed pool of src/common/frame/shm_pool.h. Units 1 .. total hold a T by
// value; a pointer to a unit is its index, and 0 stands for NULL.
module ShmPools {
  import opened Wrappers
  import opened FreeChains

  // A free unit's pos leads to the next free one, an allocated unit's pos is
  // its own index.
  ghost predicate PoolSound(head: int, free: seq<int>, links: seq<int>) {
    && |links| >= 1 && links[0] < 0
    && Chain(head, free, links)
    && forall i | 1 <= i < |links| && i !in free :: links[i] == i
  }

  lemma FreeLink(head: int, free: seq<int>, links: seq<int>, i: int)
    requires PoolSound(head, free, links) && 0 <= i < |links|
    ensures links[i] == i > 0 <==> i > 0 && i !in free
    ensures links[i] > 0 <==> i > 0 && i !in free
  {
    if i in free {
      var k :| 0 <= k < |free| && free[k] == i;
      if k + 1 < |free| {
        assert links[free[k]] == -free[k + 1];
      }
    }
  }

  lemma PoolInit(links: seq<int>)
    requires |links| >= 1 && forall i | 0 <= i < |links| :: links[i] == -(i + 1)
    ensures PoolSound(1, Range(1, |links|), links)
  {
    ChainInit(links);
    forall i ensures i in Range(1, |links|) <==> 1 <= i < |links| {
      InRange(1, |links|, i);
    }
  }

  lemma HeadOnlyOnce(free: seq<int>)
    requires free != [] && Distinct(free)
    ensures free[0] !in free[1..]
  {
  }

  lemma PoolPop(head: int, free: seq<int>, links: seq<int>)
    requires PoolSound(head, free, links) && free != []
    ensures head == free[0] && 1 <= head < |links| && head !in free[1..]
    ensures PoolSound(-links[head], free[1..], links[head := head])
  {
  }

  lemma PoolPush(head: int, free: seq<int>, links: seq<int>, unit: int)
    requires PoolSound(head, free, links) && 1 <= unit < |links| && unit !in free
    ensures PoolSound(unit, [unit] + free, links[unit := -head])
  {
  }

  // ----- the control block -----

  datatype Control = Control(freeMemPos: int, validUnitCount: int, pos: seq<int>)

  function Taken(c: Control): Control
    requires 0 <= c.freeMemPos < |c.pos|
  {
    Control(-c.pos[c.freeMemPos], c.validUnitCount - 1, c.pos[c.freeMemPos := c.freeMemPos])
  }

  function Given(c: Control, unit: int): Control
    requires 0 <= unit < |c.pos|
  {
    Control(unit, c.validUnitCount + 1, c.pos[unit := -c.freeMemPos])
  }

  // Giving back the unit just taken restores the control block exactly.
  lemma GivenRestoresTaken(c: Control, free: seq<int>)
    requires PoolSound(c.freeMemPos, free, c.pos) && free != []
    ensures 0 <= c.freeMemPos < |c.pos| && Given(Taken(c), c.freeMemPos) == c
  {
  }

  // ----- what the units hold -----

  predicate InUse<T>(units: map<int, T>, i: int) {
    i in units
  }

  // units are the cells that are not free.
  ghost predicate Holds<T>(units: map<int, T>, free: seq<int>, cells: seq<T>) {
    forall i {:trigger InUse(units, i)} ::
      && (InUse(units, i) <==> 1 <= i < |cells| && i !in free)
      && (InUse(units, i) ==> units[i] == cells[i])
  }

  lemma HoldsPop<T>(units: map<int, T>, free: seq<int>, cells: seq<T>)
    requires Holds(units, free, cells) && free != [] && Distinct(free) && 1 <= free[0] < |cells|
    ensures Holds(units[free[0] := cells[free[0]]], free[1..], cells)
  {
    var units' := units[free[0] := cells[free[0]]];
    HeadOnlyOnce(free);
    assert free == [free[0]] + free[1..];
    forall i ensures (InUse(units', i) <==> 1 <= i < |cells| && i !in free[1..])
                     && (InUse(units', i) ==> units'[i] == cells[i]) {
      assert InUse(units', i) <==> InUse(units, i) || i == free[0];
    }
  }

  lemma HoldsPush<T>(units: map<int, T>, free: seq<int>, cells: seq<T>, unit: int)
    requires Holds(units, free, cells) && InUse(units, unit)
    ensures Holds(units - {unit}, [unit] + free, cells)
  {
    var units' := units - {unit};
    forall i ensures (InUse(units', i) <==> 1 <= i < |cells| && i !in [unit] + free)
                     && (InUse(units', i) ==> units'[i] == cells[i]) {
      assert InUse(units', i) <==> InUse(units, i) && i != unit;
    }
  }

  lemma HoldsWrite<T>(units: map<int, T>, free: seq<int>, cells: seq<T>, unit: int, value: T)
    requires Holds(units, free, cells) && InUse(units, unit)
    ensures 1 <= unit < |cells| && Holds(units[unit := value], free, cells[unit := value])
  {
    var units' := units[unit := value];
    forall i ensures (InUse(units', i) <==> 1 <= i < |cells| && i !in free)
                     && (InUse(units', i) ==> units'[i] == cells[unit := value][i]) {
      assert InUse(units', i) <==> InUse(units, i);
    }
  }

  lemma Overwritten<T>(m: map<int, T>, k: int, first: T, second: T)
    ensures m[k := first][k := second] == m[k := second]
  {
  }

  lemma TakenBack<T>(m: map<int, T>, k: int, value: T)
    requires k !in m
    ensures m[k := value] - {k} == m
  {
  }

  // ----- counting -----

  ghost function Elements(s: seq<int>): set<int> {
    set k | 0 <= k < |s| :: s[k]
  }

  lemma {:induction false} ElementCount(s: seq<int>)
    requires Distinct(s)
    ensures |Elements(s)| == |s|
    decreases |s|
  {
    if s != [] {
      var init := s[..|s| - 1];
      ElementCount(init);
      assert Elements(s) == Elements(init) + {s[|s| - 1]};
    }
  }

  lemma {:induction false} SubsetCount(a: set<int>, b: set<int>)
    requires a <= b
    ensures |a| <= |b|
    decreases a
  {
    if x :| x in a {
      SubsetCount(a - {x}, b - {x});
    } else {
      assert forall x :: x !in a;
    }
  }

  // No more slots can be free than there are, and if that many are, all are.
  lemma FreeCount(size: int, free: seq<int>)
    requires size >= 1 && Distinct(free) && forall k | 0 <= k < |free| :: 1 <= free[k] < size
    ensures |free| <= size - 1
    ensures |free| == size - 1 ==> forall i | 1 <= i < size :: i in free
  {
    var all := Range(1, size);
    ElementCount(all);
    ElementCount(free);
    forall i ensures i in Elements(all) <==> 1 <= i < size {
      InRange(1, size, i);
    }
    SubsetCount(Elements(free), Elements(all));
    if i :| 1 <= i < size && i !in free {
      SubsetCount(Elements(free) + {i}, Elements(all));
    }
  }

  class ShmPool<T(0)> {
    var freeMemPos: int
    var validUnitCount: int
    var totalUnitCount: nat
    var pos: array<int>
    var mem: array<T>
    ghost var free: seq<int>       // the free units, next one first
    ghost var units: map<int, T>   // what the allocated units hold

    ghost predicate Valid()
      reads this, pos, mem
    {
      && mem as object != pos
      && pos.Length == mem.Length == totalUnitCount + 1
      && |free| == validUnitCount
      && PoolSound(freeMemPos, free, pos[..])
      && Holds(units, free, mem[..])
    }

    ghost function Ctrl(): Control
      reads this, pos
    {
      Control(freeMemPos, validUnitCount, pos[..])
    }

    predicate InPool(index: int)
      reads `totalUnitCount
    {
      1 <= index <= totalUnitCount
    }

    ghost predicate Allocated(index: int)
      reads `units
    {
      InUse(units, index)
    }

    constructor (unitCount: nat)
      ensures Valid() && fresh(pos) && fresh(mem)
      ensures totalUnitCount == unitCount && free == Range(1, unitCount + 1) && units == map[]
    {
      freeMemPos := 1;
      validUnitCount, totalUnitCount := unitCount, unitCount;
      pos := new int[unitCount + 1];
      mem := new T[unitCount + 1];
      free, units := Range(1, unitCount + 1), map[];
      new;
      for i: int := 0 to unitCount + 1
        invariant forall k | 0 <= k < i :: pos[k] == -(k + 1)
        modifies pos
      {
        pos[i] := -(i + 1);
      }
      PoolInit(pos[..]);
      forall i ensures i in free <==> 1 <= i <= unitCount {
        InRange(1, unitCount + 1, i);
      }
    }

    method PopFreePos() returns (freePos: int)
      requires Valid() && free != []
      modifies `freeMemPos, `free, pos
      ensures mem as object != pos && pos.Length == mem.Length == totalUnitCount + 1
      ensures PoolSound(freeMemPos, free, pos[..])
      ensures freePos == old(free)[0] == old(freeMemPos) && free == old(free)[1..]
      ensures InPool(freePos) && freePos !in free
      ensures freeMemPos == -old(pos[..])[freePos] && pos[..] == old(pos[..])[freePos := freePos]
    {
      ghost var links := pos[..];
      PoolPop(freeMemPos, free, links);
      freePos := freeMemPos;
      freeMemPos := -pos[freePos];
      pos[freePos] := freePos;
      free := free[1..];
      assert pos[..] == links[freePos := freePos];
    }

    method PushFreePos(freePos: int)
      requires Valid() && Allocated(freePos)
      modifies `freeMemPos, `free, pos
      ensures mem as object != pos && pos.Length == mem.Length == totalUnitCount + 1
      ensures PoolSound(freeMemPos, free, pos[..])
      ensures free == [freePos] + old(free)
      ensures freeMemPos == freePos && pos[..] == old(pos[..])[freePos := -old(freeMemPos)]
    {
      ghost var links := pos[..];
      PoolPush(freeMemPos, free, links, freePos);
      pos[freePos] := -freeMemPos;
      freeMemPos := freePos;
      free := [freePos] + free;
      assert pos[..] == links[freePos := -old(freeMemPos)];
    }

    method TakeUnit() returns (unit: int)
      requires Valid() && free != []
      modifies `freeMemPos, `validUnitCount, `free, `units, pos
      ensures Valid()
      ensures unit == old(free)[0] == old(freeMemPos) && free == old(free)[1..]
      ensures units == old(units)[unit := mem[unit]] && Ctrl() == Taken(old(Ctrl()))
    {
      HoldsPop(units, free, mem[..]);
      unit := PopFreePos();
      validUnitCount := validUnitCount - 1;
      units := units[unit := mem[unit]];
    }

    // NULL exactly when every unit is taken.
    method Alloc() returns (unit: int)
      requires Valid()
      modifies `freeMemPos, `validUnitCount, `free, `units, pos
      ensures Valid()
      ensures unit == 0 <==> old(free) == []
      ensures unit == 0 ==> units == old(units) && free == old(free) && Ctrl() == old(Ctrl())
      ensures unit != 0 ==>
                && unit == old(free)[0] == old(freeMemPos) && free == old(free)[1..]
                && Ctrl() == Taken(old(Ctrl())) && units == old(units)[unit := mem[unit]]
    {
      if validUnitCount > 0 {
        unit := TakeUnit();
        return;
      }
      return 0;
    }

    // Writes to the unit through its pointer.
    method Write(unit: int, value: T)
      requires Valid() && Allocated(unit)
      modifies `units, mem
      ensures Valid() && units == old(units)[unit := value]
    {
      ghost var cells := mem[..];
      HoldsWrite(units, free, cells, unit, value);
      mem[unit] := value;
      assert mem[..] == cells[unit := value];
      units := units[unit := value];
    }

    // Alloc and the initialisation of the new unit, if there is one.
    method AllocInit(value: T) returns (unit: int)
      requires Valid()
      modifies `freeMemPos, `validUnitCount, `free, `units, pos, mem
      ensures Valid()
      ensures unit == if old(free) == [] then 0 else old(free)[0]
      ensures unit == 0 ==> old(free) == [] && free == old(free) && units == old(units)
      ensures unit != 0 ==> old(free) != [] && free == old(free)[1..] && units == old(units)[unit := value]
    {
      unit := Alloc();
      if unit != 0 {
        Overwritten(old(units), unit, mem[unit], value);
        Write(unit, value);
      }
    }

    method Read(unit: int) returns (value: T)
      requires Valid() && Allocated(unit)
      ensures unit in units && value == units[unit]
    {
      return mem[unit];
    }

    method Find(index: int) returns (unit: int)
      requires Valid()
      ensures unit == if Allocated(index) then index else 0
    {
      if index <= 0 || index > totalUnitCount {
        return 0;
      }
      FreeLink(freeMemPos, free, pos[..], index);
      if pos[index] != index {
        return 0;
      }
      return index;
    }

    // False where a CHECK ends the process; both CHECKs together refuse every
    // unit that is not allocated, so no unit is released twice.
    method Release(unit: nat) returns (ok: bool)
      requires Valid() && unit <= totalUnitCount
      modifies `freeMemPos, `validUnitCount, `free, `units, pos
      ensures Valid()
      ensures ok <==> old(Allocated(unit))
      ensures !ok ==> units == old(units) && free == old(free) && Ctrl() == old(Ctrl())
      ensures ok ==>
                && free == [unit] + old(free) && units == old(units) - {unit}
                && Ctrl() == Given(old(Ctrl()), unit)
    {
      FreeCount(totalUnitCount + 1, free);
      FreeLink(freeMemPos, free, pos[..], unit);
      if !(totalUnitCount > validUnitCount) {
        return false;
      }
      if !(pos[unit] > 0) {
        return false;
      }
      HoldsPush(units, free, mem[..], unit);
      PushFreePos(pos[unit]);
      validUnitCount := validUnitCount + 1;
      units := units - {unit};
      return true;
    }

    // Allocating and releasing leaves no trace.
    method AllocAndRelease() returns (unit: int)
      requires Valid() && free != []
      modifies `freeMemPos, `validUnitCount, `free, `units, pos
      ensures Valid() && unit == old(free)[0]
      ensures Ctrl() == old(Ctrl()) && free == old(free) && units == old(units)
    {
      GivenRestoresTaken(Ctrl(), free);
      NextIsFree();
      ghost var us, fs, value := units, free, mem[free[0]];
      TakenBack(us, fs[0], value);
      assert [fs[0]] + fs[1..] == fs;
      unit := Alloc();
      assert Allocated(unit);
      var ok := Release(unit);
    }

    lemma NextIsFree()
      requires Valid() && free != []
      ensures 1 <= free[0] <= totalUnitCount && free[0] !in units
    {
      assert !InUse(units, free[0]);
    }

    // None where a CHECK ends the process.
    method GetPos(unit: nat) returns (index: Option<int>)
      requires Valid() && unit <= totalUnitCount
      ensures index == if Allocated(unit) then Some(unit) else None
    {
      FreeLink(freeMemPos, free, pos[..], unit);
      if !(pos[unit] > 0) {
        return None;
      }
      return Some(pos[unit]);
    }

    // Visits the allocated units, each once, in the order of their indices.
    method TravelPool() returns (visited: seq<int>)
      requires Valid()
      ensures forall i :: i in visited <==> Allocated(i)
      ensures forall j, k | 0 <= j < k < |visited| :: visited[j] < visited[k]
    {
      visited := [];
      for i := 1 to totalUnitCount + 1
        invariant forall j :: j in visited <==> j < i && Allocated(j)
        invariant forall j, k | 0 <= j < k < |visited| :: visited[j] < visited[k]
      {
        FreeLink(freeMemPos, free, pos[..], i);
        if pos[i] > 0 {
          forall j | 0 <= j < |visited| ensures visited[j] < i {
            assert visited[j] in visited;
          }
          visited := visited + [i];
        }
      }
    }
  }
}
