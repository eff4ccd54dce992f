// The indexed timer heap of src/common/frame/heap_timer.{h,cpp}: a binary heap
// of node references, an array from slots to heap positions through which the
// free slots are chained by negative links, and a stamp for each slot.
module HeapTimers {
  import opened FreeChains
  import opened TimeValues
  import opened Randoms
  import opened TimerTables
  import opened TimerSlots
  import opened TimerBooks
  import opened HeapOrder
  import opened TimerPolling
  import opened Wrappers

  // Whether looking up an id stays within the arrays.
  datatype Lookup = InBounds | OutOfBounds

  class TimerNode {
    var timerId: int
    var expireTime: TimeValue
    var intervalTime: TimeValue
    var hasCallback: bool

    constructor (id: int, interval: TimeValue, expire: TimeValue, callback: bool)
      ensures timerId == id && intervalTime == interval && expireTime == expire && hasCallback == callback
    {
      timerId, intervalTime, expireTime, hasCallback := id, interval, expire, callback;
    }

    ghost function View(): Timer
      reads this
    {
      Timer(Us(expireTime), Us(intervalTime), hasCallback)
    }
  }

  // Chains the slots lo .. hi-1, each to the next.
  method LinkSlots(links: array<int>, lo: nat, hi: nat)
    requires lo <= hi <= links.Length
    modifies links
    ensures forall i | lo <= i < hi :: links[i] == -(i + 1)
    ensures links[..lo] == old(links[..lo])
  {
    for i: int := lo to hi
      invariant forall k | lo <= k < i :: links[k] == -(k + 1)
      invariant forall k | 0 <= k < lo :: links[k] == old(links[k])
    {
      links[i] := -(i + 1);
    }
  }

  method ZeroStamps(stamps: array<int>, lo: nat, hi: nat)
    requires lo <= hi <= stamps.Length
    modifies stamps
    ensures forall i | lo <= i < hi :: stamps[i] == 0
    ensures stamps[..lo] == old(stamps[..lo])
  {
    for i: int := lo to hi
      invariant forall k | lo <= k < i :: stamps[k] == 0
      invariant forall k | 0 <= k < lo :: stamps[k] == old(stamps[k])
    {
      stamps[i] := 0;
    }
  }

  // A larger array that begins with the elements of a.
  method Enlarged<T(0)>(a: array<T>, newSize: nat) returns (b: array<T>)
    requires a.Length <= newSize
    ensures fresh(b) && b.Length == newSize
    ensures b[..a.Length] == a[..]
  {
    b := new T[newSize];
    forall i | 0 <= i < a.Length { b[i] := a[i]; }
  }

  method EnlargedLinks(links: array<int>, newSize: nat) returns (b: array<int>)
    requires links.Length <= newSize
    ensures fresh(b) && b.Length == newSize
    ensures b[..links.Length] == links[..]
    ensures forall i | links.Length <= i < newSize :: b[i] == -(i + 1)
  {
    b := Enlarged(links, newSize);
    LinkSlots(b, links.Length, newSize);
  }

  method EnlargedStamps(stamps: array<int>, newSize: nat) returns (b: array<int>)
    requires stamps.Length <= newSize
    ensures fresh(b) && b.Length == newSize
    ensures b[..stamps.Length] == stamps[..]
  {
    b := Enlarged(stamps, newSize);
    ZeroStamps(b, stamps.Length, newSize);
  }

  class HeapTimer {
    var heapSize: nat
    var curSize: nat
    var heap: array<TimerNode?>
    var index: array<int>
    var rands: array<int>
    var freeHead: int
    var randMaker: Random

    ghost var book: Book<TimerNode>

    // ----- invariant -----

    ghost predicate Shape()
      reads `heapSize, `heap, `index, `rands, `randMaker
    {
      && index != rands && heap as object != index && heap as object != rands
      && randMaker as object != heap && randMaker as object != index && randMaker as object != rands
      && this as object != heap && this as object != index && this as object != rands && this as object != randMaker
      && 2 <= heapSize < 0x8000_0000
      && heap.Length == heapSize && index.Length == heapSize && rands.Length == heapSize
    }

    ghost predicate Nodes(used: map<int, TimerNode>, entries: map<int, Entry>)
      reads used.Values
    {
      && used.Keys == entries.Keys
      && forall s {:trigger used[s]} | s in used ::
           used[s].timerId == entries[s].id && used[s].View() == entries[s].timer
    }

    // The invariant while one slot has been taken from the chain but has no
    // node in the heap yet; slot 0 stands for none.
    ghost predicate ValidBut(pending: int)
      reads this, heap, index, rands, book.used.Values
    {
      && Shape()
      && Nodes(book.used, book.entries)
      && curSize == |book.order|
      && Sound(book, pending, freeHead, heap[..], index[..], rands[..])
    }

    ghost predicate Valid()
      reads this, heap, index, rands, book.used.Values
    {
      ValidBut(0)
    }

    ghost function Table(): TimerTable
      reads this, randMaker
    {
      TimerTable(book.timers, book.free, heapSize, randMaker.seed)
    }

    lemma ValidTable()
      requires Valid()
      ensures WellFormed(Table()) && curSize == |Table().timers|
    {
      SoundIsWellFormed(book, freeHead, heap[..], index[..], rands[..], randMaker.seed);
    }

    lemma SlotLeft()
      requires Valid()
      ensures Table().free != []
    {
      SoundPop(book, freeHead, heap[..], index[..], rands[..], 0);
    }

    // The seed is the clock's, since the generator is made with seed 0. With a
    // size of 0 the first slot to be taken is past the end of the arrays.
    constructor (initialSize: nat, clock: Int32)
      requires initialSize < 0x7fff_ffff
      ensures fresh(heap) && fresh(index) && fresh(rands) && fresh(randMaker)
      ensures Table() == Initial(initialSize, clock)
      ensures Valid() <==> initialSize >= 1
      ensures freeHead < index.Length <==> initialSize >= 1
    {
      heapSize := initialSize + 1;
      curSize := 0;
      freeHead := 1;
      heap := new TimerNode?[initialSize + 1];
      index := new int[initialSize + 1];
      rands := new int[initialSize + 1];
      var maker := new Random(0, clock);
      randMaker := maker;
      book := Book(map[], map[], map[], [], map[], Range(1, initialSize + 1), map[]);
      new;
      LinkSlots(index, 0, heapSize);
      ZeroStamps(rands, 0, heapSize);
      if initialSize >= 1 {
        SoundInitially(book, heap[..], index[..], rands[..]);
      }
    }

    // ----- sifting -----

    // The node of one slot of b is on its way to the hole; b's other nodes
    // stand where ord says.
    ghost predicate Sifting(b: Book<TimerNode>, moveNode: TimerNode, ord: seq<int>, pl: map<int, int>, hole: nat)
      reads `heapSize, `heap, `index, `rands, `randMaker, heap, index, b.used.Values, moveNode
    {
      && Shape()
      && Nodes(b.used, b.entries)
      && Slotted(b.entries, b.keys, heapSize)
      && InArrays(b.used, ord, pl, heap[..], index[..], hole)
      && Keyed(ord, b.keys)
      && hole < |ord| && ord[hole] == SlotOf(moveNode.timerId)
      && ord[hole] in b.used && b.used[ord[hole]] == moveNode
    }

    // Moves the node at from into the hole, which leaves the hole at from.
    method MoveNode(hole: nat, from: nat, ghost b: Book<TimerNode>, ghost moveNode: TimerNode,
                    ghost ord: seq<int>, ghost pl: map<int, int>)
      returns (ghost pl': map<int, int>)
      requires Sifting(b, moveNode, ord, pl, hole) && from < |ord| && hole != from
      modifies heap, index
      ensures Sifting(b, moveNode, Swap(ord, hole, from), pl', from)
      ensures SameOutside(old(index[..]), index[..], b.used.Keys)
    {
      ghost var hs, ix, slot := heap[..], index[..], ord[from];
      MoveInArrays(b.used, ord, pl, hs, ix, hole, from);
      ghost var e := At(b.entries, slot);
      heap[hole] := heap[from];
      var nodeIndex := SlotOf(heap[from].timerId);
      index[nodeIndex] := hole;
      pl' := SwapPlace(ord, pl, hole, from);
      assert heap[..] == hs[hole := hs[from]] && index[..] == ix[slot := hole];
    }

    // Puts the node that was on its way into the hole.
    method PlaceNode(moveNode: TimerNode, hole: nat, ghost b: Book<TimerNode>,
                     ghost ord: seq<int>, ghost pl: map<int, int>)
      requires Sifting(b, moveNode, ord, pl, hole)
      modifies heap, index
      ensures InArrays(b.used, ord, pl, heap[..], index[..], -1)
      ensures SameOutside(old(index[..]), index[..], b.used.Keys)
    {
      ghost var hs, ix, slot := heap[..], index[..], ord[hole];
      PlaceInArrays(b.used, ord, pl, hs, ix, hole);
      heap[hole] := moveNode;
      var nodeIndex := SlotOf(moveNode.timerId);
      index[nodeIndex] := hole;
      assert heap[..] == hs[hole := b.used[slot]] && index[..] == ix[slot := hole];
    }

    // The key of a slot is the expiry time of the node at its position.
    lemma KeyAt(b: Book<TimerNode>, moveNode: TimerNode, ord: seq<int>, pl: map<int, int>, hole: nat, pos: nat)
      requires Sifting(b, moveNode, ord, pl, hole) && pos < |ord| && pos != hole
      ensures heap[pos] != null && b.keys[ord[pos]] == Us(heap[pos].expireTime)
      ensures b.keys[ord[hole]] == Us(moveNode.expireTime)
    {
      var slot := Nth(ord, pos);
      var e := At(b.entries, slot);
      assert heap[pos] == b.used[slot];
      var slot' := ord[hole];
      var e' := At(b.entries, slot');
    }

    method RotateUp(moveNode: TimerNode, pos0: nat, parentPos0: nat,
                    ghost b: Book<TimerNode>, ghost ord0: seq<int>, ghost pl0: map<int, int>)
      returns (ghost ord: seq<int>, ghost pl: map<int, int>)
      requires Sifting(b, moveNode, ord0, pl0, pos0) && OrderedButUp(ord0, b.keys, pos0)
      requires parentPos0 == GetParentPos(pos0)
      modifies heap, index
      ensures InArrays(b.used, ord, pl, heap[..], index[..], -1)
      ensures |ord| == |ord0| && Keyed(ord, b.keys) && HeapOrdered(ord, b.keys)
      ensures SameOutside(old(index[..]), index[..], b.used.Keys)
    {
      var pos: nat, parentPos: nat := pos0, parentPos0;
      ord, pl := ord0, pl0;
      while pos > 0
        invariant Sifting(b, moveNode, ord, pl, pos) && OrderedButUp(ord, b.keys, pos)
        invariant |ord| == |ord0| && parentPos == GetParentPos(pos)
        invariant SameOutside(old(index[..]), index[..], b.used.Keys)
      {
        KeyAt(b, moveNode, ord, pl, pos, parentPos);
        if !Gte(moveNode.expireTime, heap[parentPos].expireTime) {
          UpStep(ord, b.keys, pos);
          pl := MoveNode(pos, parentPos, b, moveNode, ord, pl);
          ord := Swap(ord, pos, parentPos);
          pos := parentPos;
          parentPos := GetParentPos(parentPos);
        } else {
          break;
        }
      }
      UpDone(ord, b.keys, pos);
      PlaceNode(moveNode, pos, b, ord, pl);
    }

    // The lesser child of pos, the right one on a tie.
    method MinChild(pos: nat, leftPos: nat, ghost b: Book<TimerNode>, ghost moveNode: TimerNode,
                    ghost ord: seq<int>, ghost pl: map<int, int>)
      returns (childPos: nat)
      requires Sifting(b, moveNode, ord, pl, pos)
      requires |ord| == curSize && leftPos == GetLeftChildPos(pos) < curSize
      ensures pos < childPos < curSize && GetParentPos(childPos) == pos
      ensures forall p: nat {:trigger GetParentPos(p)} | 0 < p < |ord| && GetParentPos(p) == pos ::
                b.keys[ord[childPos]] <= b.keys[ord[p]]
    {
      childPos := leftPos;
      KeyAt(b, moveNode, ord, pl, pos, leftPos);
      if childPos + 1 < curSize {
        KeyAt(b, moveNode, ord, pl, pos, leftPos + 1);
        if Gte(heap[childPos].expireTime, heap[childPos + 1].expireTime) {
          childPos := childPos + 1;
        }
      }
      forall p: nat {:trigger GetParentPos(p)} | 0 < p < |ord| && GetParentPos(p) == pos
        ensures b.keys[ord[childPos]] <= b.keys[ord[p]]
      {
        ChildrenOf(pos, p);
      }
    }

    method RotateDown(moveNode: TimerNode, pos0: nat, childPos0: nat,
                      ghost b: Book<TimerNode>, ghost ord0: seq<int>, ghost pl0: map<int, int>)
      returns (ghost ord: seq<int>, ghost pl: map<int, int>)
      requires Sifting(b, moveNode, ord0, pl0, pos0) && OrderedButDown(ord0, b.keys, pos0)
      requires |ord0| == curSize && childPos0 == GetLeftChildPos(pos0)
      modifies heap, index
      ensures InArrays(b.used, ord, pl, heap[..], index[..], -1)
      ensures |ord| == |ord0| && Keyed(ord, b.keys) && HeapOrdered(ord, b.keys)
      ensures SameOutside(old(index[..]), index[..], b.used.Keys)
    {
      var pos: nat, childPos: nat := pos0, childPos0;
      ord, pl := ord0, pl0;
      while childPos < curSize
        invariant Sifting(b, moveNode, ord, pl, pos) && OrderedButDown(ord, b.keys, pos)
        invariant |ord| == |ord0| && childPos == GetLeftChildPos(pos)
        invariant SameOutside(old(index[..]), index[..], b.used.Keys)
        decreases curSize - pos
      {
        childPos := MinChild(pos, childPos, b, moveNode, ord, pl);
        KeyAt(b, moveNode, ord, pl, pos, childPos);
        if Gte(moveNode.expireTime, heap[childPos].expireTime) {
          DownStep(ord, b.keys, pos, childPos);
          pl := MoveNode(pos, childPos, b, moveNode, ord, pl);
          ord := Swap(ord, pos, childPos);
          pos := childPos;
          childPos := GetLeftChildPos(pos);
        } else {
          break;
        }
      }
      forall p: nat {:trigger GetParentPos(p)} | 0 < p < |ord| && GetParentPos(p) == pos
        ensures b.keys[ord[pos]] <= b.keys[ord[p]]
      {
        ChildrenOf(pos, p);
      }
      DownDone(ord, b.keys, pos);
      PlaceNode(moveNode, pos, b, ord, pl);
    }

    // ----- the free chain -----

    method PopFreeTimerId() returns (id: int)
      requires Valid()
      modifies `freeHead, `book, rands, randMaker
      ensures ValidBut(SlotOf(id)) && 1 <= SlotOf(id)
      ensures old(book.free) != [] && book == old(book).(free := old(book.free)[1..])
      ensures randMaker.seed == Next(old(randMaker.seed))
      ensures id == MakeId(old(book.free)[0], randMaker.seed)
      ensures StampOf(id) == rands[SlotOf(id)] >= 0
    {
      ghost var stamps := rands[..];
      var timerNodeIndex := freeHead;
      SoundPop(book, freeHead, heap[..], index[..], stamps, Next(randMaker.seed));
      freeHead := -index[freeHead];
      var randNum := randMaker.GetRand();
      rands[timerNodeIndex] := randNum;
      assert rands[..] == stamps[timerNodeIndex := randNum];
      book := book.(free := book.free[1..]);
      id := MakeId(timerNodeIndex, randNum);
    }

    // Doubles the arrays. The old end marker of the free chain is the first
    // slot that is added, so the chain runs on into the new slots.
    method GrowHeap(ghost pending: int)
      requires Shape() && Sound(book, pending, freeHead, heap[..], index[..], rands[..]) && heapSize < 0x4000_0000
      modifies `heapSize, `heap, `index, `rands, `book
      ensures Shape() && Sound(book, pending, freeHead, heap[..], index[..], rands[..])
      ensures fresh(heap) && fresh(index) && fresh(rands) && heapSize == 2 * old(heapSize)
      ensures book == old(book).(free := old(book.free) + Range(old(heapSize), heapSize))
      ensures rands[..old(heapSize)] == old(rands[..])
    {
      var newSize := 2 * heapSize;
      var newHeap := Enlarged(heap, newSize);
      var newIndex := EnlargedLinks(index, newSize);
      var newRands := EnlargedStamps(rands, newSize);
      ghost var hs, ix, stamps := newHeap[..], newIndex[..], newRands[..];
      SoundGrow(book, pending, freeHead, heap[..], index[..], rands[..], hs, ix, stamps);
      book := book.(free := book.free + Range(heapSize, newSize));
      heap, index, rands := newHeap, newIndex, newRands;
      heapSize := newSize;
      assert heap[..] == hs && index[..] == ix && rands[..] == stamps;
    }

    // ----- registering -----

    twostate predicate KeptOrFresh()
      reads this
    {
      || (heap == old(heap) && index == old(index) && rands == old(rands))
      || (fresh(heap) && fresh(index) && fresh(rands))
    }

    // Sifts the node of the pending slot up from the end of the heap.
    method Insert(newNode: TimerNode, ghost slot: int) returns (ghost ord: seq<int>, ghost pl: map<int, int>)
      requires ValidBut(slot) && 1 <= slot && curSize + 2 < heapSize
      requires SlotOf(newNode.timerId) == slot && StampOf(newNode.timerId) == rands[slot] >= 0
      modifies heap, index
      ensures var b := Inserted(book, slot, newNode, Entry(newNode.timerId, newNode.View()), ord, pl);
              && Nodes(b.used, b.entries) && |ord| == |book.order| + 1
              && Sound(b, 0, freeHead, heap[..], index[..], rands[..])
    {
      ghost var hs, ix, stamps := heap[..], index[..], rands[..];
      ghost var e := Entry(newNode.timerId, newNode.View());
      BeforeInsert(book, slot, freeHead, hs, ix, stamps, newNode, e);
      ghost var order0, place0 := book.order + [slot], book.place[slot := |book.order|];
      ghost var target := Inserted(book, slot, newNode, e, order0, place0);
      assert Sifting(target, newNode, order0, place0, curSize);
      ord, pl := RotateUp(newNode, curSize, GetParentPos(curSize), target, order0, place0);
      assert rands[..] == stamps;
      AfterInsert(book, slot, freeHead, hs, ix, stamps, newNode, e, ord, pl, heap[..], index[..]);
    }

    // Makes b, which the arrays already follow, the book.
    method Commit(ghost b: Book<TimerNode>)
      requires Shape() && Nodes(b.used, b.entries) && curSize == |b.order|
      requires Sound(b, 0, freeHead, heap[..], index[..], rands[..])
      modifies `book
      ensures Valid() && book == b
    {
      book := b;
    }

    // Takes a slot for a new node and makes room for one more.
    method NewNode(interval: TimeValue, expire: TimeValue, hasCallback: bool) returns (newNode: TimerNode)
      requires Valid()
      requires curSize + 2 < heapSize || heapSize < 0x4000_0000
      modifies `heapSize, `heap, `index, `rands, `freeHead, `book, rands, randMaker
      ensures ValidBut(SlotOf(newNode.timerId)) && 1 <= SlotOf(newNode.timerId) && curSize + 2 < heapSize
      ensures StampOf(newNode.timerId) == rands[SlotOf(newNode.timerId)] >= 0
      ensures fresh(newNode) && newNode.View() == Timer(Us(expire), Us(interval), hasCallback)
      ensures KeptOrFresh()
      ensures old(Table()).free != [] && newNode.timerId == NewId(old(Table()))
      ensures randMaker.seed == Next(old(randMaker.seed)) && heapSize == GrownSize(old(Table()))
      ensures book.timers == old(book.timers)
      ensures book.free == old(book.free)[1..] + Range(old(heapSize), heapSize)
    {
      var id := PopFreeTimerId();
      newNode := new TimerNode(id, interval, expire, hasCallback);
      if curSize + 2 < heapSize {
        return;
      }
      GrowHeap(SlotOf(id));
    }

    method PushNode(newNode: TimerNode, ghost slot: int)
      requires ValidBut(slot) && 1 <= slot && curSize + 2 < heapSize
      requires SlotOf(newNode.timerId) == slot && StampOf(newNode.timerId) == rands[slot] >= 0
      modifies `curSize, `book, heap, index
      ensures Valid()
      ensures book.timers == old(book.timers)[newNode.timerId := newNode.View()] && book.free == old(book.free)
      ensures randMaker.seed == old(randMaker.seed)
    {
      ghost var ord, pl := Insert(newNode, slot);
      curSize := curSize + 1;
      Commit(Inserted(book, slot, newNode, Entry(newNode.timerId, newNode.View()), ord, pl));
    }

    method AddTimer(interval: TimeValue, expire: TimeValue, hasCallback: bool) returns (id: int)
      requires Valid()
      requires curSize + 2 < heapSize || heapSize < 0x4000_0000
      modifies `heapSize, `curSize, `heap, `index, `rands, `freeHead, `book, heap, index, rands, randMaker
      ensures Valid() && KeptOrFresh()
      ensures old(Table()).free != [] && id == NewId(old(Table()))
      ensures randMaker.seed == Next(old(randMaker.seed)) && heapSize == GrownSize(old(Table()))
      ensures book.timers == old(book.timers)[id := Timer(Us(expire), Us(interval), hasCallback)]
      ensures book.free == old(book.free)[1..] + Range(old(heapSize), heapSize)
    {
      var newNode := NewNode(interval, expire, hasCallback);
      id := newNode.timerId;
      PushNode(newNode, SlotOf(id));
    }

    method RegisterTimer(interval: TimeValue, delay: TimeValue, hasCallback: bool, clock: int) returns (id: int)
      requires Valid()
      requires IsZero(interval) || curSize + 2 < heapSize || heapSize < 0x4000_0000
      modifies `heapSize, `curSize, `heap, `index, `rands, `freeHead, `book, heap, index, rands, randMaker
      ensures Valid() && KeptOrFresh()
      ensures old(Table()).free != [] && id == if IsZero(interval) then -1 else NewId(old(Table()))
      ensures Table() == Register(old(Table()), Us(interval), clock * 1000000 + Us(delay), hasCallback)
    {
      SlotLeft();
      if IsZero(interval) {
        return -1;
      }
      if curSize >= heapSize {
        assert false;
        return -1;
      }
      var expire := ExpireTime(RawTime(clock, 0), delay);
      assert Us(expire) == clock * 1000000 + Us(delay);
      id := AddTimer(interval, expire, hasCallback);
    }

    // ----- removing -----

    // An id whose stamp is not the slot's is refused; no caller here has one.
    method PushFreeTimerId(oldTimerId: int)
      requires Shape() && 0 <= SlotOf(oldTimerId) < heapSize
      modifies `freeHead, index, rands
      ensures if old(rands[SlotOf(oldTimerId)]) == StampOf(oldTimerId) then
                && freeHead == SlotOf(oldTimerId)
                && index[..] == old(index[..])[SlotOf(oldTimerId) := -old(freeHead)]
                && rands[..] == old(rands[..])[SlotOf(oldTimerId) := 0]
              else
                freeHead == old(freeHead) && index[..] == old(index[..]) && rands[..] == old(rands[..])
    {
      var timerNodeIndex := SlotOf(oldTimerId);
      var randNum := StampOf(oldTimerId);
      var timerRand := rands[timerNodeIndex];
      if timerRand != randNum {
        return;
      }
      index[timerNodeIndex] := -freeHead;
      freeHead := timerNodeIndex;
      rands[timerNodeIndex] := 0;
    }

    lemma OtherNodes(slot: int)
      requires Valid() && slot in book.used
      ensures forall s | s in book.used && s != slot :: book.used[s] != book.used[slot]
    {
      forall s | s in book.used && s != slot ensures book.used[s] != book.used[slot] {
        SlotOfEntry(book, freeHead, heap[..], index[..], rands[..], s);
        SlotOfEntry(book, freeHead, heap[..], index[..], rands[..], slot);
      }
    }

    // Takes the node at pos out of its slot and gives the slot back.
    method Vacate(pos: nat) returns (delNode: TimerNode)
      requires Valid() && pos < curSize
      modifies `curSize, `freeHead, index, rands, book.used.Values`timerId
      ensures Shape() && delNode == old(heap[pos]) && delNode.timerId == -1
      ensures curSize == old(curSize) - 1 && heap[..] == old(heap[..])
      ensures var slot := book.order[pos];
              && slot in book.used && slot in book.entries && old(delNode.timerId) == book.entries[slot].id
              && 1 <= slot < heapSize && freeHead == slot
              && index[..] == old(index[..])[slot := -old(freeHead)]
              && rands[..] == old(rands[..])[slot := 0]
              && Nodes(book.used - {slot}, book.entries - {slot})
    {
      BeforeRemove(book, freeHead, heap[..], index[..], rands[..], pos);
      ghost var slot := book.order[pos];
      OtherNodes(slot);
      delNode := heap[pos];
      PushFreeTimerId(delNode.timerId);
      delNode.timerId := -1;
      curSize := curSize - 1;
    }

    // Writes the last node into the gap.
    method PutLast(pos: nat, ghost b: Book<TimerNode>, ghost ord: seq<int>, ghost pl: map<int, int>)
      returns (moveNode: TimerNode)
      requires Shape() && pos < curSize == |ord| < heapSize
      requires Nodes(b.used, b.entries) && Slotted(b.entries, b.keys, heapSize)
      requires InArrays(b.used, ord, pl, heap[..], index[..], pos) && Keyed(ord, b.keys)
      requires ord[pos] in b.used && heap[curSize] == b.used[ord[pos]]
      modifies heap, index
      ensures Sifting(b, moveNode, ord, pl, pos) && heap[pos] == moveNode
      ensures SameOutside(old(index[..]), index[..], b.used.Keys)
    {
      ghost var hs, ix, slot := heap[..], index[..], ord[pos];
      ghost var e := At(b.entries, slot);
      moveNode := heap[curSize];
      HoleIsFree(b.used, ord, pl, hs, ix, pos, moveNode, pos);
      heap[pos] := moveNode;
      var nodeIndex := SlotOf(moveNode.timerId);
      index[nodeIndex] := pos;
      assert heap[..] == hs[pos := moveNode] && index[..] == ix[slot := pos];
    }

    // Sifts the node in the gap in the one direction in which it can be out of
    // order.
    method Refill(pos: nat, ghost b: Book<TimerNode>, ghost ord0: seq<int>, ghost pl0: map<int, int>)
      returns (ghost ord: seq<int>, ghost pl: map<int, int>)
      requires Shape() && pos < curSize == |ord0| < heapSize
      requires Nodes(b.used, b.entries) && Slotted(b.entries, b.keys, heapSize)
      requires InArrays(b.used, ord0, pl0, heap[..], index[..], pos) && Keyed(ord0, b.keys)
      requires ord0[pos] in b.used && heap[curSize] == b.used[ord0[pos]]
      requires OrderedButAt(ord0, b.keys, pos)
      modifies heap, index
      ensures InArrays(b.used, ord, pl, heap[..], index[..], -1)
      ensures |ord| == |ord0| && Keyed(ord, b.keys) && HeapOrdered(ord, b.keys)
      ensures SameOutside(old(index[..]), index[..], b.used.Keys)
    {
      var moveNode := PutLast(pos, b, ord0, pl0);
      var parentPos := GetParentPos(pos);
      if pos > 0 {
        KeyAt(b, moveNode, ord0, pl0, pos, parentPos);
      }
      if Gte(moveNode.expireTime, heap[parentPos].expireTime) {
        ord, pl := RotateDown(moveNode, pos, GetLeftChildPos(pos), b, ord0, pl0);
      } else {
        ord, pl := RotateUp(moveNode, pos, parentPos, b, ord0, pl0);
      }
    }

    // One node has left the heap; the last one is to take its place.
    ghost predicate Gapped(b: Book<TimerNode>, ord: seq<int>, pl: map<int, int>, pos: nat)
      reads this, heap, index, b.used.Values
    {
      && Shape() && pos <= curSize == |ord| < heapSize
      && Nodes(b.used, b.entries) && Slotted(b.entries, b.keys, heapSize)
      && InArrays(b.used, ord, pl, heap[..], index[..], if pos == curSize then -1 else pos)
      && Keyed(ord, b.keys) && OrderedButAt(ord, b.keys, pos)
      && (pos < curSize ==> ord[pos] in b.used && heap[curSize] == b.used[ord[pos]])
    }

    lemma GapIsOpen(pos: nat, head: int, hs: seq<TimerNode?>, ix: seq<int>, stamps: seq<int>)
      requires Shape() && Sound(book, 0, head, hs, ix, stamps) && pos < |book.order| == curSize + 1
      requires book.order[pos] in book.entries && 0 <= book.order[pos] < |ix|
      requires Nodes(book.used - {book.order[pos]}, book.entries - {book.order[pos]})
      requires heap[..] == hs && index[..] == ix[book.order[pos] := -head]
      ensures var ord, pl := GapOrder(book.order, pos), GapPlace(book.order, book.place, pos);
              Gapped(Removed(book, book.order[pos], ord, pl), ord, pl, pos)
    {
      DuringRemove(book, head, hs, ix, stamps, pos);
      if pos < curSize {
        LastInGap(book, head, hs, ix, stamps, pos);
        assert heap[curSize] == hs[curSize];
      }
    }

    method CloseGap(pos: nat, ghost b: Book<TimerNode>, ghost ord0: seq<int>, ghost pl0: map<int, int>)
      returns (ghost ord: seq<int>, ghost pl: map<int, int>)
      requires Gapped(b, ord0, pl0, pos)
      modifies heap, index
      ensures Shape() && Nodes(b.used, b.entries)
      ensures rands[..] == old(rands[..])
      ensures InArrays(b.used, ord, pl, heap[..], index[..], -1)
      ensures |ord| == |ord0| && Keyed(ord, b.keys) && HeapOrdered(ord, b.keys)
      ensures SameOutside(old(index[..]), index[..], b.used.Keys)
    {
      ord, pl := ord0, pl0;
      if pos < curSize {
        ord, pl := Refill(pos, b, ord0, pl0);
      }
    }

    // Repairs the heap after Vacate; hs, ix, stamps and head are from before it.
    method FinishRemoval(pos: nat, ghost head: int,
                         ghost hs: seq<TimerNode?>, ghost ix: seq<int>, ghost stamps: seq<int>)
      returns (ghost ord: seq<int>, ghost pl: map<int, int>)
      requires Shape() && Sound(book, 0, head, hs, ix, stamps) && pos < |book.order| == curSize + 1
      requires book.order[pos] in book.entries && book.order[pos] in book.used && 1 <= book.order[pos] < |ix|
      requires Nodes(book.used - {book.order[pos]}, book.entries - {book.order[pos]})
      requires heap[..] == hs && index[..] == ix[book.order[pos] := -head]
      requires rands[..] == stamps[book.order[pos] := 0] && freeHead == book.order[pos]
      modifies heap, index
      ensures Shape() && curSize == |ord|
      ensures var b := Removed(book, book.order[pos], ord, pl);
              Nodes(b.used, b.entries) && Sound(b, 0, freeHead, heap[..], index[..], rands[..])
    {
      GapIsOpen(pos, head, hs, ix, stamps);
      ghost var slot := book.order[pos];
      ghost var order0, place0 := GapOrder(book.order, pos), GapPlace(book.order, book.place, pos);
      ord, pl := CloseGap(pos, Removed(book, slot, order0, place0), order0, place0);
      AfterRemove(book, head, hs, ix, stamps, pos, ord, pl, heap[..], index[..]);
    }

    // Everything but the bookkeeping of a removal.
    method RemoveAt(pos: nat) returns (delNode: TimerNode, ghost ord: seq<int>, ghost pl: map<int, int>)
      requires Valid() && pos < curSize
      modifies `curSize, `freeHead, heap, index, rands, book.used.Values`timerId
      ensures Shape() && delNode == old(heap[pos]) && delNode.timerId == -1
      ensures curSize == old(curSize) - 1 == |ord|
      ensures var slot := book.order[pos];
              && slot in book.entries && old(delNode.timerId) == book.entries[slot].id
              && var b := Removed(book, slot, ord, pl);
                 && Nodes(b.used, b.entries)
                 && Sound(b, 0, freeHead, heap[..], index[..], rands[..])
    {
      ghost var hs, ix, stamps, head := heap[..], index[..], rands[..], freeHead;
      delNode := Vacate(pos);
      ord, pl := FinishRemoval(pos, head, hs, ix, stamps);
    }

    lemma LiveAt(pos: nat)
      requires Valid() && pos < curSize
      ensures heap[pos] != null && heap[pos] in book.used.Values
      ensures heap[pos].timerId in book.timers && book.timers[heap[pos].timerId] == heap[pos].View()
      ensures book.order[pos] in book.entries && book.order[pos] == SlotOf(heap[pos].timerId)
      ensures book.entries[book.order[pos]].id == heap[pos].timerId
    {
      BeforeRemove(book, freeHead, heap[..], index[..], rands[..], pos);
      var node := book.used[book.order[pos]];
    }

    method RemoveLive(pos: nat) returns (delNode: TimerNode)
      requires Valid() && pos < curSize
      modifies `curSize, `freeHead, `book, heap, index, rands, book.used.Values`timerId
      ensures Valid() && delNode == old(heap[pos]) && delNode.timerId == -1
      ensures old(delNode.timerId) in old(book.timers) && book.used.Values <= old(book.used.Values)
      ensures book.timers == old(book.timers) - {old(delNode.timerId)}
      ensures book.free == [SlotOf(old(delNode.timerId))] + old(book.free)
    {
      LiveAt(pos);
      ghost var b, slot := book, book.order[pos];
      ghost var ord, pl;
      delNode, ord, pl := RemoveAt(pos);
      Commit(Removed(b, slot, ord, pl));
    }

    // Frees the timer at a position and repairs the heap.
    method RemoveNode(delNodePos: nat) returns (delNode: TimerNode?)
      requires Valid() && (curSize > 0 ==> delNodePos < curSize)
      modifies `curSize, `freeHead, `book, heap, index, rands, book.used.Values`timerId
      ensures Valid() && book.used.Values <= old(book.used.Values)
      ensures old(curSize) == 0 ==> delNode == null && book == old(book)
      ensures old(curSize) > 0 ==>
                && delNode == old(heap[delNodePos]) && delNode != null && delNode.timerId == -1
                && Table() == Unregister(old(Table()), old(delNode.timerId))
    {
      if curSize == 0 {
        return null;
      }
      delNode := RemoveLive(delNodePos);
    }

    // Where the index array finds a live id, and why it finds nothing else.
    lemma Locate(id: int)
      requires Valid()
      ensures id in book.timers <==>
                && 0 <= SlotOf(id) < heapSize && index[SlotOf(id)] >= 0 && rands[SlotOf(id)] == StampOf(id)
      ensures id in book.timers ==>
                && index[SlotOf(id)] < curSize && heap[index[SlotOf(id)]] != null
                && heap[index[SlotOf(id)]] in book.used.Values && heap[index[SlotOf(id)]].timerId == id
                && heap[index[SlotOf(id)]].View() == book.timers[id]
    {
      LocateInBook(book, freeHead, heap[..], index[..], rands[..], id);
      if id in book.timers {
        var node := book.used[SlotOf(id)];
      }
    }

    // The bound in the code is one too large: it lets through an id whose slot
    // is the length of the arrays, and the next line reads past them.
    method UnregisterTimer(timerId: int) returns (r: Lookup)
      requires Valid()
      modifies `curSize, `freeHead, `book, heap, index, rands, book.used.Values`timerId
      ensures Valid() && Table() == Unregister(old(Table()), timerId)
      ensures r == OutOfBounds <==> SlotOf(timerId) == heapSize
      ensures r == OutOfBounds ==> Table() == old(Table())
    {
      Locate(timerId);
      var timerNodeIndex := SlotOf(timerId);
      var randNum := StampOf(timerId);
      if timerNodeIndex < 0 || timerNodeIndex > heapSize {
        return InBounds;
      }
      if timerNodeIndex == index.Length {
        return OutOfBounds;
      }
      var nodePos := index[timerNodeIndex];
      if nodePos < 0 {
        return InBounds;
      }
      var timerRand := rands[timerNodeIndex];
      if timerRand != randNum {
        return InBounds;
      }
      var delNode := RemoveNode(nodePos);
      return InBounds;
    }

    method FirstTimeout() returns (r: Option<TimeValue>)
      requires Valid()
      ensures r.None? <==> book.timers == map[]
      ensures r.Some? ==>
                && (exists id :: id in book.timers && book.timers[id].expire == Us(r.value))
                && forall id | id in book.timers :: Us(r.value) <= book.timers[id].expire
    {
      if curSize > 0 {
        TopOfBook(book, freeHead, heap[..], index[..], rands[..]);
        r := Some(heap[0].expireTime);
      } else {
        r := None;
      }
    }

    // ----- polling -----

    // The top of the heap is a live timer with the least expiry time.
    lemma TopIsEarliest()
      requires Valid() && curSize > 0
      ensures heap[0] != null && heap[0] in book.used.Values && heap[0].timerId in book.timers
      ensures book.timers[heap[0].timerId] == heap[0].View()
      ensures forall id | id in book.timers :: Us(heap[0].expireTime) <= book.timers[id].expire
      ensures book.order[0] in book.entries && book.order[0] in book.used && book.used[book.order[0]] == heap[0]
      ensures book.order[0] == SlotOf(heap[0].timerId) && book.entries[book.order[0]].id == heap[0].timerId
    {
      TopOfBook(book, freeHead, heap[..], index[..], rands[..]);
      var node := book.used[book.order[0]];
    }

    lemma NodesReArmed(used: map<int, TimerNode>, entries: map<int, Entry>, slot: int)
      requires used.Keys == entries.Keys && slot in used
      requires forall s {:trigger used[s]} | s in used && s != slot ::
                 used[s].timerId == entries[s].id && used[s].View() == entries[s].timer
      requires used[slot].timerId == entries[slot].id
      ensures Nodes(used, entries[slot := Entry(entries[slot].id, used[slot].View())])
    {
    }

    // Sets the top's next expiry time.
    method SetTop(now: TimeValue) returns (node: TimerNode)
      requires Valid() && curSize > 0
      modifies book.used.Values`expireTime
      ensures node == heap[0] && book.order[0] in book.entries
      ensures node.timerId == book.entries[book.order[0]].id && node.View() == ReArmed(old(heap[0].View()), Us(now))
      ensures var target := ReArmedBook(book, book.order[0], node.View(), book.order, book.place);
              && Sifting(target, node, book.order, book.place, 0)
              && OrderedButDown(book.order, target.keys, 0)
    {
      TopIsEarliest();
      ghost var slot := book.order[0];
      OtherNodes(slot);
      node := heap[0];
      BeforeReArm(book, freeHead, heap[..], index[..], rands[..], ReArmed(node.View(), Us(now)));
      node.expireTime := ExpireTime(now, node.intervalTime);
      NodesReArmed(book.used, book.entries, slot);
    }

    // Sets the top's next expiry time and sifts it down.
    method ReArmTop(now: TimeValue)
      requires Valid() && curSize > 0
      modifies `book, heap, index, book.used.Values`expireTime
      ensures Valid() && book.used == old(book.used)
      ensures old(heap[0]) != null
      ensures Table() ==
              old(Table()).(timers := old(book.timers)[old(heap[0].timerId) := ReArmed(old(heap[0].View()), Us(now))])
    {
      ghost var hs, ix, b, slot := heap[..], index[..], book, book.order[0];
      var node := SetTop(now);
      ghost var timer := node.View();
      ghost var target := ReArmedBook(b, slot, timer, b.order, b.place);
      ghost var ord, pl := RotateDown(node, 0, GetLeftChildPos(0), target, b.order, b.place);
      AfterReArm(b, freeHead, hs, ix, rands[..], slot, timer, ord, pl, heap[..], index[..]);
      Commit(ReArmedBook(b, slot, timer, ord, pl));
    }

    // What the callback of the top timer answers, and whether the timer goes on.
    method AskTop(answers: Answers) returns (timerId: int, again: bool)
      requires Valid() && curSize > 0 && heap[0] != null
      ensures timerId == heap[0].timerId && timerId in book.timers
      ensures again == ReArms(timerId, book.timers[timerId], answers)
    {
      TopIsEarliest();
      var expireNode := heap[0];
      timerId := expireNode.timerId;
      var ret := 0;
      if expireNode.hasCallback {
        ret := Coming(answers, timerId, 0);
      }
      again := ret == 0 && !IsZero(expireNode.intervalTime);
    }

    method KeepTop(now: TimeValue, answers: Answers)
      requires Valid() && curSize > 0 && heap[0] != null && Gte(now, heap[0].expireTime)
      requires heap[0].timerId in book.timers && ReArms(heap[0].timerId, book.timers[heap[0].timerId], answers)
      modifies `book, heap, index, book.used.Values`expireTime
      ensures Valid() && book.used == old(book.used)
      ensures CanFire(old(Table()), Us(now), old(heap[0].timerId))
      ensures Table() == Fire(old(Table()), Us(now), answers, old(heap[0].timerId))
    {
      TopIsEarliest();
      ReArmTop(now);
    }

    method DropTop(now: TimeValue, ghost answers: Answers)
      requires Valid() && curSize > 0 && heap[0] != null && Gte(now, heap[0].expireTime)
      requires heap[0].timerId in book.timers && !ReArms(heap[0].timerId, book.timers[heap[0].timerId], answers)
      modifies `curSize, `freeHead, `book, heap, index, rands, book.used.Values`timerId
      ensures Valid() && book.used.Values <= old(book.used.Values)
      ensures CanFire(old(Table()), Us(now), old(heap[0].timerId))
      ensures Table() == Fire(old(Table()), Us(now), answers, old(heap[0].timerId))
    {
      TopIsEarliest();
      var expireNode := RemoveNode(0);
    }

    lemma TopDecides(now: TimeValue)
      requires Valid()
      ensures curSize > 0 ==> heap[0] != null
      ensures (curSize > 0 && Gte(now, heap[0].expireTime)) || NothingDue(Table(), Us(now))
    {
      if curSize > 0 {
        TopIsEarliest();
      } else {
        assert book.timers == map[];
      }
    }

    // Fires the due timers, returned in the order in which they fired.
    method TimerPoll(now: TimeValue, answers: Answers) returns (fired: seq<int>)
      requires Valid() && CanEnd(Table(), Us(now), answers)
      modifies `curSize, `freeHead, `book, heap, index, rands, book.used.Values
      ensures Valid() && book.used.Values <= old(book.used.Values)
      ensures IsPoll(old(Table()), Us(now), answers, fired)
      ensures Table() == FireAll(old(Table()), Us(now), answers, fired)
      ensures NothingDue(Table(), Us(now))
    {
      fired := [];
      TopDecides(now);
      if curSize == 0 {
        return;
      }
      ghost var t0 := Table();
      ghost var budget := BudgetExists(t0, Us(now), answers);
      var asked := answers;
      while curSize > 0 && Gte(now, heap[0].expireTime)
        invariant Valid() && book.used.Values <= old(book.used.Values)
        invariant curSize > 0 ==> heap[0] != null
        invariant (curSize > 0 && Gte(now, heap[0].expireTime)) || NothingDue(Table(), Us(now))
        invariant Underway(t0, now, answers, fired, Table(), asked, budget)
        decreases budget
      {
        ghost var t := Table();
        var timerId, again := AskTop(asked);
        if again {
          KeepTop(now, asked);
          PollTurn(t0, t, now, answers, fired, asked, timerId, budget);
          fired, asked, budget := fired + [timerId], Asked(asked, timerId), budget - multiset{timerId};
          continue;
        }
        DropTop(now, asked);
        PollTurn(t0, t, now, answers, fired, asked, timerId, budget);
        fired, asked, budget := fired + [timerId], Asked(asked, timerId), budget - multiset{timerId};
      }
    }

    // A poll of t0 that has come to t, with the answers and firings still to come.
    ghost predicate Underway(t0: TimerTable, now: TimeValue, answers: Answers, fired: seq<int>,
                             t: TimerTable, asked: Answers, budget: multiset<int>)
    {
      && IsPoll(t0, Us(now), answers, fired) && t == FireAll(t0, Us(now), answers, fired)
      && asked == AskedAll(answers, fired)
      && Budget(t, Us(now), asked, budget)
    }

    lemma PollTurn(t0: TimerTable, t: TimerTable, now: TimeValue, answers: Answers, fired: seq<int>,
                   asked: Answers, id: int, budget: multiset<int>)
      requires Valid() && Table() == Fire(t, Us(now), asked, id)
      requires Underway(t0, now, answers, fired, t, asked, budget) && CanFire(t, Us(now), id)
      ensures Underway(t0, now, answers, fired + [id], Table(), Asked(asked, id), budget - multiset{id})
      ensures id in budget
      ensures curSize > 0 ==> heap[0] != null
      ensures (curSize > 0 && Gte(now, heap[0].expireTime)) || NothingDue(Table(), Us(now))
    {
      PollStep(t0, Us(now), answers, fired, id);
      AskedLast(answers, fired, id);
      FireSpends(t, Us(now), asked, id, budget);
      TopDecides(now);
    }

    lemma UsedNode(slot: nat)
      requires Valid() && slot < heapSize
      ensures index[slot] >= 0 <==> slot in book.used
      ensures index[slot] >= 0 ==>
                && index[slot] < curSize && heap[index[slot]] == book.used[slot]
                && SlotOf(book.used[slot].timerId) == slot
      ensures forall s | s in book.used :: 0 <= s < heapSize
    {
      UsedIffIndexed(book, freeHead, heap[..], index[..], rands[..], slot);
      forall s | s in book.used ensures 0 <= s < heapSize {
        SlotOfEntry(book, freeHead, heap[..], index[..], rands[..], s);
      }
      if slot in book.used {
        var node := book.used[slot];
      }
    }

    // The destructor frees the node of every slot whose index entry says it is
    // used: each live node once, and nothing else.
    method Destroy() returns (freed: seq<TimerNode?>)
      requires Valid()
      ensures forall k | 0 <= k < |freed| :: freed[k] in book.used.Values
      ensures forall i, j | 0 <= i < j < |freed| :: freed[i] != freed[j]
      ensures forall node | node in book.used.Values :: node in freed
    {
      freed := [];
      UsedNode(0);
      for i := 0 to heapSize
        invariant forall k | 0 <= k < |freed| ::
                    freed[k] != null && freed[k] in book.used.Values && SlotOf(freed[k].timerId) < i
        invariant forall j, k | 0 <= j < k < |freed| :: freed[j] != freed[k]
        invariant forall s | s in book.used && s < i :: book.used[s] in freed
      {
        UsedNode(i);
        if index[i] >= 0 {
          freed := freed + [heap[index[i]]];
        }
      }
    }
  }
}
