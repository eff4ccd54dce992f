// Heap order and the position index on values: order lists the slots by heap
// position, place is its inverse, keys gives the expiry time of each slot.
// Sifting with a hole is swapping once the moving slot is put into the hole.
module HeapOrder {
  function GetParentPos(pos: nat): (parent: nat)
    ensures pos > 0 ==> parent < pos
  {
    if pos == 0 then 0 else (pos - 1) / 2
  }

  function GetLeftChildPos(pos: nat): nat {
    2 * pos + 1
  }

  lemma ChildrenOf(pos: nat, p: nat)
    requires p > 0
    ensures GetParentPos(p) == pos <==> p == GetLeftChildPos(pos) || p == GetLeftChildPos(pos) + 1
  {
  }

  // The quantifiers of the invariants speak of values only through Nth and At,
  // so that a proof unfolds them just where it names a position or a slot.
  function Nth(order: seq<int>, p: int): int
    requires 0 <= p < |order|
  {
    order[p]
  }

  function At<V>(m: map<int, V>, s: int): V
    requires s in m
  {
    m[s]
  }

  ghost predicate Inverse(order: seq<int>, place: map<int, int>) {
    && (forall p {:trigger Nth(order, p)} | 0 <= p < |order| :: Nth(order, p) in place && At(place, Nth(order, p)) == p)
    && (forall s {:trigger At(place, s)} | s in place :: 0 <= At(place, s) < |order| && Nth(order, At(place, s)) == s)
  }

  function Swap(order: seq<int>, i: nat, j: nat): seq<int>
    requires i < |order| && j < |order|
  {
    order[i := order[j]][j := order[i]]
  }

  function SwapPlace(order: seq<int>, place: map<int, int>, i: nat, j: nat): map<int, int>
    requires i < |order| && j < |order|
  {
    place[order[i] := j][order[j] := i]
  }

  lemma SwapKeepsInverse(order: seq<int>, place: map<int, int>, i: nat, j: nat)
    requires i < |order| && j < |order| && i != j && Inverse(order, place)
    ensures Inverse(Swap(order, i, j), SwapPlace(order, place, i, j))
    ensures SwapPlace(order, place, i, j).Keys == place.Keys
  {
    var a, b := Nth(order, i), Nth(order, j);
    forall p | 0 <= p < |order| && p != i && p != j ensures order[p] in place && place[order[p]] == p {
      var c := Nth(order, p);
    }
    forall s | s in place ensures 0 <= place[s] < |order| && order[place[s]] == s {
      var c := At(place, s);
    }
  }

  ghost predicate Keyed(order: seq<int>, keys: map<int, int>) {
    forall p | 0 <= p < |order| :: order[p] in keys
  }

  ghost predicate HeapOrdered(order: seq<int>, keys: map<int, int>)
    requires Keyed(order, keys)
  {
    forall p: nat {:trigger GetParentPos(p)} | 0 < p < |order| :: keys[order[GetParentPos(p)]] <= keys[order[p]]
  }

  // In order but for the edge above pos, and across pos.
  ghost predicate OrderedButUp(order: seq<int>, keys: map<int, int>, pos: nat)
    requires Keyed(order, keys) && pos < |order|
  {
    && (forall p: nat {:trigger GetParentPos(p)} | 0 < p < |order| && p != pos ::
          keys[order[GetParentPos(p)]] <= keys[order[p]])
    && (forall p: nat {:trigger GetParentPos(p)} | 0 < p < |order| && GetParentPos(p) == pos && pos > 0 ::
          keys[order[GetParentPos(pos)]] <= keys[order[p]])
  }

  // In order but for the edges below pos, and across pos.
  ghost predicate OrderedButDown(order: seq<int>, keys: map<int, int>, pos: nat)
    requires Keyed(order, keys) && pos < |order|
  {
    && (forall p: nat {:trigger GetParentPos(p)} | 0 < p < |order| && GetParentPos(p) != pos ::
          keys[order[GetParentPos(p)]] <= keys[order[p]])
    && (forall p: nat {:trigger GetParentPos(p)} | 0 < p < |order| && GetParentPos(p) == pos && pos > 0 ::
          keys[order[GetParentPos(pos)]] <= keys[order[p]])
  }

  lemma UpStep(order: seq<int>, keys: map<int, int>, pos: nat)
    requires Keyed(order, keys) && 0 < pos < |order| && OrderedButUp(order, keys, pos)
    requires keys[order[pos]] < keys[order[GetParentPos(pos)]]
    ensures Keyed(Swap(order, pos, GetParentPos(pos)), keys)
    ensures OrderedButUp(Swap(order, pos, GetParentPos(pos)), keys, GetParentPos(pos))
  {
  }

  lemma UpDone(order: seq<int>, keys: map<int, int>, pos: nat)
    requires Keyed(order, keys) && pos < |order| && OrderedButUp(order, keys, pos)
    requires pos > 0 ==> keys[order[GetParentPos(pos)]] <= keys[order[pos]]
    ensures HeapOrdered(order, keys)
  {
  }

  // child is the lesser child of pos, not greater than the key at pos.
  lemma DownStep(order: seq<int>, keys: map<int, int>, pos: nat, child: nat)
    requires Keyed(order, keys) && pos < child < |order| && GetParentPos(child) == pos
    requires OrderedButDown(order, keys, pos)
    requires forall p: nat {:trigger GetParentPos(p)} | 0 < p < |order| && GetParentPos(p) == pos ::
               keys[order[child]] <= keys[order[p]]
    requires keys[order[child]] <= keys[order[pos]]
    ensures Keyed(Swap(order, pos, child), keys)
    ensures OrderedButDown(Swap(order, pos, child), keys, child)
  {
  }

  lemma DownDone(order: seq<int>, keys: map<int, int>, pos: nat)
    requires Keyed(order, keys) && pos < |order| && OrderedButDown(order, keys, pos)
    requires forall p: nat {:trigger GetParentPos(p)} | 0 < p < |order| && GetParentPos(p) == pos ::
               keys[order[pos]] <= keys[order[p]]
    ensures HeapOrdered(order, keys)
  {
  }

  // The top of a heap is its minimum.
  lemma {:induction false} TopIsMinimum(order: seq<int>, keys: map<int, int>, p: nat)
    requires Keyed(order, keys) && HeapOrdered(order, keys) && p < |order|
    ensures keys[order[0]] <= keys[order[p]]
    decreases p
  {
    if p > 0 {
      TopIsMinimum(order, keys, GetParentPos(p));
    }
  }

  // The order and its inverse once the slot at pos is gone and the last one has
  // been put in its place.
  function GapOrder(order: seq<int>, pos: nat): seq<int>
    requires pos < |order|
  {
    if pos == |order| - 1 then order[..pos] else order[..|order| - 1][pos := order[|order| - 1]]
  }

  function GapPlace(order: seq<int>, place: map<int, int>, pos: nat): map<int, int>
    requires pos < |order|
  {
    if pos == |order| - 1 then place - {order[pos]} else (place - {order[pos]})[order[|order| - 1] := pos]
  }

  lemma GapKeepsInverse(order: seq<int>, place: map<int, int>, pos: nat)
    requires Inverse(order, place) && pos < |order|
    ensures Inverse(GapOrder(order, pos), GapPlace(order, place, pos))
    ensures GapPlace(order, place, pos).Keys == place.Keys - {order[pos]}
  {
    InverseMeans(order, place);
  }

  // In order but for the edges at pos, of which only those in one direction can
  // be wrong; all in order if pos is just past the end.
  ghost predicate OrderedButAt(order: seq<int>, keys: map<int, int>, pos: nat)
    requires Keyed(order, keys) && pos <= |order|
  {
    && (pos == |order| ==> HeapOrdered(order, keys))
    && (pos < |order| && keys[order[GetParentPos(pos)]] <= keys[order[pos]] ==> OrderedButDown(order, keys, pos))
    && (pos < |order| && keys[order[pos]] < keys[order[GetParentPos(pos)]] ==>
          pos > 0 && OrderedButUp(order, keys, pos))
  }

  lemma GapKeepsOrder(order: seq<int>, keys: map<int, int>, pos: nat)
    requires Keyed(order, keys) && HeapOrdered(order, keys) && pos < |order|
    ensures Keyed(GapOrder(order, pos), keys) && OrderedButAt(GapOrder(order, pos), keys, pos)
  {
  }

  lemma OrderedWithout(order: seq<int>, keys: map<int, int>, pos: nat, slot: int)
    requires Keyed(order, keys) && pos <= |order| && OrderedButAt(order, keys, pos) && slot !in order
    ensures Keyed(order, keys - {slot}) && OrderedButAt(order, keys - {slot}, pos)
  {
    assert forall p | 0 <= p < |order| :: order[p] in order;
  }

  // A greater key at the top puts only the edges below it in doubt.
  lemma RaiseTop(order: seq<int>, keys: map<int, int>, key: int)
    requires |order| > 0 && Keyed(order, keys) && HeapOrdered(order, keys)
    requires forall p | 0 < p < |order| :: order[p] != order[0]
    ensures Keyed(order, keys[order[0] := key]) && OrderedButDown(order, keys[order[0] := key], 0)
  {
  }

  lemma AppendKeepsInverse(order: seq<int>, place: map<int, int>, slot: int)
    requires Inverse(order, place) && slot !in place
    ensures Inverse(order + [slot], place[slot := |order|])
    ensures slot !in order
  {
    InverseMeans(order, place);
  }

  lemma InverseMeans(order: seq<int>, place: map<int, int>)
    requires Inverse(order, place)
    ensures forall p | 0 <= p < |order| :: order[p] in place && place[order[p]] == p
    ensures forall s | s in place :: 0 <= place[s] < |order| && order[place[s]] == s
  {
    forall p | 0 <= p < |order| ensures order[p] in place && place[order[p]] == p {
      var c := Nth(order, p);
    }
    forall s | s in place ensures 0 <= place[s] < |order| && order[place[s]] == s {
      var c := At(place, s);
    }
  }

  lemma AppendLeaf(order: seq<int>, keys: map<int, int>, slot: int, key: int)
    requires Keyed(order, keys) && HeapOrdered(order, keys) && slot !in order
    ensures Keyed(order + [slot], keys[slot := key])
    ensures OrderedButUp(order + [slot], keys[slot := key], |order|)
  {
  }
}
