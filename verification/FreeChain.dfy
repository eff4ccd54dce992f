// A free list threaded through an array by negative links: each free slot
// holds minus the next one, the last holds minus the array's length.
module FreeChains {
  ghost predicate Distinct(s: seq<int>) {
    forall i, j | 0 <= i < j < |s| :: s[i] != s[j]
  }

  function Range(lo: int, hi: int): (s: seq<int>)
    requires lo <= hi
    ensures |s| == hi - lo
    ensures forall k | 0 <= k < |s| :: s[k] == lo + k
  {
    seq(hi - lo, k => lo + k)
  }

  lemma InRange(lo: int, hi: int, x: int)
    requires lo <= hi
    ensures x in Range(lo, hi) <==> lo <= x < hi
  {
    if lo <= x < hi {
      assert Range(lo, hi)[x - lo] == x;
    }
  }

  // free lists the chain that starts at head; each slot of it occurs once.
  ghost predicate Chain(head: int, free: seq<int>, links: seq<int>) {
    && head == (if free == [] then |links| else free[0])
    && Distinct(free)
    && (forall k | 0 <= k < |free| :: 1 <= free[k] < |links|)
    && (forall j, k | 0 <= j && k == j + 1 && k < |free| :: links[free[j]] == -free[k])
    && (free != [] ==> links[free[|free| - 1]] == -|links|)
  }

  lemma ChainInit(links: seq<int>)
    requires |links| >= 1 && forall i | 0 <= i < |links| :: links[i] == -(i + 1)
    ensures Chain(1, Range(1, |links|), links)
  {
  }

  lemma ChainPop(head: int, free: seq<int>, links: seq<int>)
    requires Chain(head, free, links) && free != []
    ensures 1 <= head < |links| && Chain(-links[head], free[1..], links)
  {
  }

  lemma ChainPush(head: int, free: seq<int>, links: seq<int>, slot: int)
    requires Chain(head, free, links) && 1 <= slot < |links| && slot !in free
    ensures Chain(slot, [slot] + free, links[slot := -head])
  {
  }

  // The old end marker becomes the first of the new slots.
  lemma ChainGrow(head: int, free: seq<int>, links: seq<int>, longer: seq<int>)
    requires Chain(head, free, links) && 1 <= |links| < |longer|
    requires longer[..|links|] == links
    requires forall i | |links| <= i < |longer| :: longer[i] == -(i + 1)
    ensures Chain(head, free + Range(|links|, |longer|), longer)
  {
    var more := free + Range(|links|, |longer|);
    forall j, k | 0 <= j && k == j + 1 && k < |more|
      ensures longer[more[j]] == -more[k]
    {
      if j < |free| {
        assert longer[free[j]] == links[free[j]];
        if k < |free| { assert links[free[j]] == -free[k]; }
      }
    }
  }

  lemma ChainFrame(head: int, free: seq<int>, links: seq<int>, links': seq<int>)
    requires Chain(head, free, links) && |links'| == |links|
    requires forall s | 0 <= s < |links| && s in free :: links'[s] == links[s]
    ensures Chain(head, free, links')
  {
  }

  // ----- what is taken and what is free -----

  // Every unit of 1 .. total is either taken or occurs once in the free list.
  ghost predicate Pool(taken: set<int>, free: seq<int>, total: nat) {
    && Distinct(free)
    && (forall i :: i in taken || i in free <==> 1 <= i <= total)
    && (forall i | i in taken :: i !in free)
  }

  lemma TakeFromPool(taken: set<int>, free: seq<int>, total: nat)
    requires Pool(taken, free, total) && free != []
    ensures Pool(taken + {free[0]}, free[1..], total) && free[0] !in taken && 1 <= free[0] <= total
  {
    var rest := free[1..];
    assert free == [free[0]] + rest;
    assert free[0] in free;
    assert forall k | 0 <= k < |rest| :: rest[k] == free[k + 1] != free[0];
    forall i ensures i in free <==> i == free[0] || i in rest {
    }
  }

  lemma ReturnToPool(taken: set<int>, free: seq<int>, total: nat, unit: int)
    requires Pool(taken, free, total) && unit in taken
    ensures Pool(taken - {unit}, [unit] + free, total)
  {
  }

  lemma EmptyPool(total: nat)
    ensures Pool({}, Range(1, total + 1), total)
  {
    var free := Range(1, total + 1);
    forall i ensures i in free <==> 1 <= i <= total {
      InRange(1, total + 1, i);
    }
  }
}
