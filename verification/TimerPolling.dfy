// What one TimerPoll does to the table: theorems about every poll, whatever
// the callbacks answer and however ties between expiry times are broken.
module TimerPolling {
  import opened FreeChains
  import opened TimerTables

  // What the callbacks return: of(id, k) at the k-th firing of id in a poll, of
  // which there have been asked[id].
  datatype Answers = Answers(of: (int, nat) -> int, asked: multiset<int>)

  // The k-th answer for id that is still to come.
  function Coming(answers: Answers, id: int, k: nat): int {
    (answers.of)(id, answers.asked[id] + k)
  }

  function Asked(answers: Answers, id: int): Answers {
    answers.(asked := answers.asked + multiset{id})
  }

  function AskedAll(answers: Answers, fired: seq<int>): Answers {
    answers.(asked := answers.asked + multiset(fired))
  }

  lemma AskedOnce(answers: Answers, fired: int, id: int, k: nat)
    ensures Coming(Asked(answers, fired), id, k) == Coming(answers, id, if id == fired then k + 1 else k)
  {
  }

  lemma AskedLast(answers: Answers, fired: seq<int>, id: int)
    ensures AskedAll(answers, fired + [id]) == Asked(AskedAll(answers, fired), id)
  {
  }

  lemma AskedFirst(answers: Answers, fired: seq<int>)
    requires fired != []
    ensures AskedAll(answers, fired) == AskedAll(Asked(answers, fired[0]), fired[1..])
  {
    assert fired == [fired[0]] + fired[1..];
  }

  predicate IsDue(timer: Timer, now: int) {
    now >= timer.expire
  }

  ghost function DueIds(t: TimerTable, now: int): set<int> {
    set id | id in t.timers && IsDue(t.timers[id], now)
  }

  // A timer without a callback object counts as answering 0.
  predicate ReArms(id: int, timer: Timer, answers: Answers) {
    (timer.hasCallback ==> Coming(answers, id, 0) == 0) && timer.interval != 0
  }

  function ReArmed(timer: Timer, now: int): Timer {
    timer.(expire := now + timer.interval)
  }

  // One turn of the loop with id on top of the heap.
  function Fire(t: TimerTable, now: int, answers: Answers, id: int): TimerTable {
    if id in t.timers && ReArms(id, t.timers[id], answers) then
      t.(timers := t.timers[id := ReArmed(t.timers[id], now)])
    else
      Unregister(t, id)
  }

  function FireAll(t: TimerTable, now: int, answers: Answers, fired: seq<int>): TimerTable
    decreases |fired|
  {
    if fired == [] then t
    else FireAll(Fire(t, now, answers, fired[0]), now, Asked(answers, fired[0]), fired[1..])
  }

  // The heap's top is due: it has the least expiry time of all live timers.
  ghost predicate CanFire(t: TimerTable, now: int, id: int) {
    && id in t.timers
    && IsDue(t.timers[id], now)
    && forall j | j in t.timers :: t.timers[id].expire <= t.timers[j].expire
  }

  ghost predicate IsPoll(t: TimerTable, now: int, answers: Answers, fired: seq<int>)
    decreases |fired|
  {
    fired == [] ||
    (CanFire(t, now, fired[0])
     && IsPoll(Fire(t, now, answers, fired[0]), now, Asked(answers, fired[0]), fired[1..]))
  }

  ghost predicate NothingDue(t: TimerTable, now: int) {
    forall id | id in t.timers :: !IsDue(t.timers[id], now)
  }

  lemma {:induction false} PollStep(t: TimerTable, now: int, answers: Answers, fired: seq<int>, id: int)
    requires IsPoll(t, now, answers, fired)
    requires CanFire(FireAll(t, now, answers, fired), now, id)
    ensures IsPoll(t, now, answers, fired + [id])
    ensures FireAll(t, now, answers, fired + [id])
         == Fire(FireAll(t, now, answers, fired), now, AskedAll(answers, fired), id)
    decreases |fired|
  {
    if fired == [] {
      var rest, later := Fire(t, now, answers, id), Asked(answers, id);
      assert IsPoll(rest, now, later, []) && FireAll(rest, now, later, []) == rest;
      assert AskedAll(answers, fired) == answers;
    } else {
      PollStep(Fire(t, now, answers, fired[0]), now, Asked(answers, fired[0]), fired[1..], id);
      assert (fired + [id])[1..] == fired[1..] + [id];
      AskedFirst(answers, fired);
    }
  }

  // ----- one turn -----

  lemma FireKeeps(t: TimerTable, now: int, answers: Answers, id: int)
    requires WellFormed(t) && id in t.timers
    ensures WellFormed(Fire(t, now, answers, id))
  {
  }

  lemma {:induction false} FireAllKeeps(t: TimerTable, now: int, answers: Answers, fired: seq<int>)
    requires WellFormed(t) && IsPoll(t, now, answers, fired)
    ensures WellFormed(FireAll(t, now, answers, fired))
    decreases |fired|
  {
    if fired != [] {
      FireKeeps(t, now, answers, fired[0]);
      FireAllKeeps(Fire(t, now, answers, fired[0]), now, Asked(answers, fired[0]), fired[1..]);
    }
  }

  // ----- how often a timer fires -----

  // A timer that is due fires once if its interval is not negative: armed again
  // it is later than now. With a negative one it stays due, until its callback
  // first answers other than 0.
  ghost predicate Fires(t: TimerTable, now: int, answers: Answers, id: int, n: nat) {
    if id !in t.timers || !IsDue(t.timers[id], now) then n == 0
    else if t.timers[id].interval >= 0 then n == 1
    else
      && n > 0 && t.timers[id].hasCallback && Coming(answers, id, n - 1) != 0
      && forall k: nat | k < n - 1 :: Coming(answers, id, k) == 0
  }

  ghost predicate Allotted(t: TimerTable, now: int, answers: Answers, id: int, budget: multiset<int>) {
    Fires(t, now, answers, id, budget[id])
  }

  // budget has every id as often as it fires.
  ghost predicate Budget(t: TimerTable, now: int, answers: Answers, budget: multiset<int>) {
    forall id :: Allotted(t, now, answers, id, budget)
  }

  // A timer that re-arms itself into the past at every firing.
  ghost predicate Endless(t: TimerTable, now: int, answers: Answers, id: int) {
    && id in t.timers && IsDue(t.timers[id], now) && t.timers[id].interval < 0
    && (t.timers[id].hasCallback ==> forall k: nat :: Coming(answers, id, k) == 0)
  }

  ghost predicate CanEnd(t: TimerTable, now: int, answers: Answers) {
    forall id :: !Endless(t, now, answers, id)
  }

  lemma {:induction false} FirstRefusal(answers: Answers, id: int, some: nat) returns (k: nat)
    requires Coming(answers, id, some) != 0
    ensures Coming(answers, id, k) != 0 && forall j: nat | j < k :: Coming(answers, id, j) == 0
    decreases some
  {
    if j: nat :| j < some && Coming(answers, id, j) != 0 {
      k := FirstRefusal(answers, id, j);
    } else {
      k := some;
    }
  }

  lemma FiresSome(t: TimerTable, now: int, answers: Answers, id: int) returns (n: nat)
    requires !Endless(t, now, answers, id)
    ensures Fires(t, now, answers, id, n)
  {
    if id !in t.timers || !IsDue(t.timers[id], now) {
      n := 0;
    } else if t.timers[id].interval >= 0 {
      n := 1;
    } else {
      var some: nat :| Coming(answers, id, some) != 0;
      var k := FirstRefusal(answers, id, some);
      n := k + 1;
    }
  }

  lemma {:induction false} BudgetOf(t: TimerTable, now: int, answers: Answers, ids: set<int>)
    returns (budget: multiset<int>)
    requires CanEnd(t, now, answers)
    ensures forall id | id in ids :: Fires(t, now, answers, id, budget[id])
    ensures forall id | id !in ids :: budget[id] == 0
    decreases ids
  {
    budget := multiset{};
    if id :| id in ids {
      var rest := BudgetOf(t, now, answers, ids - {id});
      var n := FiresSome(t, now, answers, id);
      budget := rest[id := n];
    } else {
      assert forall id :: id !in ids;
    }
  }

  lemma BudgetExists(t: TimerTable, now: int, answers: Answers) returns (budget: multiset<int>)
    requires CanEnd(t, now, answers)
    ensures Budget(t, now, answers, budget)
  {
    budget := BudgetOf(t, now, answers, t.timers.Keys);
    forall id ensures Allotted(t, now, answers, id, budget) {
    }
  }

  lemma FiresLess(t: TimerTable, now: int, answers: Answers, fired: int, id: int, n: nat)
    requires CanFire(t, now, fired) && Fires(t, now, answers, id, n)
    ensures id == fired ==> n > 0
    ensures Fires(Fire(t, now, answers, fired), now, Asked(answers, fired), id, if id == fired then n - 1 else n)
  {
    forall k: nat
      ensures Coming(Asked(answers, fired), id, k) == Coming(answers, id, if id == fired then k + 1 else k)
    {
      AskedOnce(answers, fired, id, k);
    }
  }

  lemma AllotmentShrinks(t: TimerTable, now: int, answers: Answers, id: int, j: int, budget: multiset<int>)
    requires CanFire(t, now, id) && Allotted(t, now, answers, id, budget) && Allotted(t, now, answers, j, budget)
    ensures id in budget
    ensures Allotted(Fire(t, now, answers, id), now, Asked(answers, id), j, budget - multiset{id})
  {
    FiresLess(t, now, answers, id, id, budget[id]);
    FiresLess(t, now, answers, id, j, budget[j]);
    assert (budget - multiset{id})[j] == if j == id then budget[id] - 1 else budget[j];
  }

  // One turn spends one firing of the budget.
  lemma FireSpends(t: TimerTable, now: int, answers: Answers, id: int, budget: multiset<int>)
    requires CanFire(t, now, id) && Budget(t, now, answers, budget)
    ensures id in budget
    ensures Budget(Fire(t, now, answers, id), now, Asked(answers, id), budget - multiset{id})
  {
    assert Allotted(t, now, answers, id, budget);
    forall j ensures Allotted(Fire(t, now, answers, id), now, Asked(answers, id), j, budget - multiset{id}) {
      assert Allotted(t, now, answers, j, budget);
      AllotmentShrinks(t, now, answers, id, j, budget);
    }
    AllotmentShrinks(t, now, answers, id, id, budget);
  }

  lemma BudgetIsSpent(t: TimerTable, now: int, answers: Answers, budget: multiset<int>)
    requires Budget(t, now, answers, budget)
    ensures NothingDue(t, now) <==> budget == multiset{}
  {
    forall id ensures budget[id] > 0 <==> id in t.timers && IsDue(t.timers[id], now) {
      assert Allotted(t, now, answers, id, budget);
    }
    if NothingDue(t, now) {
      forall id ensures budget[id] == 0 {
      }
    } else {
      var id :| id in t.timers && IsDue(t.timers[id], now);
      assert id in budget;
    }
  }

  // ----- a whole poll -----

  // What has fired and what is still to fire make up the budget: the measure
  // of the loop.
  lemma {:induction false} PollSpends(t: TimerTable, now: int, answers: Answers, fired: seq<int>, budget: multiset<int>)
    requires IsPoll(t, now, answers, fired) && Budget(t, now, answers, budget)
    ensures multiset(fired) <= budget
    ensures Budget(FireAll(t, now, answers, fired), now, AskedAll(answers, fired), budget - multiset(fired))
    decreases |fired|
  {
    if fired == [] {
      assert budget - multiset(fired) == budget && AskedAll(answers, fired) == answers;
    } else {
      FireSpends(t, now, answers, fired[0], budget);
      var rest := budget - multiset{fired[0]};
      AskedFirst(answers, fired);
      PollSpends(Fire(t, now, answers, fired[0]), now, Asked(answers, fired[0]), fired[1..], rest);
      assert fired == [fired[0]] + fired[1..];
      assert multiset(fired) == multiset{fired[0]} + multiset(fired[1..]);
      assert budget - multiset(fired) == rest - multiset(fired[1..]);
    }
  }

  // A poll that has run to its end fired every timer exactly as often as its
  // interval and its callback's answers say.
  lemma PollFiresBudget(t: TimerTable, now: int, answers: Answers, fired: seq<int>, budget: multiset<int>)
    requires IsPoll(t, now, answers, fired) && Budget(t, now, answers, budget)
    ensures NothingDue(FireAll(t, now, answers, fired), now) <==> multiset(fired) == budget
  {
    PollSpends(t, now, answers, fired, budget);
    BudgetIsSpent(FireAll(t, now, answers, fired), now, AskedAll(answers, fired), budget - multiset(fired));
    assert budget == multiset(fired) + (budget - multiset(fired));
  }

  // ----- how it leaves the timers -----

  ghost predicate Stays(id: int, timer: Timer, now: int, answers: Answers) {
    IsDue(timer, now) ==> ReArms(id, timer, answers) && timer.interval > 0
  }

  // The timers after a poll, said without reference to any order.
  ghost predicate Settled(t: TimerTable, now: int, answers: Answers, after: map<int, Timer>) {
    && (forall id :: id in after <==> id in t.timers && Stays(id, t.timers[id], now, answers))
    && (forall id | id in after ::
          after[id] == if IsDue(t.timers[id], now) then ReArmed(t.timers[id], now) else t.timers[id])
  }

  lemma FireSettles(t: TimerTable, now: int, answers: Answers, id: int, after: map<int, Timer>)
    requires CanFire(t, now, id)
    requires Settled(Fire(t, now, answers, id), now, Asked(answers, id), after)
    ensures Settled(t, now, answers, after)
  {
  }

  // A poll that has run to its end dropped the due timers whose callback
  // refused or whose interval is not positive, and armed the others again.
  lemma {:induction false} PollSettles(t: TimerTable, now: int, answers: Answers, fired: seq<int>)
    requires IsPoll(t, now, answers, fired)
    requires NothingDue(FireAll(t, now, answers, fired), now)
    ensures Settled(t, now, answers, FireAll(t, now, answers, fired).timers)
    decreases |fired|
  {
    if fired != [] {
      PollSettles(Fire(t, now, answers, fired[0]), now, Asked(answers, fired[0]), fired[1..]);
      FireSettles(t, now, answers, fired[0], FireAll(t, now, answers, fired).timers);
    }
  }

  // Whatever is left expires later than the poll's time.
  lemma SettledIsLater(t: TimerTable, now: int, answers: Answers, after: map<int, Timer>, id: int)
    requires Settled(t, now, answers, after) && id in after
    ensures after[id].expire > now
  {
  }

  // ----- in what order timers fire -----

  ghost predicate First(ids: seq<int>, i: nat)
    requires i < |ids|
  {
    forall k | 0 <= k < i :: ids[k] != ids[i]
  }

  // First firings come in the order of the expiry times before the poll.
  ghost predicate ByExpiry(t: TimerTable, ids: seq<int>) {
    && (forall i | 0 <= i < |ids| :: ids[i] in t.timers)
    && forall i, j | 0 <= i < j < |ids| && First(ids, i) && First(ids, j) ::
         t.timers[ids[i]].expire <= t.timers[ids[j]].expire
  }

  lemma OrderStep(t: TimerTable, now: int, answers: Answers, id: int, rest: seq<int>)
    requires CanFire(t, now, id) && ByExpiry(Fire(t, now, answers, id), rest)
    ensures ByExpiry(t, [id] + rest)
  {
    var all, t' := [id] + rest, Fire(t, now, answers, id);
    forall i | 0 <= i < |all| ensures all[i] in t.timers {
      if i > 0 { assert rest[i - 1] in t'.timers; }
    }
    forall i, j | 0 <= i < j < |all| && First(all, i) && First(all, j)
      ensures t.timers[all[i]].expire <= t.timers[all[j]].expire
    {
      if i > 0 {
        FirstBehind(id, rest, i);
        FirstBehind(id, rest, j);
      }
    }
  }

  lemma FirstBehind(id: int, rest: seq<int>, i: nat)
    requires 0 < i <= |rest| && First([id] + rest, i)
    ensures First(rest, i - 1) && rest[i - 1] != id
  {
    var all := [id] + rest;
    assert all[0] == id && forall k | 0 <= k < |rest| :: all[k + 1] == rest[k];
  }

  lemma {:induction false} PollOrder(t: TimerTable, now: int, answers: Answers, fired: seq<int>)
    requires IsPoll(t, now, answers, fired)
    ensures ByExpiry(t, fired)
    decreases |fired|
  {
    if fired != [] {
      PollOrder(Fire(t, now, answers, fired[0]), now, Asked(answers, fired[0]), fired[1..]);
      OrderStep(t, now, answers, fired[0], fired[1..]);
      assert fired == [fired[0]] + fired[1..];
    }
  }

  // ----- exactly when a poll ends -----

  lemma {:induction false} EarliestExists(t: TimerTable, ids: set<int>, some: int) returns (id: int)
    requires some in ids && ids <= t.timers.Keys
    ensures id in ids && forall j | j in ids :: t.timers[id].expire <= t.timers[j].expire
    decreases ids
  {
    id := some;
    if w :| w in ids - {some} {
      var other := EarliestExists(t, ids - {some}, w);
      if t.timers[other].expire < t.timers[id].expire {
        id := other;
      }
      assert forall j | j in ids :: j == some || j in ids - {some};
    } else {
      forall j | j in ids ensures j == some {
        assert j !in ids - {some};
      }
    }
  }

  lemma {:induction false} PollCanEnd(t: TimerTable, now: int, answers: Answers, budget: multiset<int>)
    returns (fired: seq<int>)
    requires Budget(t, now, answers, budget)
    ensures Ends(t, now, answers, fired)
    decreases budget
  {
    fired := [];
    if due :| due in DueIds(t, now) {
      var id := EarliestExists(t, t.timers.Keys, due);
      assert CanFire(t, now, id);
      FireSpends(t, now, answers, id, budget);
      var rest := PollCanEnd(Fire(t, now, answers, id), now, Asked(answers, id), budget - multiset{id});
      fired := [id] + rest;
      assert fired[1..] == rest;
    } else {
      assert forall id | id in t.timers :: id !in DueIds(t, now);
    }
  }

  lemma EndlessAfterFire(t: TimerTable, now: int, answers: Answers, fired: int, id: int)
    requires Endless(t, now, answers, id) && fired in t.timers
    ensures Endless(Fire(t, now, answers, fired), now, Asked(answers, fired), id)
  {
    forall k: nat
      ensures Coming(Asked(answers, fired), id, k) == Coming(answers, id, if id == fired then k + 1 else k)
    {
      AskedOnce(answers, fired, id, k);
    }
  }

  lemma {:induction false} EndlessStaysDue(t: TimerTable, now: int, answers: Answers, fired: seq<int>, id: int)
    requires IsPoll(t, now, answers, fired) && Endless(t, now, answers, id)
    ensures id in DueIds(FireAll(t, now, answers, fired), now)
    decreases |fired|
  {
    if fired != [] {
      EndlessAfterFire(t, now, answers, fired[0], id);
      EndlessStaysDue(Fire(t, now, answers, fired[0]), now, Asked(answers, fired[0]), fired[1..], id);
    }
  }

  ghost predicate Ends(t: TimerTable, now: int, answers: Answers, fired: seq<int>) {
    IsPoll(t, now, answers, fired) && NothingDue(FireAll(t, now, answers, fired), now)
  }

  // RegisterTimer refuses a zero interval but accepts a negative one. The loop
  // can come to an end exactly if no due timer has one without ever refusing.
  lemma PollEndsIff(t: TimerTable, now: int, answers: Answers)
    ensures CanEnd(t, now, answers) <==> exists fired :: Ends(t, now, answers, fired)
  {
    if CanEnd(t, now, answers) {
      var budget := BudgetExists(t, now, answers);
      var fired := PollCanEnd(t, now, answers, budget);
      assert Ends(t, now, answers, fired);
    } else {
      var id :| Endless(t, now, answers, id);
      forall fired ensures !Ends(t, now, answers, fired) {
        if IsPoll(t, now, answers, fired) {
          EndlessStaysDue(t, now, answers, fired, id);
        }
      }
    }
  }

  // ----- timers that fire at most once -----

  // No due timer re-arms itself into the past.
  ghost predicate NoneRepeats(t: TimerTable, now: int, answers: Answers) {
    forall id | id in t.timers && IsDue(t.timers[id], now) && ReArms(id, t.timers[id], answers) ::
      t.timers[id].interval > 0
  }

  lemma FiredAreDue(t: TimerTable, now: int, answers: Answers, fired: seq<int>, budget: multiset<int>)
    requires Budget(t, now, answers, budget) && multiset(fired) == budget
    ensures forall id :: id in fired <==> id in DueIds(t, now)
    ensures (forall id :: budget[id] <= 1) <==> NoneRepeats(t, now, answers)
  {
    forall id
      ensures id in fired <==> id in DueIds(t, now)
      ensures budget[id] <= 1 <==>
                (id in t.timers && IsDue(t.timers[id], now) && ReArms(id, t.timers[id], answers) ==>
                   t.timers[id].interval > 0)
    {
      assert Allotted(t, now, answers, id, budget);
      assert id in fired <==> multiset(fired)[id] > 0;
    }
  }

  lemma TwiceIsTwo(s: seq<int>, i: nat, j: nat)
    requires i < j < |s| && s[i] == s[j]
    ensures multiset(s)[s[i]] >= 2
  {
    assert s == s[..j] + [s[j]] + s[j + 1..];
    assert s[..j][i] == s[i];
  }

  lemma {:induction false} OnceIsDistinct(s: seq<int>)
    ensures Distinct(s) <==> forall x :: multiset(s)[x] <= 1
    decreases |s|
  {
    if s != [] {
      var first, rest := s[0], s[1..];
      OnceIsDistinct(rest);
      assert s == [first] + rest;
      assert multiset(s) == multiset{first} + multiset(rest);
      if Distinct(s) {
        forall k | 0 <= k < |rest| ensures rest[k] != first {
          assert rest[k] == s[k + 1];
        }
        assert first !in rest && Distinct(rest);
      } else {
        var i, j :| 0 <= i < j < |s| && s[i] == s[j];
        TwiceIsTwo(s, i, j);
      }
    }
  }

  // A poll that has run to its end fired the due timers and no others, in the
  // order of their expiry; each once exactly if none re-arms into the past.
  lemma PollFiresEachDueOnce(t: TimerTable, now: int, answers: Answers, fired: seq<int>)
    requires IsPoll(t, now, answers, fired)
    requires NothingDue(FireAll(t, now, answers, fired), now)
    ensures forall id :: id in fired <==> id in DueIds(t, now)
    ensures ByExpiry(t, fired)
    ensures Distinct(fired) <==> NoneRepeats(t, now, answers)
  {
    assert Ends(t, now, answers, fired);
    PollEndsIff(t, now, answers);
    var budget := BudgetExists(t, now, answers);
    PollFiresBudget(t, now, answers, fired, budget);
    FiredAreDue(t, now, answers, fired, budget);
    PollOrder(t, now, answers, fired);
    OnceIsDistinct(fired);
  }

  // ----- when a timer expires -----

  // A new timer is due from its expiry on; no other timer is touched.
  lemma RegisterMeans(t: TimerTable, interval: int, expire: int, hasCallback: bool, now: int)
    requires WellFormed(t)
    ensures var t', id := Register(t, interval, expire, hasCallback), NewId(t);
            if interval == 0 then t' == t
            else
              && t'.timers.Keys == t.timers.Keys + {id} && id !in t.timers
              && (forall j | j in t.timers :: t'.timers[j] == t.timers[j])
              && (IsDue(t'.timers[id], now) <==> now >= expire)
              && t'.timers[id].interval == interval && t'.timers[id].hasCallback == hasCallback
  {
    RegisterAddsOne(t, interval, expire, hasCallback);
  }

  // What a poll that has ended leaves of a timer: one that is not due stays as
  // it is; one that is due stays if its interval is positive and it has no
  // callback or one whose next answer is 0, and expires an interval from now.
  lemma PollOutcome(t: TimerTable, now: int, answers: Answers, fired: seq<int>, id: int)
    requires Ends(t, now, answers, fired)
    ensures var after := FireAll(t, now, answers, fired).timers;
            && (id in after <==>
                  && id in t.timers
                  && (t.timers[id].expire > now
                      || (t.timers[id].interval > 0
                          && (t.timers[id].hasCallback ==> (answers.of)(id, answers.asked[id]) == 0))))
            && (id in after ==>
                  after[id] == if t.timers[id].expire > now then t.timers[id]
                               else Timer(now + t.timers[id].interval, t.timers[id].interval, t.timers[id].hasCallback))
  {
    PollSettles(t, now, answers, fired);
  }

  // A timer that has been armed again fires in the next poll exactly if that is
  // at least its interval later.
  lemma FiresAgainIff(t: TimerTable, now: int, answers: Answers, fired: seq<int>,
                      later: int, answers': Answers, fired': seq<int>, id: int)
    requires Ends(t, now, answers, fired) && Ends(FireAll(t, now, answers, fired), later, answers', fired')
    requires id in t.timers && t.timers[id].expire <= now && id in FireAll(t, now, answers, fired).timers
    ensures id in fired' <==> later - now >= t.timers[id].interval
  {
    PollOutcome(t, now, answers, fired, id);
    PollFiresEachDueOnce(FireAll(t, now, answers, fired), later, answers', fired');
  }
}
