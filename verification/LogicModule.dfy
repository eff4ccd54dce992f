// The asynchronous logic instances of src/gamesvr/logic_module: a table of
// instances by id, and a timer with the same id for every instance that may
// time out.
module LogicStates {
  import opened TimerTables
  import opened TimerPolling
  import opened LogicSteps

  datatype LogicHead = LogicHead(logicId: int, logicType: int, step: int)

  datatype LogicState = LogicState(table: TimerTable, logics: map<int, LogicHead>)

  // OnTimer answers -1 whatever it finds.
  function OnTimer(id: int, k: nat): int {
    -1
  }

  function TimedOut(): Answers {
    Answers(OnTimer, multiset{})
  }

  // ----- operations -----

  function CreatedId(s: LogicState, delaySecs: int): int
    requires s.table.free != []
  {
    if delaySecs > 0 then NewId(s.table) else 0
  }

  // A delay of 0 or less means no timer and the id 0. The map keeps an entry
  // that is there already.
  function Create(s: LogicState, logicType: int, delaySecs: int, clock: int): LogicState
    requires s.table.free != [] && s.table.size >= 0
  {
    if !Known(logicType) then s
    else
      var table := if delaySecs > 0 then
                     Register(s.table, delaySecs * 1000000, clock * 1000000 + delaySecs * 1000000, true)
                   else s.table;
      var id := CreatedId(s, delaySecs);
      LogicState(table, if id in s.logics then s.logics else s.logics[id := LogicHead(id, logicType, 0)])
  }

  // What a step's result does to its instance.
  function Conclude(s: LogicState, id: int, r: StepResult): LogicState
    requires id in s.logics
  {
    match r
    case NullDereference => s
    case StepResult(ret, step) =>
      if ret == LOGIC_YIELD then s.(logics := s.logics[id := s.logics[id].(step := step)])
      else LogicState(if id != 0 then Unregister(s.table, id) else s.table, s.logics - {id})
  }

  function Proc(s: LogicState, id: int, f: Finding): LogicState {
    if id !in s.logics then s
    else Conclude(s, id, Dispatch(s.logics[id].logicType, s.logics[id].step, f))
  }

  // The message's step dereferences NULL, which ends the process.
  predicate Crashes(s: LogicState, id: int, f: Finding) {
    id in s.logics && Dispatch(s.logics[id].logicType, s.logics[id].step, f) == NullDereference
  }

  function Update(s: LogicState, now: int, fired: seq<int>): LogicState {
    LogicState(FireAll(s.table, now, TimedOut(), fired), s.logics - Members(fired))
  }

  // ----- the joint invariant -----

  ghost predicate GoodHead(id: int, head: LogicHead) {
    head.logicId == id && Known(head.logicType) && 0 <= head.step < StepCount(head.logicType)
  }

  // The instances other than 0 are exactly the live timers.
  ghost predicate Matched(timers: map<int, Timer>, logics: map<int, LogicHead>) {
    && logics.Keys - {0} == timers.Keys
    && (forall id | id in timers :: timers[id].hasCallback)
    && (forall id | id in logics :: GoodHead(id, logics[id]))
  }

  ghost predicate Joint(s: LogicState) {
    WellFormed(s.table) && Matched(s.table.timers, s.logics)
  }

  // So every poll comes to an end.
  lemma TimedOutEnds(s: LogicState, now: int)
    requires Joint(s)
    ensures CanEnd(s.table, now, TimedOut())
  {
    forall id ensures !Endless(s.table, now, TimedOut(), id) {
      assert Coming(TimedOut(), id, 0) == -1;
    }
  }

  // With a delay the new instance gets an id that no instance has, so the
  // insertion never meets an old entry; without one it does exactly if an
  // instance with id 0 is still there, and then the old one stays.
  lemma CreateIsFresh(s: LogicState, logicType: int, delaySecs: int, clock: int)
    requires Joint(s) && Known(logicType)
    ensures s.table.free != []
    ensures var id, s' := CreatedId(s, delaySecs), Create(s, logicType, delaySecs, clock);
            && (delaySecs > 0 ==> id !in s.logics && id > 0)
            && (id !in s.logics <==> delaySecs > 0 || 0 !in s.logics)
            && (id !in s.logics ==> s'.logics == s.logics[id := LogicHead(id, logicType, 0)])
            && (id in s.logics ==> s'.logics == s.logics)
  {
    RegisterAddsOne(s.table, delaySecs, clock, true);
  }

  lemma AddMatched(timers: map<int, Timer>, logics: map<int, LogicHead>, id: int, timer: Timer, logicType: int)
    requires Matched(timers, logics) && Known(logicType) && id !in logics && timer.hasCallback
    ensures Matched(if id == 0 then timers else timers[id := timer], logics[id := LogicHead(id, logicType, 0)])
  {
  }

  lemma CreateKeepsTable(s: LogicState, logicType: int, delaySecs: int, clock: int)
    requires WellFormed(s.table)
    ensures s.table.free != [] && WellFormed(Create(s, logicType, delaySecs, clock).table)
  {
    RegisterAddsOne(s.table, delaySecs * 1000000, clock * 1000000 + delaySecs * 1000000, true);
  }

  lemma CreateKeepsMatched(s: LogicState, logicType: int, delaySecs: int, clock: int)
    requires Joint(s) && s.table.free != []
    ensures Matched(Create(s, logicType, delaySecs, clock).table.timers, Create(s, logicType, delaySecs, clock).logics)
  {
    if Known(logicType) {
      CreateIsFresh(s, logicType, delaySecs, clock);
      var interval, expire := delaySecs * 1000000, clock * 1000000 + delaySecs * 1000000;
      if CreatedId(s, delaySecs) !in s.logics {
        AddMatched(s.table.timers, s.logics, CreatedId(s, delaySecs), Timer(expire, interval, true), logicType);
      }
    }
  }

  lemma CreateKeepsJoint(s: LogicState, logicType: int, delaySecs: int, clock: int)
    requires Joint(s)
    ensures s.table.free != [] && Joint(Create(s, logicType, delaySecs, clock))
  {
    CreateKeepsTable(s, logicType, delaySecs, clock);
    CreateKeepsMatched(s, logicType, delaySecs, clock);
  }

  lemma ProcKeepsJoint(s: LogicState, id: int, f: Finding)
    requires Joint(s)
    ensures Joint(Proc(s, id, f))
  {
    if id in s.logics {
      var head := s.logics[id];
      assert GoodHead(id, head);
      if Yields(Dispatch(head.logicType, head.step, f)) {
        YieldMovesOn(head.logicType, head.step, f);
      } else if !Crashes(s, id, f) {
        UnregisterWellFormed(s.table, id);
        if id == 0 { ZeroNotLive(s); }
        RemoveMatched(s.table.timers, s.logics, {id});
      }
    }
  }

  lemma RemoveMatched(timers: map<int, Timer>, logics: map<int, LogicHead>, ids: set<int>)
    requires Matched(timers, logics)
    ensures Matched(timers - ids, logics - ids)
  {
  }

  lemma ZeroNotLive(s: LogicState)
    requires WellFormed(s.table)
    ensures 0 !in s.table.timers
  {
  }

  lemma TimedOutSettles(t: TimerTable, now: int, after: map<int, Timer>)
    requires Settled(t, now, TimedOut(), after) && forall id | id in t.timers :: t.timers[id].hasCallback
    ensures after == t.timers - DueIds(t, now)
  {
    forall id ensures (id in after <==> id in t.timers - DueIds(t, now))
                      && (id in after ==> after[id] == t.timers[id]) {
      if id in t.timers {
        assert Coming(TimedOut(), id, 0) == -1;
        assert Stays(id, t.timers[id], now, TimedOut()) <==> id !in DueIds(t, now);
      }
    }
  }

  lemma DueTimersGo(s: LogicState, now: int, fired: seq<int>)
    requires Joint(s) && Ends(s.table, now, TimedOut(), fired)
    ensures FireAll(s.table, now, TimedOut(), fired).timers == s.table.timers - DueIds(s.table, now)
  {
    PollSettles(s.table, now, TimedOut(), fired);
    TimedOutSettles(s.table, now, FireAll(s.table, now, TimedOut(), fired).timers);
  }

  function Members(ids: seq<int>): set<int> {
    set i | 0 <= i < |ids| :: ids[i]
  }

  lemma FiredAreDue(s: LogicState, now: int, fired: seq<int>)
    requires Joint(s) && Ends(s.table, now, TimedOut(), fired)
    ensures Members(fired) == DueIds(s.table, now)
  {
    PollFiresEachDueOnce(s.table, now, TimedOut(), fired);
    forall id ensures id in Members(fired) <==> id in DueIds(s.table, now) {
      assert id in fired <==> id in DueIds(s.table, now);
    }
  }

  // Update removes exactly the instances whose timer is due.
  lemma UpdateRemovesDue(s: LogicState, now: int, fired: seq<int>)
    requires Joint(s) && Ends(s.table, now, TimedOut(), fired)
    ensures Update(s, now, fired).logics == s.logics - DueIds(s.table, now)
    ensures Update(s, now, fired).table.timers == s.table.timers - DueIds(s.table, now)
  {
    FiredAreDue(s, now, fired);
    DueTimersGo(s, now, fired);
  }

  lemma UpdateKeepsJoint(s: LogicState, now: int, fired: seq<int>)
    requires Joint(s) && Ends(s.table, now, TimedOut(), fired)
    ensures Joint(Update(s, now, fired))
  {
    UpdateRemovesDue(s, now, fired);
    FireAllKeeps(s.table, now, TimedOut(), fired);
    RemoveMatched(s.table.timers, s.logics, DueIds(s.table, now));
  }

  // What the source does: each callback deletes its entry within its turn of
  // the poll.
  function TimeOutInTurn(s: LogicState, now: int, answers: Answers, fired: seq<int>): LogicState
    decreases |fired|
  {
    if fired == [] then s
    else
      TimeOutInTurn(LogicState(Fire(s.table, now, answers, fired[0]), s.logics - {fired[0]}), now,
                    Asked(answers, fired[0]), fired[1..])
  }

  // Deleting the entries after the poll comes to the same.
  lemma {:induction false} DeletionsCommute(s: LogicState, now: int, answers: Answers, fired: seq<int>)
    ensures TimeOutInTurn(s, now, answers, fired)
         == LogicState(FireAll(s.table, now, answers, fired), s.logics - Members(fired))
    decreases |fired|
  {
    if fired == [] {
      assert s.logics - Members(fired) == s.logics;
    } else {
      var next := LogicState(Fire(s.table, now, answers, fired[0]), s.logics - {fired[0]});
      DeletionsCommute(next, now, Asked(answers, fired[0]), fired[1..]);
      FirstAndRest(s.logics, fired);
    }
  }

  lemma FirstAndRest(logics: map<int, LogicHead>, fired: seq<int>)
    requires fired != []
    ensures logics - Members(fired) == logics - {fired[0]} - Members(fired[1..])
  {
    assert fired == [fired[0]] + fired[1..];
    assert Members(fired) == {fired[0]} + Members(fired[1..]);
  }

  lemma UpdateIsInTurn(s: LogicState, now: int, fired: seq<int>)
    ensures Update(s, now, fired) == TimeOutInTurn(s, now, TimedOut(), fired)
  {
    DeletionsCommute(s, now, TimedOut(), fired);
  }

  // ----- runs -----

  // Update's event carries the order in which the poll fired.
  datatype Event =
    | Created(logicType: int, delaySecs: int, clock: int)
    | Message(id: int, finding: Finding)
    | Tick(now: int, fired: seq<int>)

  ghost predicate Possible(s: LogicState, e: Event) {
    match e
    case Created(_, _, _) => s.table.free != [] && s.table.size >= 0
    case Message(_, _) => true
    case Tick(now, fired) => Ends(s.table, now, TimedOut(), fired)
  }

  function Next(s: LogicState, e: Event): LogicState
    requires e.Created? ==> s.table.free != [] && s.table.size >= 0
  {
    match e
    case Created(logicType, delaySecs, clock) => Create(s, logicType, delaySecs, clock)
    case Message(id, finding) => Proc(s, id, finding)
    case Tick(now, fired) => Update(s, now, fired)
  }

  predicate IsFatal(s: LogicState, e: Event) {
    e.Message? && Crashes(s, e.id, e.finding)
  }

  // Nothing happens after a fatal event.
  ghost predicate IsRun(s: LogicState, events: seq<Event>)
    decreases |events|
  {
    events == [] ||
    (Possible(s, events[0])
     && (IsFatal(s, events[0]) ==> |events| == 1)
     && IsRun(Next(s, events[0]), events[1..]))
  }

  ghost function After(s: LogicState, events: seq<Event>): LogicState
    requires IsRun(s, events)
    decreases |events|
  {
    if events == [] then s else After(Next(s, events[0]), events[1..])
  }

  lemma NextKeepsJoint(s: LogicState, e: Event)
    requires Joint(s) && Possible(s, e)
    ensures Joint(Next(s, e))
  {
    match e
    case Created(logicType, delaySecs, clock) => CreateKeepsJoint(s, logicType, delaySecs, clock);
    case Message(id, finding) => ProcKeepsJoint(s, id, finding);
    case Tick(now, fired) => UpdateKeepsJoint(s, now, fired);
  }

  function Started(heapSize: nat, seed: int): LogicState
    requires heapSize >= 1
  {
    LogicState(Initial(heapSize, seed), map[])
  }

  // Over every run the table of instances and the timer heap agree.
  lemma {:induction false} JointAlways(s: LogicState, events: seq<Event>)
    requires Joint(s) && IsRun(s, events)
    ensures Joint(After(s, events))
    decreases |events|
  {
    if events != [] {
      NextKeepsJoint(s, events[0]);
      JointAlways(Next(s, events[0]), events[1..]);
    }
  }

  lemma JointFromStart(heapSize: nat, seed: int, events: seq<Event>)
    requires heapSize >= 1 && IsRun(Started(heapSize, seed), events)
    ensures Joint(After(Started(heapSize, seed), events))
  {
    InitialWellFormed(heapSize, seed);
    JointAlways(Started(heapSize, seed), events);
  }

  // ----- an instance's life -----

  // The instance is there before the run and after each of its events, none of
  // which is fatal.
  ghost predicate LivesThrough(s: LogicState, events: seq<Event>, id: int)
    requires IsRun(s, events)
    decreases |events|
  {
    id in s.logics &&
    (events != [] ==> !IsFatal(s, events[0]) && LivesThrough(Next(s, events[0]), events[1..], id))
  }

  function MessagesTo(events: seq<Event>, id: int): nat {
    if events == [] then 0
    else (if events[0].Message? && events[0].id == id then 1 else 0) + MessagesTo(events[1..], id)
  }

  // Each event leaves an instance alone, moves it on to a later step, or
  // removes it.
  lemma NextOnInstance(s: LogicState, e: Event, id: int)
    requires Joint(s) && Possible(s, e) && !IsFatal(s, e) && id in s.logics && id in Next(s, e).logics
    ensures Next(s, e).logics[id].logicType == s.logics[id].logicType
    ensures Next(s, e).logics[id].step >= s.logics[id].step + (if e.Message? && e.id == id then 1 else 0)
  {
  }

  lemma {:induction false} StepsBoundMessages(s: LogicState, events: seq<Event>, id: int)
    requires Joint(s) && IsRun(s, events) && LivesThrough(s, events, id)
    ensures s.logics[id].step + MessagesTo(events, id) < StepCount(s.logics[id].logicType)
    decreases |events|
  {
    assert GoodHead(id, s.logics[id]);
    if events != [] {
      NextKeepsJoint(s, events[0]);
      NextOnInstance(s, events[0], id);
      StepsBoundMessages(Next(s, events[0]), events[1..], id);
    }
  }

  // In any run, however it interleaves with others, an instance handles fewer
  // messages than its logic has steps without being removed: a login is gone
  // by its third message. Once it is gone so is its timer.
  lemma InstanceEnds(s: LogicState, events: seq<Event>, id: int)
    requires Joint(s) && IsRun(s, events) && id in s.logics
    requires MessagesTo(events, id) >= if s.logics[id].logicType == LOGIC_LOGIN then 3 else 2
    ensures !LivesThrough(s, events, id)
  {
    if LivesThrough(s, events, id) {
      assert GoodHead(id, s.logics[id]);
      StepsBoundMessages(s, events, id);
    }
  }

  // An event ends the process exactly if it is a message to a login in its last
  // step whose player is gone by then, or whose answer has a city that cannot
  // be added.
  lemma FatalIff(s: LogicState, e: Event)
    requires Joint(s)
    ensures IsFatal(s, e) <==>
              && e.Message? && e.id in s.logics
              && s.logics[e.id].logicType == LOGIC_LOGIN && s.logics[e.id].step == 2
              && (!e.finding.playerFound || (e.finding.answerOk && !e.finding.citiesFit))
  {
    if e.Message? && e.id in s.logics {
      assert GoodHead(e.id, s.logics[e.id]);
    }
  }

  // An instance created at clock c with a delay of d seconds is still there
  // after an update exactly if that comes before c + d.
  lemma CreatedTimesOut(s: LogicState, logicType: int, d: int, c: int, now: int, fired: seq<int>)
    requires Joint(s) && Known(logicType) && d > 0 && s.table.free != []
    requires Ends(Create(s, logicType, d, c).table, now, TimedOut(), fired)
    ensures var id, s' := CreatedId(s, d), Create(s, logicType, d, c);
            && id in s'.logics && id in s'.table.timers && s'.table.timers[id].interval == d * 1000000
            && (id in Update(s', now, fired).logics <==> now < (c + d) * 1000000)
  {
    CreateIsFresh(s, logicType, d, c);
    CreateKeepsJoint(s, logicType, d, c);
    RegisterMeans(s.table, d * 1000000, c * 1000000 + d * 1000000, true, now);
    UpdateRemovesDue(Create(s, logicType, d, c), now, fired);
  }

  // Something is created exactly for the four types that have a logic, but for
  // a second instance without a delay.
  lemma CreatedIff(s: LogicState, logicType: int, d: int, c: int)
    requires Joint(s) && s.table.free != []
    ensures Create(s, logicType, d, c) != s <==>
              && logicType in {LOGIC_NORMAL_REG, LOGIC_QUICK_REG, LOGIC_LOGIN, LOGIC_UPDATE_PLAYER}
              && (d > 0 || 0 !in s.logics)
  {
    if Known(logicType) {
      CreateIsFresh(s, logicType, d, c);
      var id := CreatedId(s, d);
      assert id !in s.logics ==> id in Create(s, logicType, d, c).logics;
    }
  }

  // A message touches its own instance only ...
  lemma ProcTouchesOne(s: LogicState, id: int, f: Finding, i: int)
    requires i != id
    ensures var s' := Proc(s, id, f);
            (i in s'.logics <==> i in s.logics) && (i in s.logics ==> s'.logics[i] == s.logics[i])
  {
  }

  // ... and no timer but its own, that only when the instance goes.
  lemma ProcStopsOne(s: LogicState, id: int, f: Finding)
    requires WellFormed(s.table)
    ensures var s' := Proc(s, id, f);
            s'.table.timers ==
            if id in s.logics && id !in s'.logics then s.table.timers - {id} else s.table.timers
  {
    ZeroNotLive(s);
    assert id !in s.table.timers ==> s.table.timers - {id} == s.table.timers;
  }

  ghost predicate IsAt(s: LogicState, id: int, logicType: int, step: int) {
    id in s.logics && s.logics[id].logicType == logicType && s.logics[id].step == step
  }

  // A login survives its first message exactly if the player is found, account
  // and password are good, and an old player bound to the uid is found.
  lemma LoginFirst(s: LogicState, id: int, f: Finding)
    requires IsAt(s, id, LOGIC_LOGIN, 0)
    ensures !Crashes(s, id, f)
    ensures id in Proc(s, id, f).logics <==>
              f.playerFound && f.accountOk && f.passwordOk && (f.oldPlayerBound ==> f.oldPlayerFound)
  {
  }

  // Its second exactly if there was an old player and that is saved; without
  // one the second message already brings the player's data.
  lemma LoginSecond(s: LogicState, id: int, f: Finding, g: Finding)
    requires IsAt(s, id, LOGIC_LOGIN, 0) && id in Proc(s, id, f).logics
    ensures var s' := Proc(s, id, f);
            && (Crashes(s', id, g) <==>
                  !f.oldPlayerBound && (!g.playerFound || (g.answerOk && !g.citiesFit)))
            && (!Crashes(s', id, g) ==>
                  (id in Proc(s', id, g).logics <==> f.oldPlayerBound && g.playerFound && g.answerOk))
  {
  }

  lemma LoginThird(s: LogicState, id: int, f: Finding, g: Finding, h: Finding)
    requires IsAt(s, id, LOGIC_LOGIN, 0) && id in Proc(s, id, f).logics
    requires !Crashes(Proc(s, id, f), id, g) && id in Proc(Proc(s, id, f), id, g).logics
    ensures var s' := Proc(Proc(s, id, f), id, g);
            && (Crashes(s', id, h) <==> !h.playerFound || (h.answerOk && !h.citiesFit))
            && (!Crashes(s', id, h) ==> id !in Proc(s', id, h).logics)
  {
  }

  // The other logics survive their first message exactly as follows, and never
  // their second.
  lemma OthersTakeTwo(s: LogicState, id: int, logicType: int, f: Finding, g: Finding)
    requires logicType in {LOGIC_NORMAL_REG, LOGIC_QUICK_REG, LOGIC_UPDATE_PLAYER}
    requires IsAt(s, id, logicType, 0)
    ensures var s' := Proc(s, id, f);
            && (id in s'.logics <==>
                  f.playerFound
                  && (logicType == LOGIC_NORMAL_REG ==> f.sizesFit && f.accountOk && f.passwordOk))
            && id !in Proc(s', id, g).logics
  {
  }

  lemma GoneMeansNoTimer(s: LogicState, id: int)
    requires Joint(s) && id != 0
    ensures id in s.logics <==> id in s.table.timers
  {
  }

  // A message for an id that is not there changes nothing.
  lemma DeadIdIsIgnored(s: LogicState, id: int, f: Finding)
    requires Joint(s) && id !in s.table.timers && id != 0
    ensures Proc(s, id, f) == s
  {
  }
}

module LogicModules {
  import opened TimeValues
  import opened Randoms
  import opened TimerTables
  import opened TimerPolling
  import opened HeapTimers
  import opened LogicSteps
  import opened LogicStates

  class LogicData {
    var logicId: int
    var logicType: int
    var step: int

    constructor (id: int, kind: int)
      ensures View() == LogicHead(id, kind, 0)
    {
      logicId, logicType, step := id, kind, 0;
    }

    ghost function View(): LogicHead
      reads this
    {
      LogicHead(logicId, logicType, step)
    }
  }

  class LogicModule {
    var heapTimer: HeapTimer
    var logicDataMap: map<int, LogicData>
    ghost var logics: map<int, LogicHead>   // what the records of logicDataMap say

    ghost predicate Shows()
      reads `logicDataMap, `logics, logicDataMap.Values
    {
      && logics.Keys == logicDataMap.Keys
      && forall id {:trigger logicDataMap[id]} | id in logicDataMap :: logicDataMap[id].View() == logics[id]
    }

    ghost function State(): LogicState
      reads `heapTimer, `logics, heapTimer, heapTimer.randMaker
    {
      LogicState(heapTimer.Table(), logics)
    }

    ghost predicate Valid()
      reads this, logicDataMap.Values
      reads heapTimer, heapTimer.heap, heapTimer.index, heapTimer.rands, heapTimer.book.used.Values, heapTimer.randMaker
    {
      heapTimer.Valid() && Shows() && Joint(State())
    }

    constructor (timerInitSize: nat, clock: Int32)
      requires 1 <= timerInitSize < 0x7fff_ffff
      ensures Valid() && State() == Started(timerInitSize, clock)
    {
      heapTimer := new HeapTimer(timerInitSize, clock);
      logicDataMap, logics := map[], map[];
      new;
      InitialWellFormed(timerInitSize, clock);
    }

    // A waiting time of 0 is for a task that ends at once and needs no timer.
    method StartTimer(delaySecs: int, clock: int) returns (id: int)
      requires heapTimer.Valid() && Shows()
      requires heapTimer.curSize + 2 < heapTimer.heapSize || heapTimer.heapSize < 0x4000_0000
      modifies heapTimer, heapTimer.heap, heapTimer.index, heapTimer.rands, heapTimer.randMaker
      ensures heapTimer.Valid() && Shows()
      ensures old(heapTimer.Table()).free != []
      ensures id == CreatedId(LogicState(old(heapTimer.Table()), logics), delaySecs)
      ensures heapTimer.Table() ==
              if delaySecs > 0 then
                Register(old(heapTimer.Table()), delaySecs * 1000000, clock * 1000000 + delaySecs * 1000000, true)
              else old(heapTimer.Table())
    {
      heapTimer.ValidTable();
      if delaySecs <= 0 {
        return 0;
      }
      id := heapTimer.RegisterTimer(RawTime(delaySecs, 0), RawTime(delaySecs, 0), true, clock);
    }

    method InsertData(id: int, logicType: int)
      requires heapTimer.Valid()
      requires Shows()
      modifies `logicDataMap, `logics
      ensures heapTimer.Valid() && heapTimer.Table() == old(heapTimer.Table())
      ensures Shows()
      ensures logics == if id in old(logics) then old(logics) else old(logics)[id := LogicHead(id, logicType, 0)]
    {
      var data := new LogicData(id, logicType);
      if id !in logicDataMap {
        logicDataMap := logicDataMap[id := data];
        logics := logics[id := data.View()];
      }
    }

    method CreateLogic(logicType: int, delaySecs: int, clock: int) returns (id: int)
      requires Valid()
      requires heapTimer.curSize + 2 < heapTimer.heapSize || heapTimer.heapSize < 0x4000_0000
      modifies `logicDataMap, `logics
      modifies heapTimer, heapTimer.heap, heapTimer.index, heapTimer.rands, heapTimer.randMaker
      ensures Valid() && old(State()).table.free != []
      ensures id == if Known(logicType) then CreatedId(old(State()), delaySecs) else -1
      ensures State() == Create(old(State()), logicType, delaySecs, clock)
    {
      CreateKeepsJoint(State(), logicType, delaySecs, clock);
      if !Known(logicType) {
        return -1;
      }
      id := StartTimer(delaySecs, clock);
      InsertData(id, logicType);
    }

    method DeleteLogicData(id: int)
      requires heapTimer.Valid()
      requires Shows()
      modifies `logicDataMap, `logics
      ensures heapTimer.Valid() && heapTimer.Table() == old(heapTimer.Table())
      ensures Shows() && logics == old(logics) - {id}
    {
      if id in logicDataMap {
        logicDataMap := logicDataMap - {id};
      }
      logics := logics - {id};
    }

    method GetLogicData(id: int) returns (data: LogicData?)
      requires Shows()
      ensures data == null <==> id !in logics
      ensures data != null ==> id in logicDataMap && data == logicDataMap[id] && data.View() == logics[id]
    {
      if id in logicDataMap {
        return logicDataMap[id];
      }
      return null;
    }

    // The heap and the table of instances after the callbacks of a poll.
    method OnTimers(fired: seq<int>)
      requires heapTimer.Valid()
      requires Shows()
      modifies `logicDataMap, `logics
      ensures heapTimer.Valid() && heapTimer.Table() == old(heapTimer.Table())
      ensures Shows() && logics == old(logics) - Members(fired)
    {
      for k := 0 to |fired|
        invariant heapTimer.Valid() && heapTimer.Table() == old(heapTimer.Table())
        invariant Shows() && logics == old(logics) - Members(fired[..k])
      {
        assert Members(fired[..k + 1]) == Members(fired[..k]) + {fired[k]};
        DeleteLogicData(fired[k]);
      }
      assert fired[..|fired|] == fired;
    }

    method PollTimers(now: TimeValue) returns (fired: seq<int>)
      requires heapTimer.Valid() && Shows() && CanEnd(heapTimer.Table(), Us(now), TimedOut())
      modifies heapTimer, heapTimer.heap, heapTimer.index, heapTimer.rands, heapTimer.book.used.Values
      ensures heapTimer.Valid() && Shows()
      ensures Ends(old(heapTimer.Table()), Us(now), TimedOut(), fired)
      ensures heapTimer.Table() == FireAll(old(heapTimer.Table()), Us(now), TimedOut(), fired)
    {
      fired := heapTimer.TimerPoll(now, TimedOut());
    }

    method Update(now: TimeValue) returns (fired: seq<int>)
      requires Valid()
      modifies `logicDataMap, `logics
      modifies heapTimer, heapTimer.heap, heapTimer.index, heapTimer.rands, heapTimer.book.used.Values
      ensures Valid()
      ensures Ends(old(State()).table, Us(now), TimedOut(), fired)
      ensures State() == LogicStates.Update(old(State()), Us(now), fired)
    {
      TimedOutEnds(State(), Us(now));
      ghost var s := State();
      fired := PollTimers(now);
      UpdateKeepsJoint(s, Us(now), fired);
      OnTimers(fired);
    }

    method ChangeStep(id: int, step: int)
      requires heapTimer.Valid()
      requires Shows() && id in logicDataMap && Distinguished()
      modifies `logics, logicDataMap[id]
      ensures heapTimer.Valid() && heapTimer.Table() == old(heapTimer.Table())
      ensures Shows() && logics == old(logics)[id := old(logics)[id].(step := step)]
    {
      logicDataMap[id].step := step;
      logics := logics[id := logics[id].(step := step)];
    }

    // Two ids have two records.
    ghost predicate Distinguished()
      reads `logics
    {
      forall id | id in logics :: logics[id].logicId == id
    }

    // Only live ids and 0 are passed on, so the lookup stays within the arrays.
    method StopTimer(id: int)
      requires heapTimer.Valid() && Shows() && SlotOf(id) != heapTimer.heapSize
      modifies heapTimer`curSize, heapTimer`freeHead, heapTimer`book, heapTimer.heap, heapTimer.index, heapTimer.rands
      modifies heapTimer.book.used.Values`timerId
      ensures heapTimer.Valid() && Shows()
      ensures heapTimer.Table() == if id == 0 then old(heapTimer.Table()) else Unregister(old(heapTimer.Table()), id)
    {
      if id == 0 {
        return;
      }
      var r := heapTimer.UnregisterTimer(id);
      assert r == InBounds;
    }

    method EndLogic(id: int)
      requires heapTimer.Valid() && Shows() && SlotOf(id) != heapTimer.heapSize
      modifies `logicDataMap, `logics
      modifies heapTimer`curSize, heapTimer`freeHead, heapTimer`book, heapTimer.heap, heapTimer.index, heapTimer.rands
      modifies heapTimer.book.used.Values`timerId
      ensures heapTimer.Valid() && Shows() && logics == old(logics) - {id}
      ensures heapTimer.Table() == if id == 0 then old(heapTimer.Table()) else Unregister(old(heapTimer.Table()), id)
    {
      DeleteLogicData(id);
      StopTimer(id);
    }

    // A step that yields has moved its instance on; any other ends it.
    method Settle(id: int, r: StepResult)
      requires r.StepResult?
      requires heapTimer.Valid() && Shows() && id in logics && Distinguished() && SlotOf(id) != heapTimer.heapSize
      modifies `logicDataMap, `logics, logicDataMap.Values
      modifies heapTimer`curSize, heapTimer`freeHead, heapTimer`book, heapTimer.heap, heapTimer.index, heapTimer.rands
      modifies heapTimer.book.used.Values`timerId
      ensures heapTimer.Valid() && Shows() && State() == Conclude(old(State()), id, r)
    {
      if r.ret == LOGIC_YIELD {
        ChangeStep(id, r.step);
        return;
      }
      EndLogic(id);
    }

    // Runs the instance's next step. False where it dereferences NULL.
    method Proc(id: int, f: Finding) returns (ok: bool)
      requires Valid()
      modifies `logicDataMap, `logics, logicDataMap.Values
      modifies heapTimer`curSize, heapTimer`freeHead, heapTimer`book, heapTimer.heap, heapTimer.index, heapTimer.rands
      modifies heapTimer.book.used.Values`timerId
      ensures Valid() && State() == LogicStates.Proc(old(State()), id, f)
      ensures ok <==> !Crashes(old(State()), id, f)
    {
      ProcKeepsJoint(State(), id, f);
      var data := GetLogicData(id);
      if data == null {
        return true;
      }
      KnownData(id);
      var r := Dispatch(data.logicType, data.step, f);
      ok := r.StepResult?;
      if ok {
        Settle(id, r);
      }
    }

    lemma KnownData(id: int)
      requires Valid() && id in logics
      ensures Distinguished() && SlotOf(id) != heapTimer.heapSize
    {
    }
  }
}
