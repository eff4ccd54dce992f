// The step tables of the asynchronous logics: src/gamesvr/logic_module/logic.
// What a step finds outside (players, checks of the message, the answer of the
// data server) comes in as a Finding.
module LogicSteps {
  const LOGIC_FAILED := -1
  const LOGIC_YIELD := 0
  const LOGIC_FINISH := 99

  const LOGIC_NORMAL_REG := 1
  const LOGIC_QUICK_REG := 2
  const LOGIC_LOGIN := 3
  const LOGIC_UPDATE_PLAYER := 4

  datatype Finding = Finding(
    playerFound: bool,
    sizesFit: bool,         // account and password fit their fields
    accountOk: bool,
    passwordOk: bool,
    oldPlayerBound: bool,   // the uid is bound to a player already
    oldPlayerFound: bool,
    answerOk: bool,         // the data server reports success
    citiesFit: bool)        // every city it sends is added to the player

  // A step's return code and the step it leaves behind, or its end on a NULL
  // player or city.
  datatype StepResult = StepResult(ret: int, step: int) | NullDereference

  predicate Known(logicType: int) {
    LOGIC_NORMAL_REG <= logicType <= LOGIC_UPDATE_PLAYER
  }

  function StepCount(logicType: int): int {
    if logicType == LOGIC_LOGIN then 3 else 2
  }

  // The last step tests neither the player nor, before it is used, a city.
  function LoginStep(step: int, f: Finding): StepResult {
    if step == 0 then
      if !f.playerFound || !f.accountOk || !f.passwordOk then StepResult(LOGIC_FAILED, 0)
      else if f.oldPlayerBound then
        if !f.oldPlayerFound then StepResult(LOGIC_FAILED, 0) else StepResult(LOGIC_YIELD, 1)
      else StepResult(LOGIC_YIELD, 2)
    else if step == 1 then
      if !f.playerFound || !f.answerOk then StepResult(LOGIC_FAILED, 1) else StepResult(LOGIC_YIELD, 2)
    else if !f.playerFound || (f.answerOk && !f.citiesFit) then NullDereference
    else StepResult(LOGIC_FINISH, step)
  }

  function NormalRegStep(step: int, f: Finding): StepResult {
    if step == 0 then
      if !f.sizesFit || !f.playerFound || !f.accountOk || !f.passwordOk then StepResult(LOGIC_FAILED, 0)
      else StepResult(LOGIC_YIELD, 1)
    else if !f.playerFound then StepResult(LOGIC_FAILED, step)
    else StepResult(LOGIC_FINISH, step)
  }

  function QuickRegStep(step: int, f: Finding): StepResult {
    if !f.playerFound then StepResult(LOGIC_FAILED, step)
    else if step == 0 then StepResult(LOGIC_YIELD, 1)
    else StepResult(LOGIC_FINISH, step)
  }

  function UpdatePlayerStep(step: int, f: Finding): StepResult {
    if step == 0 then
      if !f.playerFound then StepResult(LOGIC_FAILED, 0) else StepResult(LOGIC_YIELD, 1)
    else StepResult(LOGIC_FINISH, step)
  }

  // LogicBase::Proc: the step indexes the table of the logic's type.
  function Dispatch(logicType: int, step: int, f: Finding): StepResult {
    if step < 0 || step >= StepCount(logicType) then StepResult(LOGIC_FAILED, step)
    else if logicType == LOGIC_NORMAL_REG then NormalRegStep(step, f)
    else if logicType == LOGIC_QUICK_REG then QuickRegStep(step, f)
    else if logicType == LOGIC_LOGIN then LoginStep(step, f)
    else UpdatePlayerStep(step, f)
  }

  predicate Yields(r: StepResult) {
    r.StepResult? && r.ret == LOGIC_YIELD
  }

  // A logic that yields has moved on to a later step of its table, so the
  // last step never yields.
  lemma YieldMovesOn(logicType: int, step: int, f: Finding)
    requires Yields(Dispatch(logicType, step, f))
    ensures 0 <= step < Dispatch(logicType, step, f).step < StepCount(logicType)
  {
  }

  // ----- whole lives -----

  // The result of the last step that a logic takes on the given messages.
  function Last(logicType: int, step: int, findings: seq<Finding>): StepResult
    requires findings != []
    decreases |findings|
  {
    var r := Dispatch(logicType, step, findings[0]);
    if |findings| == 1 || !Yields(r) then r else Last(logicType, r.step, findings[1..])
  }

  lemma LastOfTwo(logicType: int, step: int, f: Finding, g: Finding)
    ensures var r := Dispatch(logicType, step, f);
            Last(logicType, step, [f, g]) == if Yields(r) then Dispatch(logicType, r.step, g) else r
  {
    assert [f, g][1..] == [g];
  }

  // The messages on which a login comes to its end: the player and the account
  // are found good first; an old player bound to the uid is saved in between.
  lemma LoginFinishesIff(f: Finding, g: Finding, h: Finding)
    ensures var starts := f.playerFound && f.accountOk && f.passwordOk && (f.oldPlayerBound ==> f.oldPlayerFound);
            var saved := g.playerFound && g.answerOk;
            var last, answer := Last(LOGIC_LOGIN, 0, [f, g, h]), if f.oldPlayerBound then h else g;
            var safe := answer.playerFound && (answer.answerOk ==> answer.citiesFit);
            && (last.StepResult? && last.ret == LOGIC_FINISH <==> starts && (f.oldPlayerBound ==> saved) && safe)
            && (last.StepResult? && last.ret == LOGIC_FAILED <==> !starts || (f.oldPlayerBound && !saved))
  {
    assert [f, g, h][1..] == [g, h];
    LastOfTwo(LOGIC_LOGIN, 1, g, h);
    LastOfTwo(LOGIC_LOGIN, 2, g, h);
  }

  lemma NormalRegFinishesIff(f: Finding, g: Finding)
    ensures var last := Last(LOGIC_NORMAL_REG, 0, [f, g]);
            && last.StepResult?
            && (last.ret == LOGIC_FINISH <==>
                  f.sizesFit && f.playerFound && f.accountOk && f.passwordOk && g.playerFound)
            && (last.ret == LOGIC_FAILED <==> last.ret != LOGIC_FINISH)
  {
    LastOfTwo(LOGIC_NORMAL_REG, 0, f, g);
  }

  lemma QuickRegFinishesIff(f: Finding, g: Finding)
    ensures var last := Last(LOGIC_QUICK_REG, 0, [f, g]);
            && last.StepResult?
            && (last.ret == LOGIC_FINISH <==> f.playerFound && g.playerFound)
            && (last.ret == LOGIC_FAILED <==> last.ret != LOGIC_FINISH)
  {
    LastOfTwo(LOGIC_QUICK_REG, 0, f, g);
  }

  lemma UpdatePlayerFinishesIff(f: Finding, g: Finding)
    ensures var last := Last(LOGIC_UPDATE_PLAYER, 0, [f, g]);
            && last.StepResult?
            && (last.ret == LOGIC_FINISH <==> f.playerFound)
            && (last.ret == LOGIC_FAILED <==> !f.playerFound)
  {
    LastOfTwo(LOGIC_UPDATE_PLAYER, 0, f, g);
  }
}
