/**
  The colony research admin command: `research <colonyId> list|complete|cancel [researchId]`.

  One call is a pure step from the invocation and the resolved colony's
  in-progress list to a return code (1 success, 0 failure), the new list and
  the messages sent to the invoker.  The collaborators the command calls are
  parameters:
  - whether the command source has a player and whether the colony id
    resolved (`hasPlayer`, `colonyFound`);
  - whether the source has OP permission (`isOp`);
  - the global research tree's base time of a branch at a depth (`baseTime`);
  - the research time constant BASE_RESEARCH_TIME (`unit`);
  - `attemptResetResearch`, whose effect is not visible here, as `reset`,
    given the invocation (and so the invoking player), the list and the
    index of the research to reset.
 */
module ResearchCommand {
  import opened JavaString
  import opened TimeEstimate
  import opened Research

  /** What the command is asked to do and by whom. */
  datatype Invocation = Invocation(
    hasPlayer: bool,
    isOp: bool,
    colonyId: int,
    command: string,
    researchId: string)

  /** The messages the command sends, without their text or styling. */
  datatype Message =
    | ColonyIdNotFound(colonyId: int)
    | NoResearchInProgress
    | Entry(id: string, timeLeft: Duration)
    | ResearchIdNotFound(id: string)
    | RequiresOp
    | ProgressSetToMax

  datatype Outcome = Outcome(code: int, inProgress: seq<LocalResearch>, messages: seq<Message>)

  /** A research id that `trim` reduces to the empty string. */
  predicate IsBlank(s: string)
  {
    forall i :: 0 <= i < |s| ==> IsTrimmable(s[i])
  }

  /** The `list` report: one entry per in-progress research, in list order. */
  function ListReport(inProgress: seq<LocalResearch>, baseTime: (string, int) -> int, unit: int): seq<Message>
    requires unit > 0
  {
    if |inProgress| == 0 then
      [NoResearchInProgress]
    else
      seq(|inProgress|, k requires 0 <= k < |inProgress| =>
        Entry(inProgress[k].id, Estimate(Remaining(inProgress[k], baseTime), unit)))
  }

  /**
    One execution of the command.  Every failure leaves the list as it was;
    success needs a player, a resolved colony and a known subcommand.
   */
  function Execute(
    inv: Invocation,
    colonyFound: bool,
    inProgress: seq<LocalResearch>,
    baseTime: (string, int) -> int,
    unit: int,
    reset: (Invocation, seq<LocalResearch>, int) -> seq<LocalResearch>): (r: Outcome)
    requires unit > 0
    ensures r.code == 0 || r.code == 1
    ensures r.code == 0 ==> r.inProgress == inProgress
    ensures r.code == 1 ==> inv.hasPlayer && colonyFound
    ensures r.code == 1 ==> inv.command == "list" || inv.command == "complete" || inv.command == "cancel"
  {
    if !inv.hasPlayer then
      Outcome(0, inProgress, [])
    else if !colonyFound then
      Outcome(0, inProgress, [ColonyIdNotFound(inv.colonyId)])
    else if inv.command == "list" then
      Outcome(1, inProgress, ListReport(inProgress, baseTime, unit))
    else if inv.command == "complete" || inv.command == "cancel" then
      if Trim(inv.researchId) == "" then
        Outcome(0, inProgress, [ResearchIdNotFound("NULL")])
      else
        match LastIndexOf(inProgress, inv.researchId)
        case None =>
          Outcome(0, inProgress, [ResearchIdNotFound(inv.researchId)])
        case Some(i) =>
          if inv.command == "complete" then
            if !inv.isOp then Outcome(0, inProgress, [RequiresOp])
            else Outcome(1, ForceComplete(inProgress, i, baseTime), [ProgressSetToMax])
          else
            Outcome(1, reset(inv, inProgress, i), [])
    else
      Outcome(0, inProgress, [ColonyIdNotFound(inv.colonyId)])
  }

  /** Without a player or a resolved colony the command fails and touches nothing. */
  lemma ExecuteRejectsWithoutPlayerOrColony(
    inv: Invocation, colonyFound: bool, inProgress: seq<LocalResearch>,
    baseTime: (string, int) -> int, unit: int, reset: (Invocation, seq<LocalResearch>, int) -> seq<LocalResearch>)
    requires unit > 0
    requires !inv.hasPlayer || !colonyFound
    ensures var r := Execute(inv, colonyFound, inProgress, baseTime, unit, reset);
      && r.code == 0
      && r.inProgress == inProgress
      && (inv.hasPlayer ==> r.messages == [ColonyIdNotFound(inv.colonyId)])
  {
  }

  /** A subcommand other than list, complete or cancel fails, reporting the colony id, and touches nothing. */
  lemma ExecuteRejectsUnknownSubcommand(
    inv: Invocation, inProgress: seq<LocalResearch>,
    baseTime: (string, int) -> int, unit: int, reset: (Invocation, seq<LocalResearch>, int) -> seq<LocalResearch>)
    requires unit > 0
    requires inv.hasPlayer
    requires inv.command != "list" && inv.command != "complete" && inv.command != "cancel"
    ensures var r := Execute(inv, true, inProgress, baseTime, unit, reset);
      && r.code == 0
      && r.inProgress == inProgress
      && r.messages == [ColonyIdNotFound(inv.colonyId)]
  {
  }

  /**
    `list` always succeeds and changes nothing.  It reports "no research in
    progress" exactly when the list is empty, and otherwise one entry per
    research, in order, carrying its id and its remaining time rounded up to a
    quarter hour.
   */
  lemma ExecuteListReports(
    inv: Invocation, inProgress: seq<LocalResearch>,
    baseTime: (string, int) -> int, unit: int, reset: (Invocation, seq<LocalResearch>, int) -> seq<LocalResearch>)
    requires unit > 0
    requires inv.hasPlayer && inv.command == "list"
    ensures var r := Execute(inv, true, inProgress, baseTime, unit, reset);
      && r.code == 1
      && r.inProgress == inProgress
      && (r.messages == [NoResearchInProgress] <==> |inProgress| == 0)
      && (|inProgress| > 0 ==> |r.messages| == |inProgress|)
      && (|inProgress| > 0 ==> forall k :: 0 <= k < |inProgress| ==>
            && r.messages[k].Entry?
            && r.messages[k].id == inProgress[k].id
            && (Remaining(inProgress[k], baseTime) >= 0 ==>
                  r.messages[k].timeLeft == FromQuarters(Quarters(Remaining(inProgress[k], baseTime), unit))))
  {
    var r := Execute(inv, true, inProgress, baseTime, unit, reset);
    if |inProgress| > 0 {
      assert r.messages[0].Entry?;
    }
  }

  /**
    `complete` or `cancel` with an id that is empty or holds only characters
    up to U+0020 (those `trim` strips) fails before any lookup, whatever the list and the
    permission, and touches nothing.
   */
  lemma ExecuteRejectsBlankId(
    inv: Invocation, inProgress: seq<LocalResearch>,
    baseTime: (string, int) -> int, unit: int, reset: (Invocation, seq<LocalResearch>, int) -> seq<LocalResearch>)
    requires unit > 0
    requires inv.hasPlayer && (inv.command == "complete" || inv.command == "cancel")
    requires IsBlank(inv.researchId)
    ensures var r := Execute(inv, true, inProgress, baseTime, unit, reset);
      && r.code == 0
      && r.inProgress == inProgress
      && r.messages == [ResearchIdNotFound("NULL")]
  {
    assert Trim(inv.researchId) == "";
  }

  /**
    `complete` or `cancel` with an id that no research has exactly fails,
    reporting that id, whatever the permission, and touches nothing.
   */
  lemma ExecuteRejectsUnknownId(
    inv: Invocation, inProgress: seq<LocalResearch>,
    baseTime: (string, int) -> int, unit: int, reset: (Invocation, seq<LocalResearch>, int) -> seq<LocalResearch>)
    requires unit > 0
    requires inv.hasPlayer && (inv.command == "complete" || inv.command == "cancel")
    requires !IsBlank(inv.researchId)
    requires forall j :: 0 <= j < |inProgress| ==> inProgress[j].id != inv.researchId
    ensures var r := Execute(inv, true, inProgress, baseTime, unit, reset);
      && r.code == 0
      && r.inProgress == inProgress
      && r.messages == [ResearchIdNotFound(inv.researchId)]
  {
    assert Trim(inv.researchId) != "";
    assert LastIndexOf(inProgress, inv.researchId) == None;
  }

  /** `complete` by a source without OP permission fails on a matching id and touches nothing. */
  lemma ExecuteCompleteRequiresOp(
    inv: Invocation, inProgress: seq<LocalResearch>,
    baseTime: (string, int) -> int, unit: int, reset: (Invocation, seq<LocalResearch>, int) -> seq<LocalResearch>)
    requires unit > 0
    requires inv.hasPlayer && !inv.isOp && inv.command == "complete"
    requires !IsBlank(inv.researchId)
    requires exists j :: 0 <= j < |inProgress| && inProgress[j].id == inv.researchId
    ensures var r := Execute(inv, true, inProgress, baseTime, unit, reset);
      && r.code == 0
      && r.inProgress == inProgress
      && r.messages == [RequiresOp]
  {
  }

  /**
    `complete` by an OP source succeeds on the last research with that id:
    its progress becomes exactly the base time of its branch and depth, it
    stays in the list, and every other research is unchanged.
   */
  lemma ExecuteCompleteByOp(
    inv: Invocation, inProgress: seq<LocalResearch>, i: int,
    baseTime: (string, int) -> int, unit: int, reset: (Invocation, seq<LocalResearch>, int) -> seq<LocalResearch>)
    requires unit > 0
    requires inv.hasPlayer && inv.isOp && inv.command == "complete"
    requires !IsBlank(inv.researchId)
    requires IsLastMatch(inProgress, inv.researchId, i)
    ensures var r := Execute(inv, true, inProgress, baseTime, unit, reset);
      && r.code == 1
      && r.messages == [ProgressSetToMax]
      && |r.inProgress| == |inProgress|
      && r.inProgress[i].progress == baseTime(inProgress[i].branch, inProgress[i].depth)
      && r.inProgress[i].id == inProgress[i].id
      && r.inProgress[i].branch == inProgress[i].branch
      && r.inProgress[i].depth == inProgress[i].depth
      && (forall j :: 0 <= j < |inProgress| && j != i ==> r.inProgress[j] == inProgress[j])
  {
    LastMatchIsUnique(inProgress, inv.researchId, i);
  }

  /** Running `complete` a second time on its own result gives the same outcome. */
  lemma ExecuteCompleteIdempotent(
    inv: Invocation, colonyFound: bool, inProgress: seq<LocalResearch>,
    baseTime: (string, int) -> int, unit: int, reset: (Invocation, seq<LocalResearch>, int) -> seq<LocalResearch>)
    requires unit > 0
    requires inv.command == "complete"
    ensures var r := Execute(inv, colonyFound, inProgress, baseTime, unit, reset);
      Execute(inv, colonyFound, r.inProgress, baseTime, unit, reset) == r
  {
    var r := Execute(inv, colonyFound, inProgress, baseTime, unit, reset);
    if r.code == 1 {
      var i := LastIndexOf(inProgress, inv.researchId).value;
      assert IsLastMatch(r.inProgress, inv.researchId, i);
      LastMatchIsUnique(r.inProgress, inv.researchId, i);
      ForceCompleteOfCompleted(r.inProgress, i, baseTime);
    }
  }

  /**
    `cancel` on a matching id succeeds whether or not the source is OP: it
    hands exactly the last research with that id to the reset collaborator
    and returns what that leaves.  The command itself makes no OP check: a
    source with the other permission gets the same code and messages, and
    the same index handed to the reset.
   */
  lemma ExecuteCancelDelegates(
    inv: Invocation, inProgress: seq<LocalResearch>, i: int,
    baseTime: (string, int) -> int, unit: int, reset: (Invocation, seq<LocalResearch>, int) -> seq<LocalResearch>)
    requires unit > 0
    requires inv.hasPlayer && inv.command == "cancel"
    requires !IsBlank(inv.researchId)
    requires IsLastMatch(inProgress, inv.researchId, i)
    ensures var r := Execute(inv, true, inProgress, baseTime, unit, reset);
      && r.code == 1
      && r.inProgress == reset(inv, inProgress, i)
      && r.messages == []
      && var flipped := inv.(isOp := !inv.isOp);
         var r' := Execute(flipped, true, inProgress, baseTime, unit, reset);
         && r'.code == r.code
         && r'.messages == r.messages
         && r'.inProgress == reset(flipped, inProgress, i)
  {
    LastMatchIsUnique(inProgress, inv.researchId, i);
  }
}
