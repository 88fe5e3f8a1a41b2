# MineColonies research admin command, modelled in Dafny

This project models the `research` colony command of MineColonies
(`CommandResearch`). A player runs `research <colonyId> list|complete|cancel [researchId]`
to inspect a colony's in-progress research, force a research to its maximum progress,
or cancel it (only `complete` checks for OP permission). The model has four modules:

- `TimeEstimate` (`time_estimate.dfy`) is the "time remaining" estimate that `list`
  prints for each research. The command computes on doubles; the model computes
  the same steps on exact integers. Java's truncating `(int)` cast, its
  sign-of-dividend `%` on doubles and `Math.ceil` are each written out. The estimate is related to an independent reference: the remaining
  time in quarter hours, rounded up (`Quarters`), shown as hours and minutes
  (`FromQuarters`).
- `JavaString` (`java_string.dfy`) is Java's `String.trim()`. The command uses it to
  reject a missing research id. `trim` strips every character up to U+0020, not only
  spaces.
- `Research` (`research.dfy`) holds the in-progress research records. It has the
  backward search loop for an id, its reference definition `LastIndexOf`, and the
  force-to-maximum update.
- `ResearchCommand` (`research_command.dfy`) is one execution of the command as a pure
  step. It maps the invocation and the colony's in-progress list to a return code
  (1 success, 0 failure), the new list and the messages sent to the invoker. The
  lemmas state what each path does.

The collaborators are parameters of the step:

- whether the source has a player;
- whether the colony id resolved;
- whether the source has OP permission;
- the research tree's base time per branch and depth (`baseTime`);
- the constant `BASE_RESEARCH_TIME` (`unit`, positive);
- `attemptResetResearch` (`reset`, given the invocation with its player, the list and the index of the research).

The code differs from what a reader might expect in three places, and the model follows
the code each time:

- `cancel` is not gated on OP permission, although the comment at
  CommandResearch.java:92 says only OP players may complete or cancel.
  `ExecuteCancelDelegates` proves that the command's code and messages do not depend
  on `isOp` and that it hands the same research to the reset either way. What the
  reset itself does may depend on the invoking player.
- An unknown subcommand fails with the "colony id not found" message
  (CommandResearch.java:140-144).
- One displayed hour is `2 * BASE_RESEARCH_TIME` progress units, and one quarter hour
  is half of `BASE_RESEARCH_TIME`. Take 75 units remaining with `BASE_RESEARCH_TIME = 60`:
  that is two and a half quarters, so the command shows `0:45`. It does not show `1:15`,
  which is what you get if you read the constant as units per hour
  (`EstimateSeventyFiveOfSixty`).

## Model

| member | source | states |
|---|---|---|
| TimeEstimate.Estimate | src/main/java/com/minecolonies/coremod/commands/colonycommands/CommandResearch.java:171-183 | For a non-negative remainder, the hours-then-increments computation, with its carry at four increments, equals the remaining time in quarter hours rounded up, split into hours and minutes. |
| TimeEstimate.Quarters | src/main/java/com/minecolonies/coremod/commands/colonycommands/CommandResearch.java:171-183 | The quarter-hour count covers the remaining time and exceeds it by less than one quarter hour. |
| TimeEstimate.SplitIsQuarters | src/main/java/com/minecolonies/coremod/commands/colonycommands/CommandResearch.java:172-173 | For a non-negative remainder, the increments are between 0 and 4. Four times the hours plus the increments is the rounded-up quarter-hour count. |
| TimeEstimate.EstimateRoundsUpToQuarterHour | src/main/java/com/minecolonies/coremod/commands/colonycommands/CommandResearch.java:171-183 | Minutes are always 0, 15, 30 or 45, never 60, and hours are non-negative. The quarter hours displayed equal ceil(2·remaining / unit). The displayed time is at least the remaining time and less than one quarter hour above it. |
| TimeEstimate.EstimateOfZero | src/main/java/com/minecolonies/coremod/commands/colonycommands/CommandResearch.java:171-183 | A research at its maximum progress shows 0:00. |
| TimeEstimate.EstimateExactOnQuarterBoundary | src/main/java/com/minecolonies/coremod/commands/colonycommands/CommandResearch.java:173 | A remainder that is a whole number of quarter hours is shown exactly, without rounding up. |
| TimeEstimate.EstimateMonotone | src/main/java/com/minecolonies/coremod/commands/colonycommands/CommandResearch.java:171-183 | More progress still to go never shows a shorter estimate. |
| TimeEstimate.EstimateSeventyFiveOfSixty | src/main/java/com/minecolonies/coremod/commands/colonycommands/CommandResearch.java:171-183 | Worked case: 75 units left with a research time constant of 60 shows 0:45. |
| JavaString.Trim | src/main/java/com/minecolonies/coremod/commands/colonycommands/CommandResearch.java:96 | The trimmed id is the part of the input left after dropping characters up to U+0020 at both ends. It is empty exactly when every character of the id is such a character. |
| Research.LastIndexOf | src/main/java/com/minecolonies/coremod/commands/colonycommands/CommandResearch.java:103-110 | Finds the last index whose id equals the given id exactly. It is None exactly when no record has that id. |
| Research.LastMatchIsUnique | src/main/java/com/minecolonies/coremod/commands/colonycommands/CommandResearch.java:105-110 | Any index that matches with no later match is the one the lookup returns, so at most one record is acted on. |
| Research.ScanForId | src/main/java/com/minecolonies/coremod/commands/colonycommands/CommandResearch.java:103-110 | The backward loop that stops at the first hit finds a record exactly when some record has the id. When it does, it finds the last such record, the same one as the reference lookup. |
| Research.ForceComplete | src/main/java/com/minecolonies/coremod/commands/colonycommands/CommandResearch.java:120-124 | The chosen record has nothing left to do. It keeps its id, branch, depth and place in the list, and every other record is unchanged. |
| Research.ForceCompleteOfCompleted | src/main/java/com/minecolonies/coremod/commands/colonycommands/CommandResearch.java:123-124 | Forcing a record that is already at its maximum leaves the list unchanged. |
| ResearchCommand.Execute | src/main/java/com/minecolonies/coremod/commands/colonycommands/CommandResearch.java:67-148 | The return code is 0 or 1. Every failure leaves the list unchanged. Success needs a player, a resolved colony and one of the three subcommands. |
| ResearchCommand.ExecuteRejectsWithoutPlayerOrColony | src/main/java/com/minecolonies/coremod/commands/colonycommands/CommandResearch.java:72-85 | Without a player, or with an unresolved colony, the command returns 0 and leaves the list unchanged. An unresolved colony is reported by its id. |
| ResearchCommand.ExecuteRejectsUnknownSubcommand | src/main/java/com/minecolonies/coremod/commands/colonycommands/CommandResearch.java:140-144 | A subcommand other than list, complete or cancel returns 0, reports the colony id and leaves the list unchanged. |
| ResearchCommand.ExecuteListReports | src/main/java/com/minecolonies/coremod/commands/colonycommands/CommandResearch.java:158-192 | `list` returns 1 and changes nothing. It reports "no research in progress" exactly when the list is empty. Otherwise it reports one entry per record, in order, with the record's id and its remaining time rounded up to a quarter hour. |
| ResearchCommand.ExecuteRejectsBlankId | src/main/java/com/minecolonies/coremod/commands/colonycommands/CommandResearch.java:96-101 | `complete` or `cancel` with an id that is empty or holds only characters up to U+0020 returns 0 and reports "NULL" before any lookup, whatever the list or the permission. The list is unchanged. |
| ResearchCommand.ExecuteRejectsUnknownId | src/main/java/com/minecolonies/coremod/commands/colonycommands/CommandResearch.java:103-138 | `complete` or `cancel` with an id that no record has exactly returns 0 and reports that id, whatever the permission. The list is unchanged. |
| ResearchCommand.ExecuteCompleteRequiresOp | src/main/java/com/minecolonies/coremod/commands/colonycommands/CommandResearch.java:111-118 | `complete` on a matching id by a non-OP source returns 0, reports that OP is required and leaves the list unchanged. |
| ResearchCommand.ExecuteCompleteByOp | src/main/java/com/minecolonies/coremod/commands/colonycommands/CommandResearch.java:111-126 | `complete` by an OP source returns 1. The last record with the id gets progress equal to its base time and stays in the list. Every other record is unchanged. |
| ResearchCommand.ExecuteCompleteIdempotent | src/main/java/com/minecolonies/coremod/commands/colonycommands/CommandResearch.java:120-125 | Running `complete` again on its own result gives the same outcome. |
| ResearchCommand.ExecuteCancelDelegates | src/main/java/com/minecolonies/coremod/commands/colonycommands/CommandResearch.java:127-130 | `cancel` on a matching id returns 1 and passes exactly the last record with that id, together with the invocation, to the reset collaborator. With or without OP permission the code and messages are the same and the same record is handed to the reset. |

## Left out

- The Brigadier command tree (`build`) and argument extraction in `onExecute` and `onSpecificExecute`, including `checkPreCondition`. These are command-grammar wiring; the model takes the subcommand and research id as given strings.
- Message text, chat styles and `String.format` rendering. Messages are a datatype, and the estimate is an (hours, minutes) pair rather than the `"%d:%02d"` string.
- Colony lookup, the permission check and message delivery. They are external collaborators, modelled as the booleans `hasPlayer`, `colonyFound` and `isOp` and as the returned message list.
- The global research tree singleton. It becomes the function parameter `baseTime`, and the constant `BASE_RESEARCH_TIME` becomes the parameter `unit`.
- ResearchCommand.Execute: the research tree lookup `getBranchData(branch).getBaseTime(depth)` is assumed to succeed for every record. In the source an unknown branch gives a null and an out-of-range depth is an error; either way the call throws, so `list` stops partway through its report and an OP `complete` neither changes the record nor returns 1. The model's `baseTime` is total, so these paths always return 1.
- What `attemptResetResearch` does to the list, including refunds and its own messages. Its source is not part of this model, so it is the opaque parameter `reset`.
- Java double arithmetic. The estimate is computed on exact integers, so floating-point rounding of `%`, `/` and `Math.ceil` is not modelled. Progress and base times are unbounded integers, with no 32-bit overflow.
- TimeEstimate.Estimate: its contract covers only a non-negative remainder, for the reason given on the next line.
- TimeEstimate.EstimateRoundsUpToQuarterHour: the estimate is defined for every integer remainder, but its properties are proved only for a non-negative remainder. That means progress at most the base time, which the research tree keeps. A negative remainder would display negative minutes.
- TileEntityStash: its pickup request deduplication lives in `createPickupRequest`, which is not part of this model. What remains is a guard over world and colony-manager calls.
