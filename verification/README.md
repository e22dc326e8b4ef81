# Openploy: a verified model

Openploy is a self-hosted deployment platform: a web application and an agent that share a Postgres
database and a job queue and drive Docker Swarm.  This project models the parts of it that carry logic
of their own and proves what they promise.  Every theorem is for all inputs, all interleavings or all
runs, and where the code does not keep a promise always, the exact condition under which it does is
proved, with a run or an input for the other side.

| file | what it models |
|---|---|
| `Components.dfy` | the union-find with path compression behind the project graph, and its component grouping |
| `GraphLayout.dfy` | the geometric packing of components and isolated nodes |
| `Interpolation.dfy`, `InterpolationText.dfy`, `InterpolationLimits.dfy` | `${VAR}` interpolation of compose files: the scanner against a grammar, its meaning said of the text, and where that differs from what one may expect |
| `Deployment.dfy` | the deployment protocol: redelivered workers and cancels on one row, step by step |
| `LogWriter.dfy` | sequence numbers of log rows across awaits, commits and restarts, and the cursor readers |
| `LineBuffer.dfy` | cutting a chunked stream into lines |
| `Redactor.dfy` | redaction of log lines |
| `EnvFile.dfy` | the env-file parser and printer |
| `CertificateWatch.dfy` | the self-requeuing certificate check |
| `RateLimit.dfy` | the fixed-window rate limiter |
| `ComposeDocument.dfy`, `ComposeEnvironment.dfy`, `ComposeNormalize.dfy`, `ComposeValidate.dfy`, `ComposeMerge.dfy`, `ComposeFile.dfy` | the preparation of a compose file: normalise, validate, merge |
| `NipIo.dfy` | slugs and instant host names |
| `UniqueName.dfy` | the first free service name |
| `Text.dfy`, `Fields.dfy`, `Selection.dfy`, `Optional.dfy` | split, join, trim; objects with ordered keys; what `filter` keeps; a value or nothing |

Code that changes state is modelled by classes and loops proved against functions of the old state;
protocols whose steps interleave are state machines with one event per database statement or await.

## What the code does not keep

These are statements one might expect of the code, or that its comments suggest, and that it does not
keep in all cases.  The members named say exactly when it does, and show an input or a run in which it
does not.

- A defined but empty variable counts as defined for `:-` and `:?` as it does for `-` and `?`
  (`packages/compose/src/interpolate.ts:94`), while the Interpolation section of the Compose
  Specification lets the colon treat empty as unset.  `InterpolationLimits.EmptyMattersExactly` says for
  which templates that makes no difference to the text, `InterpolationLimits.DemandsDifferExactly` for
  which it makes none to the missing names; `InterpolationLimits.EmptyPassesForSet` is an input for which
  it does, and `InterpolationLimits.DefaultNeedsUnset` and `InterpolationLimits.RequiredMayBeEmpty` are
  about all single references.
- The output of the interpolation may contain `${...}`: substituted values and braced text are not
  scanned again.  `$${X:-{FOO}}` yields `${FOO}` with nothing missing
  (`InterpolationLimits.ReferenceComesOutOf`).  `InterpolationLimits.ReferenceExactly` says when `${` comes
  out, and `InterpolationLimits.NoReferenceIsFinal` that the output is final when it does not;
  `InterpolationLimits.DollarExactly` says the same of the dollar alone.
- Canceled is not absorbing.  Most often a cancel is lost that commits while the service is being
  deployed: success replaces it, for all three workers (`Deployment.CancelWhileDeployingLost`), unless the
  compose worker polls it in time (`Deployment.ComposeCancelDuringDeployment`).  An application or compose
  deployment canceled inside the configuration guard becomes failed (`Deployment.CancelLostInGuard`); a
  compose deployment whose cancel is not polled before the last check goes on
  (`Deployment.ComposeCancelOverlooked`), and can even end failed though nothing went wrong
  (`Deployment.CancelTurnsIntoFailure`).  `Deployment.CancelSticksExactly` says when a cancel stays.
- Success is not absorbing either: an error while the service row is updated or the notification is sent
  turns it into failed (`Deployment.SuccessSticksExactly`, `Deployment.SuccessWhileActive`); when nothing
  goes wrong a deployment does end in success (`Deployment.GoodRunSucceeds`).
- A worker that dies after its claim leaves the deployment in flight for good; redelivery does not take
  over (`Deployment.MovesOnExactly`, `Deployment.DeadWorkerLeavesInFlight`; `Deployment.WorkerDies` is such
  a run), and so does an error outside its try block (`Deployment.StuckExactly`).
- A secret that begins or ends with a star, or contains `***`, can be left in the line by the loop over
  the secrets (`Redactor.NeverSurvivesExactly`, `Redactor.UnsafeSurvives`); the generic patterns, which
  come after it, may still hide it.
- Of two secrets that overlap in a line, the part of the second one that does not overlap can stay
  (`Redactor.OverlapLeavesRest`, `Redactor.OrderMatters`).
- A log line is lost when its insert fails or the agent restarts before the commit
  (`LogWriter.CallIsLostExactly`, `LogWriter.GoneForGood`).  When the first select of a writer fails, all
  later lines are lost as well, until the agent restarts (`LogWriter.RejectionIsKept`,
  `LogWriter.FirstSelectFails`).
- A log viewer can miss a row whose insert is overtaken by a later one (`LogWriter.NothingLostExactly`,
  `LogWriter.OvertakenRowIsLost`); with one insert at a time it cannot (`LogWriter.SerialLosesNothing`).
- `parseEnvFileText` inverts `formatEnvFileText` on canonical entries only (`EnvFile.RoundTripExactly`);
  with quotes around the values it does on more (`EnvFile.QuotedIsReadBackExactly`).
- A certificate can stay pending with nobody watching it when the web process dies between updating the
  row and enqueuing the job (`CertificateWatch.AbandonedIsUnwatched`), or when the queue gives up a job that
  failed too often (`CertificateWatch.DroppedIsUnwatched`).  `CertificateWatch.UnwatchedExactly` says when,
  and `CertificateWatch.ForgottenStays` that it then stays so until a recheck.
- An issued certificate can become failed without a recheck, if acme.json cannot be read while somebody
  still watches the certificate (`CertificateWatch.IssuedSticksOnlyWhenForgotten`, and
  `CertificateWatch.IssuedCanFail` for a run), or if the handler already holds a negative answer at the last
  attempt (`CertificateWatch.IssuedSticksExactly`, and `CertificateWatch.IssuedWithStaleLook` for a run).
- The comment in `packages/compose/src/merge.ts:37-44` is about a missing `networks:`; a target whose
  `networks:` names none loses the default network if that is read as the default, too
  (`ComposeMerge.DefaultIsKeptExactly`, `ComposeMerge.ConnectionsSurviveExactly`; `ComposeMerge.PairIsSeparated`
  is such a file).
- A limit of zero or less still admits the call that opens a window, like a limit of one
  (`RateLimit.EachWindowAdmitsItsBudget`).

## Model

| member | source | states |
|---|---|---|
| `Components.FindConnectedComponents` | apps/web/src/lib/graph-layout.ts:12-41 | for any ids and edges the groups partition the ids, each occurrence once, and two ids share a group if and only if a chain of edges between known nodes connects them, direction ignored; the order of the ids is kept inside the groups and, by first ids, among them |
| `Components.UnionFind.Find` | apps/web/src/lib/graph-layout.ts:15-24 | terminates on every forest, returns the representative, points exactly the ids on its way straight there, and changes no representative |
| `Components.UnionFind.Union` | apps/web/src/lib/graph-layout.ts:26-31 | merges exactly the two classes of the edge's ends, and skips an edge with an unknown end |
| `Components.UnionFind.constructor` | apps/web/src/lib/graph-layout.ts:13 | every id is its own representative |
| `Components.FollowReachesRoot` | apps/web/src/lib/graph-layout.ts:15-17 | following parents reaches the representative within rank many steps |
| `Components.RootIsUnique` | apps/web/src/lib/graph-layout.ts:15-23 | the parent map determines the representatives, whatever ranks witness that it is a forest |
| `Components.CompressKeepsRoots` | apps/web/src/lib/graph-layout.ts:18-22 | pointing one id straight at its representative keeps the forest, its ranks and every representative |
| `Components.LinkMerges` | apps/web/src/lib/graph-layout.ts:30 | linking one top below another yields a forest again, and its representatives are the merged ones |
| `Components.RepresentsAfterUnion` | apps/web/src/lib/graph-layout.ts:26-31 | if the representatives stand for the connectivity of some edges, after one union they stand for it with the new edge |
| `Components.RootsEqualIffConnected` | apps/web/src/lib/graph-layout.ts:11-31 | two ids have the same representative if and only if they are connected |
| `Components.UnionAll` | apps/web/src/lib/graph-layout.ts:26-31 | the edge loop, with its interleaved compressions, ends with the connectivity of all edges |
| `Components.GroupByRoot` | apps/web/src/lib/graph-layout.ts:33-40 | the grouping loop computes the groups by representative |
| `Components.GroupedIsGroupedBy` | apps/web/src/lib/graph-layout.ts:33-40 | those groups list, per representative and in order, exactly the ids that have it, and every occurrence of an id once |
| `Components.GroupedInOrder` | apps/web/src/lib/graph-layout.ts:33-40 | the order of the input is kept inside the groups and, by first ids, among them |
| `Components.AnswerIsUnique` | apps/web/src/lib/graph-layout.ts:11-41 | connectivity and that order leave only one answer |
| `Components.CompressedAll` | apps/web/src/lib/graph-layout.ts:18-22 | what the compression loop has done when it stops |
| `Components.GroupedAreComponents` | apps/web/src/lib/graph-layout.ts:33-41 | groups by representative are the connected components |
| `GraphLayout.LayoutWithDagre` | apps/web/src/lib/graph-layout.ts:95-124 | whatever dagre answers: every node has a position with non-negative coordinates; unconnected nodes are in horizontal slots a component gap apart or, both isolated, in grid cells a grid gap apart; isolated nodes and clusters keep the order of the groups; the grid begins at (0, 0), each node stands to the right of the one before it or begins the next row, the first cluster begins a component gap behind its right edge, and the clusters tile the slots from there on, each in the shape dagre gave it for its own edges |
| `GraphLayout.LayoutComponent` | apps/web/src/lib/graph-layout.ts:44-76 | the cluster moves as one rigid body to a tight bounding box that begins at (0, 0) and is `width` wide |
| `GraphLayout.PlaceGrid` | apps/web/src/lib/graph-layout.ts:103-114 | the first isolated node is at (0, 0), every other one a gap to the right of the one before it or, when the row is full, at the left of the next row; no two boxes are closer than the grid gap, all are within the square, and the first cluster slot begins a component gap behind the rightmost box |
| `GraphLayout.PlaceCluster` | apps/web/src/lib/graph-layout.ts:116-121 | a cluster lands in the slot whose bounding box it is, from the cursor to a gap before the next cursor, and nothing placed before moves |
| `GraphLayout.PlaceClusters` | apps/web/src/lib/graph-layout.ts:116-121 | over all clusters: slot after slot to the right, grid untouched, shapes kept |
| `GraphLayout.LayoutIsDetermined` | apps/web/src/lib/graph-layout.ts:95-124 | the description of the layout leaves no freedom: two layouts of the same nodes, edges and answers of dagre are equal |
| `GraphLayout.SlotIsDetermined` | apps/web/src/lib/graph-layout.ts:57-75 | a shape fits a slot in one way only, and so determines where the next one starts |
| `GraphLayout.CeilSqrt` | apps/web/src/lib/graph-layout.ts:104 | the least number whose square is at least n |
| `GraphLayout.CellsApart` | apps/web/src/lib/graph-layout.ts:105-112 | different cells are a full gap apart in x or in y |
| `GraphLayout.GridIsCompact` | apps/web/src/lib/graph-layout.ts:104-107 | the grid has no more rows than columns, so it is never one long column |
| `GraphLayout.GroupsAreSorted` | apps/web/src/lib/graph-layout.ts:97-98 | the isolated nodes and the clusters are those of the groups, all of them, in their order |
| `GraphLayout.EdgesKeepOrder` | apps/web/src/lib/graph-layout.ts:117 | dagre is handed the edges inside the cluster, all of them, in their order |
| `GraphLayout.SlotsMakeSafeLayout` | apps/web/src/lib/graph-layout.ts:78-124 | slots and grid together are a safe layout of the whole graph |
| `Interpolation.InterpolateComposeVariables` | packages/compose/src/interpolate.ts:41-45 | the text is the value of the unique reading of the input, and the missing list holds what that reading lacks, each name once, in the order in which the scan first meets it |
| `Interpolation.Interpolator.Interpolate` | packages/compose/src/interpolate.ts:47-69 | the scan loop, recursive through defaults, computes value and missing names of the reading; it terminates because a default is shorter than its text |
| `Interpolation.Interpolator.Step` | packages/compose/src/interpolate.ts:51-65 | one round: a closed reference is resolved as a whole, anything else is copied character by character |
| `Interpolation.Interpolator.ResolveExpression` | packages/compose/src/interpolate.ts:84-102 | defined variable (even when empty), default, or missing and left as written |
| `Interpolation.FindMatchingBrace` | packages/compose/src/interpolate.ts:71-82 | the depth counter finds the least index at which the brace level drops below zero, or -1 if there is none |
| `Interpolation.CloserSplits` | packages/compose/src/interpolate.ts:71-82 | what a found brace closes is balanced |
| `Interpolation.CloserOfBalanced` | packages/compose/src/interpolate.ts:71-82 | a balanced body followed by a brace is closed exactly there |
| `Interpolation.ClassifyCaptures` | packages/compose/src/interpolate.ts:10 | what is read as an expression is in the language of the regular expression, with its capture groups |
| `Interpolation.ClassifyIsExact` | packages/compose/src/interpolate.ts:10 | every text of that language is read as an expression, with the only possible captures |
| `Interpolation.PrintParse` | packages/compose/src/interpolate.ts:47-102 | printing the reading of a text gives the text back |
| `Interpolation.ParseIsWellFormed` | packages/compose/src/interpolate.ts:47-102 | every reading obeys the grammar |
| `Interpolation.ParsePrint` | packages/compose/src/interpolate.ts:47-102 | the grammar is unambiguous: a well-formed template is the reading of its printing |
| `Interpolation.MissingAreDemands` | packages/compose/src/interpolate.ts:42-44 | the reported list is exactly the set of demanded names, each once |
| `Interpolation.MissingInScanOrder` | packages/compose/src/interpolate.ts:42-44 | the list holds every name met without a value, once, in the order of first meeting |
| `Interpolation.OneOrderMet` | packages/compose/src/interpolate.ts:42-44 | and there is only one such list |
| `Interpolation.MissingOnlyGrows` | packages/compose/src/interpolate.ts:47-69 | what is reported earlier in the scan stays at the front of the list |
| `Interpolation.DemandsShrink` | packages/compose/src/interpolate.ts:84-102 | defining more variables, with any values, never adds a missing name |
| `Interpolation.OneRoundSuffices` | packages/compose/src/interpolate.ts:84-102 | defining every reported name, with any values, leaves nothing missing |
| `Interpolation.PlainTextIsKept` | packages/compose/src/interpolate.ts:47-69 | text without "${" passes through unchanged |
| `InterpolationText.CharacterIsKept` | packages/compose/src/interpolate.ts:55-65 | a character that begins no closed reference is copied |
| `InterpolationText.OtherBracesAreKept` | packages/compose/src/interpolate.ts:90-91 | braces that hold no variable expression are copied and ask for nothing |
| `InterpolationText.ReferenceIsReplaced` | packages/compose/src/interpolate.ts:93-101 | for each of the operators `:-`, `-`, `:?`, `?` and none: a defined variable is replaced by its value, an undefined one by its interpolated default if it has one, and otherwise it stays as written and is missing; what follows is interpolated by itself |
| `InterpolationLimits.EmptyMattersExactly` | packages/compose/src/interpolate.ts:94-98 | reading empty as unset for `:-` and `:?` gives the same text if and only if no empty variable is used with a colon, unless its default produces nothing either |
| `InterpolationLimits.EmptyMattersForDemands` | packages/compose/src/interpolate.ts:94-101 | if no empty variable is used that way, the same names are missing, too |
| `InterpolationLimits.StrictDemandsMore` | packages/compose/src/interpolate.ts:94-101 | the stricter reading asks for the names the code asks for and for certain others: the empty variables of `:?` references and what the defaults lack that only it uses |
| `InterpolationLimits.DemandsDifferExactly` | packages/compose/src/interpolate.ts:94-101 | so the same names are missing if and only if all those others are missing anyway |
| `InterpolationLimits.RequiredMayBeEmpty` | packages/compose/src/interpolate.ts:94-101 | a `:?` reference to a defined variable is never missing; the other reading asks for it if and only if it is empty |
| `InterpolationLimits.DefaultNeedsUnset` | packages/compose/src/interpolate.ts:94-98 | an empty variable keeps its default from being used |
| `InterpolationLimits.EmptyPassesForSet` | packages/compose/src/interpolate.ts:94 | `${NAME:?msg}` with an empty NAME: nothing missing, empty output |
| `InterpolationLimits.DollarExactly` | packages/compose/src/interpolate.ts:47-102 | the output holds a dollar if and only if one is literal text, belongs to braced text or a missing reference, or is in a value used |
| `InterpolationLimits.DollarFreeIsFinal` | packages/compose/src/interpolate.ts:47-102 | without one, nothing in the output is a reference and interpolating again changes nothing |
| `InterpolationLimits.ReferenceExactly` | packages/compose/src/interpolate.ts:47-102 | "${" comes out if and only if a piece put out holds it or a piece that ends in a dollar is followed by a brace |
| `InterpolationLimits.NoReferenceIsFinal` | packages/compose/src/interpolate.ts:47-102 | if none comes out, interpolating the output again, with any variables, changes nothing and finds nothing missing |
| `InterpolationLimits.ReferenceComesOut` | packages/compose/src/interpolate.ts:84-98 | a dollar in front of a default in braces puts a reference together, with nothing missing |
| `InterpolationLimits.ReferenceComesOutOf` | packages/compose/src/interpolate.ts:84-98 | `$${X:-{FOO}}` yields `${FOO}` |
| `Interpolation.ScannedStep` | packages/compose/src/interpolate.ts:51-65 | each round keeps: output so far plus value of the rest is the value of the whole, and likewise for the missing names |
| `Deployment.OneOwnerOneScript` | apps/agent/src/workers/deploy-application.ts:63-76 | over every interleaving one invocation at most passes the claim, and all work, service updates and status writes are its, in order and each at most once |
| `Deployment.ExecKeepsInvariant` | apps/agent/src/workers/deploy-application.ts:59-218 | every run keeps: the log is a prefix of claim, work, deploying, service, success by one owner, with at most one failure at its end, and the status fits it |
| `Deployment.QueuedIsLeftForGood` | apps/agent/src/workers/deploy-application.ts:68-76 | a status never returns to queued |
| `Deployment.CancelSticksExactly` | apps/agent/src/workers/deploy-application.ts:204-214 | a canceled row stays canceled in every continuation if and only if no invocation stands at a point from which it can overwrite it |
| `Deployment.CancelSticksForever` | apps/agent/src/workers/deploy-application.ts:161-217 | from such a state no worker writes a status or touches the service again |
| `Deployment.CancelWhileQueuedWins` | apps/web/src/server/services/deployment-service.ts:121-151 | a cancel that commits while queued: canceled for good and no worker ever does anything visible |
| `Deployment.CancelBeforeCheckWins` | apps/agent/src/workers/deploy-application.ts:163-167 | application and database: a cancel that commits before the last check (past the configuration guard of the application worker) wins and the service is never touched |
| `Deployment.ComposeCancelWins` | apps/agent/src/workers/deploy-compose.ts:171-182 | compose: the status stays canceled from the moment the abort signal has fired, once validation is behind the worker: during the image pulls, before the last check or during the stack deployment; unless it is during the latter, the service is never touched |
| `Deployment.ComposeCancelDuringDeployment` | apps/agent/src/workers/deploy-compose.ts:180-182 | a reachable run in which the signal fires during the stack deployment, and the row is canceled for good |
| `Deployment.CancelWhileDeployingLost` | apps/agent/src/workers/deploy-application.ts:169-196 | for each of the three workers a reachable run in which a cancel that commits during the deployment of the service is overwritten by success |
| `Deployment.ComposeCancelOverlooked` | apps/agent/src/workers/deploy-compose.ts:180-182 | a reachable run in which a committed cancel that was not polled in time is overwritten by deploying |
| `Deployment.CancelLostInGuard` | apps/agent/src/workers/deploy-application.ts:85-90 | a reachable run in which a committed cancel is overwritten by failed |
| `Deployment.CancelIsCompareAndSet` | apps/web/src/server/services/deployment-service.ts:128-151 | over every run of cancels, deliveries and polls: success, failed and canceled are never replaced, an in-flight status can only become canceled, and it does so when a cancel that has read it writes |
| `Deployment.OnlyOwnerChangesTerminal` | apps/agent/src/workers/deploy-application.ts:63-76 | whatever changes a terminal status is a step of the invocation that claimed the deployment |
| `Deployment.DeadWorkerLeavesInFlight` | apps/agent/src/workers/deploy-application.ts:63-76 | with no invocation past the claim left, a deployment in building or deploying gets no further however often its job is delivered; only a cancel ends it |
| `Deployment.MovesOnExactly` | apps/agent/src/workers/deploy-application.ts:63-76 | a row in building or deploying can change without a cancel if and only if an invocation past the claim is still there |
| `Deployment.WorkerDies` | apps/agent/src/workers/deploy-application.ts:63-76 | a reachable run, for each of the three workers, after which it cannot |
| `Deployment.ActiveCanFail` | apps/agent/src/workers/deploy-application.ts:85-217 | from wherever it stands past the claim, an invocation can turn any status but canceled into failed |
| `Deployment.FailedIsFinal` | apps/agent/src/workers/deploy-application.ts:46-57 | failed is final |
| `Deployment.SuccessSticksExactly` | apps/agent/src/workers/deploy-application.ts:193-214 | success is final if and only if its worker has left |
| `Deployment.LateFailure` | apps/agent/src/workers/deploy-application.ts:197-214 | an error after the success write really turns it into failed, from every point where the worker is still there |
| `Deployment.SuccessWhileActive` | apps/agent/src/workers/deploy-application.ts:193-214 | such a point is reachable, for all three workers |
| `Deployment.GoodRunSucceeds` | apps/agent/src/workers/deploy-application.ts:63-203 | over every run in which no step goes wrong and nobody cancels, for all three workers: the status always tells how much of the script is done, it is never failed or canceled, and when the claimer is gone the whole script is done and the status is success |
| `Deployment.GoodRunCompletes` | apps/agent/src/workers/deploy-application.ts:63-203 | in such a run eight more steps of the claimer lead to success, and nine of a fresh invocation when the row is queued |
| `Deployment.OnlyGoodStepsAct` | apps/agent/src/workers/deploy-application.ts:63-217 | a step that goes wrong writes no status and does nothing visible by itself |
| `Deployment.StuckExactly` | apps/agent/src/workers/deploy-application.ts:63-217 | a step of the claimer leaves the row in building or deploying for good, up to a cancel, if and only if the agent dies in it or it throws outside the try block |
| `Deployment.AbortsOnlyAfterCancel` | apps/agent/src/deployment-cancellation.ts:18-23 | in every run the abort signal fires only for application and compose workers, past the guard, and only after a cancel |
| `Deployment.AbortedBuildIsBrokenOff` | apps/agent/src/workers/deploy-application.ts:108-161 | an application worker whose signal fires during the build does nothing visible any more, and the row stays canceled |
| `Deployment.BuildIsBrokenOff` | apps/agent/src/workers/deploy-application.ts:108-161 | that is reachable |
| `Deployment.CancelTurnsIntoFailure` | apps/agent/src/workers/deploy-compose.ts:180-182 | a reachable canceled compose deployment that ends failed although no step goes wrong: the cancel commits and is polled after the last check and before the status is written |
| `LogWriter.NumbersAreDistinct` | apps/agent/src/log-writer.ts:13-62 | in every run of writes, out-of-order commits, failures, restarts and polls all persisted and in-flight rows have distinct numbers, and a reader is sent no row twice |
| `LogWriter.RunKeepsInvariant` | apps/agent/src/log-writer.ts:30-66 | every run keeps: distinct numbers, a counter past every number in use once initialised, and readers sent ascending rows up to their cursor |
| `LogWriter.ResumeNumbersAbove` | apps/agent/src/log-writer.ts:23-28 | a new row is numbered above everything persisted or in flight, also after restarts |
| `LogWriter.RowsAreAsAsked` | apps/agent/src/log-writer.ts:51-62 | in every run each row, waiting, in flight or persisted, has the id and the stream of the call that asked for it, and no call has two |
| `LogWriter.NothingFailsNothingMissing` | apps/agent/src/log-writer.ts:51-62 | while nothing fails and the agent keeps running every call is waiting, in flight or persisted, and the counter is the number of rows |
| `LogWriter.CallIsLostExactly` | apps/agent/src/log-writer.ts:51-62 | a call under way loses its row if and only if its insert fails, the select fails while it waits, or the agent restarts |
| `LogWriter.GoneForGood` | apps/agent/src/log-writer.ts:51-62 | and then for good: nothing is tried twice |
| `LogWriter.RejectionIsKept` | apps/agent/src/log-writer.ts:34-47 | once the first select has failed nothing is written until the agent restarts |
| `LogWriter.FirstSelectFails` | apps/agent/src/log-writer.ts:34-47 | which is reachable, and loses every later line |
| `LogWriter.RowsStay` | apps/agent/src/log-writer.ts:51-62 | what is persisted stays |
| `LogWriter.NothingLostExactly` | apps/web/src/server/services/deployment-service.ts:170-190 | a cursor reader misses no row up to its cursor if and only if no commit came after the cursor had passed its number |
| `LogWriter.LostForGood` | apps/web/src/server/services/deployment-service.ts:170-190 | a row missed once is missed for ever |
| `LogWriter.PollCatchesUp` | apps/web/src/server/services/deployment-service.ts:170-190 | a reader that has missed nothing holds, after a poll, exactly the persisted rows of its stream |
| `LogWriter.SelectionExists` | apps/web/src/server/services/deployment-service.ts:170-179 | the query has an answer: the rows after the cursor, ascending |
| `LogWriter.OvertakenRowIsLost` | apps/agent/src/log-writer.ts:52-61 | a reachable run in which out-of-order commits make the reader miss a row |
| `LogWriter.SerialLosesNothing` | apps/agent/src/log-writer.ts:52-61 | with at most one insert under way at every moment no reader misses a row |
| `LineBuffer.LineBuffer.OnData` | packages/docker/src/logs.ts:11-18 | after every chunk the emitted lines are the non-empty complete lines of the whole stream and the buffer is its unfinished tail |
| `LineBuffer.LineBuffer.Emit` | packages/docker/src/logs.ts:15-17 | hands on the non-empty lines in order |
| `Text.NonEmptySelects` | packages/docker/src/logs.ts:15-17 | the lines handed on are all those that are not empty, in their order |
| `LineBuffer.Feed` | packages/docker/src/logs.ts:8-20 | chunking is invisible: the result depends on the concatenation of the chunks only |
| `LineBuffer.ChunkContinues` | packages/docker/src/logs.ts:12-14 | splitting tail plus chunk continues the split of the whole stream |
| `Redactor.NeverSurvivesExactly` | apps/agent/src/redact.ts:16-23 | a known secret of length 8 or more is never in the line after the loop over the secrets, whatever the line and the other secrets, if and only if it neither begins nor ends with a star and does not contain "***" |
| `Redactor.Redact` | apps/agent/src/redact.ts:19-28 | the output is the line after both loops, and no such secret is in it, generic patterns included |
| `Redactor.MaskKnown` | apps/agent/src/redact.ts:20-23 | the loop over the secrets is the iterated replacement, and removes every safe secret |
| `Redactor.MaskingCreatesNothing` | apps/agent/src/redact.ts:20-26 | replacing any disjoint stretches by "***" never spells a safe secret that was not there |
| `Redactor.ReplaceRemoves` | apps/agent/src/redact.ts:22 | replacing a safe secret removes it |
| `Redactor.ReplaceKeepsCleanLine` | apps/agent/src/redact.ts:22 | a line without the secret is left alone |
| `Redactor.ReplacesFirst` | apps/agent/src/redact.ts:22 | the first occurrence becomes the mask, what stands before it stays, and what comes behind it is redacted by itself |
| `Redactor.MeaningfulSelects` | apps/agent/src/redact.ts:17 | the secrets used are all those of 8 characters or more, in the order given |
| `Redactor.MaskAllInOrder` | apps/agent/src/redact.ts:20-23 | each secret is replaced in what the ones before it have left |
| `Redactor.PatternsInOrder` | apps/agent/src/redact.ts:24-26 | so are the patterns applied |
| `Redactor.OverlapLeavesRest` | apps/agent/src/redact.ts:20-23 | of two secrets that overlap in the line by more than three characters, the one replaced second leaves the part of it that does not overlap |
| `Redactor.OrderMatters` | apps/agent/src/redact.ts:20-23 | two secrets and a line for which their order matters |
| `Redactor.SafeNeverSurvives` | apps/agent/src/redact.ts:16-23 | one direction: after the loop over the secrets a safe secret of the list is gone, later replacements never bring it back |
| `Redactor.UnsafeSurvives` | apps/agent/src/redact.ts:16-23 | the other direction: for every other secret a line and a second secret that leave it in the line after the loop over the secrets |
| `EnvFile.RoundTripExactly` | packages/shared/src/env-parse.ts:12-39 | parsing the formatted text gives the entries back, order and duplicates included, if and only if all of them are canonical |
| `EnvFile.RoundTripOfCanonical` | packages/shared/src/env-parse.ts:36-39 | canonical entries survive |
| `EnvFile.CanonicalByRoundTrip` | packages/shared/src/env-parse.ts:12-39 | only canonical entries survive |
| `EnvFile.CanonicalLine` | packages/shared/src/env-parse.ts:15-31 | a canonical entry is read back from its line |
| `EnvFile.LineIsCanonical` | packages/shared/src/env-parse.ts:15-31 | an entry without newlines read back from its line is canonical |
| `EnvFile.QuotedIsReadBack` | packages/shared/src/env-parse.ts:25-28 | with every value between matching quotes, a list of entries with proper keys and values without newlines is read back, whatever else the values hold |
| `EnvFile.QuotedIsReadBackExactly` | packages/shared/src/env-parse.ts:12-39 | and no other list is |
| `EnvFile.ParseEnvFileText` | packages/shared/src/env-parse.ts:12-34 | the loop computes the entries of the lines in order |
| `EnvFile.TextIsReadByLines` | packages/shared/src/env-parse.ts:15 | a text is read line by line, each line independently of the others |
| `EnvFile.LineIsReadExactly` | packages/shared/src/env-parse.ts:16-31 | a line gives an entry if and only if something that is no comment and not blank stands before its first equals sign, and which entry |
| `EnvFile.UnquoteExactly` | packages/shared/src/env-parse.ts:25-28 | quotes are taken off a value if and only if the same one stands at both ends |
| `EnvFile.FormatWritesLines` | packages/shared/src/env-parse.ts:36-39 | formatting writes one `KEY=VALUE` per line |
| `CertificateWatch.UnwatchedExactly` | apps/web/src/server/services/domain-service.ts:20-62 | in every run a pending certificate has nobody about to settle it if and only if its last caller died before it enqueued, or the queue gave its last job up, while nobody else was watching, and no recheck or redelivery came since |
| `CertificateWatch.AbandonedIsUnwatched` | apps/web/src/server/services/domain-service.ts:20-62 | a reachable run that leaves a certificate pending and unwatched |
| `CertificateWatch.DroppedIsUnwatched` | apps/agent/src/workers/check-certificate-status.ts:24-42 | another one, without a death: the queue gives up the only job, which failed too often |
| `CertificateWatch.PendingMeansWatched` | apps/web/src/server/services/domain-service.ts:20-62 | in particular a pending certificate is watched in every run in which no caller of its own dies and no job is given up |
| `CertificateWatch.RunKeepsInvariant` | apps/agent/src/workers/check-certificate-status.ts:24-42 | every interleaving keeps: jobs for known certificates and their hosts, and issued only for hosts in acme.json |
| `CertificateWatch.StepKeepsWatch` | apps/agent/src/workers/check-certificate-status.ts:24-42 | one step ends a watch only by a final status or by the loss of the last caller or job |
| `CertificateWatch.StepRegainsExactly` | apps/web/src/server/services/domain-service.ts:111-119 | an unwatched certificate is watched again exactly by a create, a recheck, or the redelivery of a settled job |
| `CertificateWatch.RecheckStartsOver` | apps/web/src/server/services/domain-service.ts:117-118 | a recheck makes the row pending, whatever it was, and enqueues attempt 1 for its host; nothing else changes |
| `CertificateWatch.CreateStarts` | apps/web/src/server/services/domain-service.ts:20-62 | creating a domain adds a pending row and enqueues attempt 1 for its host; nothing else changes |
| `CertificateWatch.ForgottenStays` | apps/web/src/server/services/domain-service.ts:111-119 | a certificate nobody watches keeps its status until a recheck |
| `CertificateWatch.SettlementsAreBounded` | apps/agent/src/workers/check-certificate-status.ts:8-10 | in any run the jobs settled are at most the initial load plus 20 for every create, recheck and crash |
| `CertificateWatch.StepLoad` | apps/agent/src/workers/check-certificate-status.ts:32-41 | each settled job lowers the sum of remaining attempts |
| `CertificateWatch.FailsAfterTwentyLooks` | apps/agent/src/workers/check-certificate-status.ts:32-41 | in no run does a certificate fail before twenty jobs of its own have looked for it |
| `CertificateWatch.IssuedSticks` | apps/agent/src/workers/check-certificate-status.ts:25-34 | while acme.json can be read and only grows, issued stays issued until a recheck, unless the handler already holds a negative answer at the last attempt |
| `CertificateWatch.IssuedSticksExactly` | apps/agent/src/workers/check-certificate-status.ts:25-34 | with a readable acme.json issued sticks if and only if the handler does not hold such an answer |
| `CertificateWatch.IssuedWithStaleLook` | apps/agent/src/workers/check-certificate-status.ts:25-34 | a reachable run that ends with an issued certificate and such an answer |
| `CertificateWatch.RunKeepsFresh` | apps/agent/src/workers/check-certificate-status.ts:25-34 | a run that could always read acme.json never gets into that state |
| `CertificateWatch.IssuedSticksOnlyWhenForgotten` | apps/agent/src/workers/check-certificate-status.ts:25-34 | if acme.json may be unreadable, issued sticks in every run without a recheck if and only if nobody watches the certificate any more |
| `CertificateWatch.IssuedCanFail` | apps/agent/src/workers/check-certificate-status.ts:25-34 | a reachable run to an issued certificate somebody still watches, and from there, without a recheck, to failed |
| `CertificateWatch.SecuredNeverFails` | apps/agent/src/workers/check-certificate-status.ts:25-34 | once the host is in acme.json, failed is not written any more, rechecks or not |
| `CertificateWatch.MisreadsFail` | apps/agent/src/workers/check-certificate-status.ts:25-34 | a queued job can be led to failed by an unreadable file, whatever the status |
| `CertificateWatch.WatchedCanFail` | apps/agent/src/workers/check-certificate-status.ts:25-34 | and so can a caller about to enqueue and a job in the agent's hands |
| `CertificateWatch.CertificateWatch.Drain` | apps/agent/src/workers/check-certificate-status.ts:24-42 | an undisturbed agent empties the queue; every queued certificate ends issued or failed by what acme.json says, others keep their status, none is pending, and the number of jobs handled is exact |
| `CertificateWatch.CertificateWatch.HandleNext` | apps/agent/src/workers/check-certificate-status.ts:24-42 | one undisturbed job is the four steps of the protocol |
| `CertificateWatch.CertificateWatch.ProcessCheckCertificateStatusJob` | apps/agent/src/workers/check-certificate-status.ts:24-42 | issued, failed after the 20th attempt, or the next attempt enqueued; no other row changes |
| `CertificateWatch.CertificateWatch.CreateDomain` | apps/web/src/server/services/domain-service.ts:20-62 | a new pending row and attempt 1 for its host at the end of the queue, nothing else changed: the state of the protocol after its two steps |
| `CertificateWatch.CertificateWatch.RecheckCertificate` | apps/web/src/server/services/domain-service.ts:112-119 | not found and nothing changed, or the row pending with its host kept and attempt 1 at the end of the queue |
| `CertificateWatch.HandlingKeepsVerdict` | apps/agent/src/workers/check-certificate-status.ts:24-42 | handling one job changes no final verdict |
| `RateLimit.RateLimiter.CheckRateLimit` | apps/web/src/server/rate-limit.ts:21-36 | the answer and the new window of the key; no other key changes, though buckets are mutated in place |
| `RateLimit.LimiterBound` | apps/web/src/server/rate-limit.ts:21-36 | over any trace with a clock that never runs back, no key is granted two budgets within any interval of one window length |
| `RateLimit.IntervalBound` | apps/web/src/server/rate-limit.ts:21-36 | the same for one key and any starting state: at most twice the budget less one |
| `RateLimit.IntervalBoundIsReached` | apps/web/src/server/rate-limit.ts:21-36 | that bound is reached, for every positive limit and every window of two milliseconds or more |
| `RateLimit.BoundIsReachedExactly` | apps/web/src/server/rate-limit.ts:21-36 | over all limits and windows it can be reached if and only if the window lasts at least two milliseconds, or one and admits one call |
| `RateLimit.EachWindowAdmitsItsBudget` | apps/web/src/server/rate-limit.ts:25-35 | a window admits exactly its budget, or all calls when there are fewer |
| `RateLimit.WindowAdmits` | apps/web/src/server/rate-limit.ts:30-35 | an open window admits exactly what is left of its budget, first come, first served |
| `RateLimit.RetryIsExact` | apps/web/src/server/rate-limit.ts:30-32 | after a denial nothing is admitted before the announced time, whatever is tried, and a call is admitted exactly from that time on |
| `RateLimit.WaitsAreBounded` | apps/web/src/server/rate-limit.ts:25-35 | over any trace of the whole limiter an admitted call is told to wait 0 ms, a denied one at least 1 and at most one window length |
| `RateLimit.KeysDoNotInterfere` | apps/web/src/server/rate-limit.ts:14-36 | what a key is granted in a mixed trace is what its own calls are granted alone |
| `RateLimit.Replay` | apps/web/src/server/rate-limit.ts:14-36 | the limiter object answers whole traces that way |
| `ComposeFile.ComposeFile.Prepare` | apps/agent/src/workers/deploy-compose.ts:128-151 | normalise, validate, find the exposed service, merge: a file is deployed if and only if it was safe to begin with and has the service; what is deployed is safe, ready for Swarm and the merge of the normalised file; a rejection lists the errors of the original file |
| `ComposeFile.ComposeFile.MergeComposeConfig` | packages/compose/src/merge.ts:29-58 | the in-place merge; false and nothing changed when the target is missing |
| `ComposeFile.ComposeFile.NormalizeForSwarm` | packages/compose/src/merge.ts:140-145 | the three in-place passes one after the other are the normalisation |
| `ComposeFile.ComposeFile.NormalizeEnvironmentBooleans` | packages/compose/src/merge.ts:98-105 | every environment mapping of every service is coerced, list forms and everything else are untouched |
| `ComposeFile.ComposeFile.NormalizeDependsOn` | packages/compose/src/merge.ts:117-124 | the long form of depends_on becomes the list of its names in order, other forms stay |
| `ComposeFile.ComposeFile.StripPublishedPorts` | packages/compose/src/merge.ts:134-138 | published ports are removed from every service, nothing else changes |
| `ComposeFile.CoerceBooleans` | packages/compose/src/merge.ts:60-82 | the loop over a mapping, going into mixins |
| `ComposeNormalize.CoerceKeepsMeaning` | packages/compose/src/merge.ts:84-97 | coercing keeps the text of every scalar, turns lists and mappings into the JSON text the source takes them to stand for, mixins included, and leaves only values Swarm takes |
| `ComposeNormalize.CoerceChangesOnlyRefused` | packages/compose/src/merge.ts:60-82 | a value changes if and only if Swarm would refuse it |
| `ComposeNormalize.NormalizationIsExact` | packages/compose/src/merge.ts:98-145 | the result is ready for Swarm, and the documents left unchanged are exactly those that were ready |
| `ComposeNormalize.DependenciesAreKept` | packages/compose/src/merge.ts:117-124 | the long form of depends_on becomes the list of all its names in their order |
| `ComposeNormalize.NormalizationKeepsTheRest` | packages/compose/src/merge.ts:98-145 | every service keeps its name, place and variables, each with its meaning, and everything the normalisation is not about; so does the rest of the file |
| `ComposeMerge.ConnectionsSurvive` | packages/compose/src/merge.ts:37-51 | services that shared a network, named or implicit as the code reads it, still do after the merge, and new connections go through the platform network only |
| `ComposeMerge.MergedNetworksAre` | packages/compose/src/merge.ts:46-51 | the networks of the target after the merge, for each of the four forms: those it had, in order, then default if it had no such key, then the platform network if it is not among them |
| `ComposeMerge.ConnectionsSurviveExactly` | packages/compose/src/merge.ts:37-51 | if a `networks:` that names none is read as the default network too, all connections survive if and only if the target has no such key or no other service is left behind on the default network |
| `ComposeMerge.PairIsSeparated` | packages/compose/src/merge.ts:37-51 | a file in which the exposed service, whose `networks:` names none, is cut off from one that has no such key |
| `ComposeMerge.MergeAttachesWithDefault` | packages/compose/src/merge.ts:37-51 | the attachments after the merge under that reading |
| `ComposeMerge.MergeAttachesExactly` | packages/compose/src/merge.ts:37-51 | the merge adds the target to the platform network and changes no other attachment |
| `ComposeMerge.DefaultIsKeptExactly` | packages/compose/src/merge.ts:45-51 | if a `networks:` naming none is read as the default network as well, the target keeps its networks if and only if it does not have such a key |
| `ComposeMerge.MergeKeepsNetworksDeclared` | packages/compose/src/merge.ts:53-55 | every network in use is still declared |
| `ComposeMerge.MergeKeepsTheRest` | packages/compose/src/merge.ts:29-58 | the merge keeps the other services, everything of the target but its environment and networks, the other networks and the rest of the file, and declares the platform network as external |
| `ComposeMerge.ManagedVariablesWin` | packages/compose/src/merge.ts:35 | a variable of the target is the managed one, or else the one of the file |
| `ComposeMerge.MergeTwice` | packages/compose/src/merge.ts:29-58 | merging twice is merging once |
| `ComposeMerge.MergeKeepsErrors` | packages/compose/src/merge.ts:29-58 | the merge leaves the list of validation errors unchanged |
| `ComposeMerge.NormalizationKeepsErrors` | packages/compose/src/merge.ts:141-145 | so does the normalisation |
| `ComposeMerge.MergeCommutes` | packages/compose/src/merge.ts:29-145 | normalising before or after the merge gives the same document |
| `ComposeMerge.DeployedIsReady` | apps/agent/src/workers/deploy-compose.ts:128-151 | the merged normalised file needs no further normalisation |
| `ComposeEnvironment.NormalizeEnvironment` | packages/compose/src/merge.ts:4-15 | the mapping of either form of `environment:` |
| `ComposeEnvironment.ListIsReadBackExactly` | packages/compose/src/merge.ts:6-13 | the list form of an environment is read back, with its order, if and only if its keys are distinct, not empty and free of "=" |
| `ComposeEnvironment.AssignsAtFirstEquals` | packages/compose/src/merge.ts:9-10 | everything after the first "=" is the value |
| `ComposeEnvironment.AssignsOddEntries` | packages/compose/src/merge.ts:9-10 | an entry without "=" is a key with an empty value, one without a key is ignored |
| `ComposeEnvironment.LastAssignmentWins` | packages/compose/src/merge.ts:6-13 | of the entries that assign a key the last one counts |
| `ComposeEnvironment.NotAssigned` | packages/compose/src/merge.ts:6-13 | a key no entry assigns is not there |
| `ComposeValidate.ValidateComposeSafety` | packages/compose/src/validate.ts:37-79 | the nested loops list the errors in order; none if and only if the file is safe |
| `ComposeValidate.ValidExactlyWhenSafe` | packages/compose/src/validate.ts:37-79 | a file has no error if and only if its keys are allowed, it has services, and every service is unprivileged, off the host network, within the allowed capabilities and without host or undeclared volumes |
| `ComposeValidate.BindMountExactly` | packages/compose/src/validate.ts:14-30 | an entry is rejected if and only if it is not an anonymous or declared named volume |
| `ComposeValidate.ErrorsAreDeserved` | packages/compose/src/validate.ts:37-79 | for each kind of error: a document gets it, for a key, a service, a capability or a volume entry, if and only if that is at fault |
| `ComposeValidate.DeclaredExactly` | packages/compose/src/validate.ts:50 | the declared volumes are the keys of the top-level `volumes:` |
| `ComposeValidate.KeyErrorsInOrder` | packages/compose/src/validate.ts:40-48 | one error for every key that is not allowed, in their order |
| `ComposeValidate.CapErrorsInOrder` | packages/compose/src/validate.ts:64-68 | one for every capability that is not allowed, in their order |
| `ComposeValidate.VolumeErrorsInOrder` | packages/compose/src/validate.ts:69-75 | one for every volume entry that leaves the volumes of Docker, in their order |
| `ComposeValidate.ServicesInOrder` | packages/compose/src/validate.ts:57-76 | the services are checked one after the other, each by itself |
| `NipIo.HostIsValid` | apps/web/src/server/services/nip-io.ts:18-20 | every generated host is a valid domain name (section 2.3.4 of RFC 1035, section 2.1 of RFC 1123) of at most 60 characters with a first label of at most 53, for any service name, accepted IP and suffix |
| `NipIo.SlugifyGivesSlug` | apps/web/src/server/services/nip-io.ts:1-9 | 1 to 30 characters, runs of [a-z0-9] with single dashes between them |
| `NipIo.SlugsAreFixed` | apps/web/src/server/services/nip-io.ts:1-9 | a name is left alone if and only if it is such a slug already; slugify is idempotent |
| `NipIo.SlugIsMadeOfWords` | apps/web/src/server/services/nip-io.ts:1-9 | the slug is the runs of [a-z0-9] of the name, all of them in order, joined by single dashes and cut off after 30 characters, or 29 when a dash would be the last; without such a run it is app |
| `NipIo.LabelParts` | apps/web/src/server/services/nip-io.ts:11-20 | the label can be read back: slug, suffix and IP |
| `NipIo.HostsDiffer` | apps/web/src/server/services/nip-io.ts:11-20 | equal hosts have equal slug, suffix and IP |
| `NipIo.LabelIsValid` | packages/shared/src/services.ts:7-9 | the first label obeys hostnamePattern |
| `UniqueName.UniqueServiceName` | apps/web/src/server/services/template-service.ts:27-37 | the first free name of base, base-2, base-3, ..., found after at most one try more than names are taken |
| `UniqueName.Pigeonhole` | apps/web/src/server/services/template-service.ts:35 | the first n names cannot all be taken when fewer than n names are |
| `UniqueName.CandidatesDiffer` | apps/web/src/server/services/template-service.ts:35-36 | no two tries give the same name |
| `UniqueName.CandidatesAreNumbered` | apps/web/src/server/services/template-service.ts:33-36 | the first candidate is the base, the k-th one is the base, a dash and the decimal numeral of k, from 2 on |
| `UniqueName.FirstFreeIsUnique` | apps/web/src/server/services/template-service.ts:33-36 | only one candidate is free with all before it taken, so the contract of the search determines the name |

## Left out

- React components, tRPC routers, audit inserts and notifications: forwarding without logic of its own.
- Docker, Swarm, Traefik, GitHub, SMTP, S3 and SSH calls: outcomes of a step (it completes, throws, or the process dies).
- dagre: an arbitrary function from a cluster, its edges and the node size to centres; node sizes are positive.
- Floating point in the layout: exact reals; `Math.ceil(Math.sqrt(n))` is the least c with n at most c squared.
- `Components.UnionFind`: the grouping map is two parallel sequences, which keep the insertion order of a JavaScript Map.
- `GraphLayout.LayoutComponent`: the minima and maxima start at the first node rather than at infinity; clusters are never empty.
- YAML parsing and printing: the document is a tree.  Aliasing of services or environments through anchors, object keys with a meaning of their own in JavaScript, and fields of an unexpected type (a service that is null, a `cap_add` that is no list) are not part of the model; a `<<` key of a service is one of its other keys.
- JSON.stringify in the compose passes: an arbitrary function.
- Characters: text is a sequence of characters; UTF-8 decoding across chunk boundaries in `lineBuffer` is not modelled, and `toLowerCase` is an arbitrary function that, for idempotence only, leaves text of lower-case letters, digits and dashes alone.
- The generic patterns of the redactor: arbitrary disjoint replacements, which covers any regular expression.
- Deployment: the reads of the row before the claim and of the secrets and configuration are part of the guard step; the notification and the service row are part of the reporting step; single image pulls are not events; the timer of the cancellation watch is an event that may come at any time or never; a stack deployment that the abort signal breaks off leaves no mark in the log, though part of the stack may have been deployed.
- Deployment: idempotency keys of triggers and the list queries, which are read-then-write without compare-and-set.
- InterpolationLimits: the reading of the Compose Specification it compares with is the one about empty variables only; a plain reference to an unset variable is left as written in both, as the source documents (`packages/compose/src/interpolate.ts:28-32`).
- LogWriter: one agent process at a time, and inserts not committed at a crash are lost; the map of writers by deployment is one state machine per deployment.
- CertificateWatch: the agent handles one certificate job at a time, as it registers one worker; the delays of the queue are arbitrary, and so is the number of times it delivers a job again before it gives it up (`packages/queue/src/client.ts:41-52` leaves that to the queue's default); domains without TLS, the other jobs of `createDomain`, and its checks of ownership are not part of this model; `packages/traefik/src/acme-status.ts` is the set of hosts it finds, or nothing when the file cannot be read.
- CertificateWatch.CertificateWatch.CreateDomain: the uuid the database generates is a parameter that is not in use yet.
- RateLimit: the clock is a parameter and never runs back; buckets are never evicted, as in the code.
- ComposeFile.ComposeFile.Prepare: reading, interpolating and writing the file and pulling images around it are not part of this method; interpolation is `Interpolation`.
- `resolveEnvValue`, `deployTemplate`, the database engine specifications, formatting helpers and cryptography: they would add easy members only.
- Cron and backup due-checks and runtime log tails: single-owner rules that hold only with whole functions taken as atomic.
