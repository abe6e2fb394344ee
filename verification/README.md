# Tillandsias: verified models of its stateful core

Seven parts of Tillandsias, modelled in Dafny and proved: the fleet
coordinator, the browser window's navigation guard and its DevTools
connection, the studio's write guard, the plan archiver, the icon writer, host
names and their allowlist, and the keepalive injector.

Check everything with `dafny verify dfyconfig.toml`.

## How it is built

Code that updates state in place is a class or a method with loops, proved equal
to a specification function; what the source promises is then proved about that
function, over whole runs. A run is a sequence of steps of any kind in any order,
and `At`, `RunAt` or a sequence of states gives the state before step `i`.

| file | models |
|---|---|
| `Tables.dfy`, `Coordinator.dfy` | one namespace of the fleet coordinator: its tables, one op, and the class that runs ops |
| `Leases.dfy`, `Cursor.dfy`, `Staleness.dfy`, `Answers.dfy`, `SweepErasure.dfy`, `SweptLeases.dfy`, `SweptPolls.dfy`, `Wakes.dfy` | whole runs of it: claims, polls, the overview, the answers' other fields, sweeps against no sweeps, the alarm |
| `TokenBucket.dfy` | the rate limiter |
| `Batch.dfy` | the Worker's scatter and gather over namespaces |
| `Navigation.dfy`, `Outcomes.dfy` | the watch shared by the navigating caller and the event worker, and what a navigation comes to |
| `CdpClient.dfy`, `CallOutcomes.dfy`, `Framing.dfy` | DevTools calls, replies, why a call ends as it does, and the NUL framing below them |
| `Glob.dfy`, `Guard.dfy`, `Studio.dfy` | globs as regular expressions, the path guard, the save and the sweep |
| `Archiver.dfy`, `ArchiveLaws.dfy`, `PacketLines.dfy`, `Addressed.dfy`, `PlanRun.dfy` | the plan archiver, how it reads a line, which packets it may move, and a whole run |
| `HostLabel.dfy`, `Allowlist.dfy` | a project's name in a host, and which URLs open |
| `Ico.dfy` | the icon container and the DIB form of an image |
| `Keepalive.dfy` | comments injected into an event stream |
| `Prelude.dfy`, `Separated.dfy` | helpers |

Parameters stand for what the code reads from outside: the clock, which does not
go backwards; `crypto.randomUUID`, which does not repeat; the results of
browser calls; the failure of a git command (after `budget` of them); the order
in which namespace calls complete.

## What the code does not do

Where a promise does not hold of the code, the model keeps the code and the
project states when it does hold.

* **`retry_after_s`** promises that waiting helps. A cost above the bucket's
  size is never granted, so the wait helps if and only if the cost fits
  (`TokenBucket.RetryAfterIsExact`, `TokenBucket.WaitingCanBeInVain`). A batch
  can cost at most 20, so this needs a limit below that.
* **Messages and sweeps.** The cap of 1000 rows counts expired rows, so a store
  whose alarm has run may show a live message that one whose alarm has not has
  already evicted (`SweptPolls.SweptStoreCanShowMore`). Polls answer alike if
  and only if every unexpired row of the live store is among the last 1000
  numbers sent (`SweptPolls.PollsAgreeIff`).
* **Late releases and sweeps.** A release of an expired lease succeeds until a
  sweep has removed the lease (`SweptLeases.LateReleaseTellsOfTheSweep`). It is
  answered as if no sweep had run if and only if it does not bear the token of a
  lease that some wake met expired (`SweptLeases.ReleasesAgreeIff`).
* **The studio's sweep** promises that a refused path is put back and an
  allowlisted one committed. The loop stops at the first path that git cannot
  settle: an allowlisted path in neither the index nor the work tree
  (`Studio.VanishedFileThrows`), or a refused one in the index but not in HEAD
  (`Studio.StagedNewFileThrows`). What comes behind it stays as the request left
  it, and no later sweep looks at it again unless it changes
  (`Studio.StagedNewFileShieldsTheRest`). Besides, the sweep asks
  `git ls-files`, so a refused path of HEAD whose deletion the request *staged*
  counts as untracked and stays deleted (`Studio.StagedDeletionStays`). A
  touched path ends clean if and only if it was clean, or git can settle it and
  every path before it and, if it is refused, it is in the index or not in HEAD
  (`Studio.EndsCleanIff`).
* **The sweep takes every change between its two readings for the request's.** A
  file that somebody else changes while the request is under way is committed
  or put back as well (`Studio.SomebodyElsesFileGoes`).
* **`**` in a glob** should cross everything, but the compiled `.` stops at line
  terminators. The expression never accepts more than the glob
  (`Glob.PatternMeansGlob`), and the two agree on a path for every glob if and
  only if the path holds no line terminator (`Glob.ExactIffOneLine`).
* **A failing write** may leave part of a frame in the DevTools pipe, which then
  stands in front of the next message in its frame, and that message is lost
  (`Framing.TornWriteLosesTheNext`). A message arrives in a frame of its own if
  and only if no failing write has left bytes since the last complete frame, and
  all arrive if and only if no such write precedes a complete one
  (`Framing.ArrivesIff`, `Framing.AllArriveIff`). Bytes left after the last
  message only make one more frame (`Framing.TornWriteAtTheEndLosesNone`); what
  the browser makes of that frame is not in this source.
* **A DevTools call that registers after the reader has gone** is never told and
  ends by its timeout (`CdpClient.LateCallWaitsForItsTimeout`,
  `CdpClient.ALateCallTimesOut`).
* **The event worker re-navigates outside the lock.** When a new `navigate`
  begins after the worker has claimed an attempt, the worker still sends the
  page to the older URL, and the loader that call answers goes into the new
  navigation's watch, whose own failing requests are then ignored
  (`Navigation.AnOldErrandMisleadsTheWatch`). The call, and the loader recorded,
  are the newest navigation's if and only if none has begun since the claim
  (`Navigation.WorkerServesTheNewestIff`).
* **A loader re-navigates once** holds per navigation. A new `navigate` starts
  with nothing abandoned, so late events of an old loader can re-navigate the
  new page too (`Navigation.ALoaderCanRenavigateTwoNavigations`): exactly when a
  claim is made for a request recorded under a loader that an earlier navigation
  was charged with (`Navigation.LoadersApartIff`), which takes a report under it
  after the new navigation began (`Navigation.LoadersStayApart`). And within a
  navigation it speaks of reported requests. Requests that fail before anybody
  knows their loader can re-navigate again and again
  (`Navigation.UnknownLoadersClaimTwice`); a loader claims twice in no other way
  (`Navigation.OnlyUnknownLoadersClaimTwice`).
* **Keepalive comments are invisible** between events. At any point of the
  stream, a comment changes no message of any continuation if and only if the
  stream has begun and the parser is between events (`Keepalive.HarmlessIff`).
  Both ways to fail happen with timely ticks: upstream pauses KEEPALIVE_MS inside
  an event (`Keepalive.APauseInsideSplitsAnEvent`), or starts, after KEEPALIVE_MS,
  with a byte order mark (`Keepalive.ALateMarkLosesAMessage`). In the second case
  nothing is lost if and only if the line behind the mark sets no data, event
  type or id (`Keepalive.MarkAfterCommentIff`).
* **An addressed packet keeps its rows** if and only if each of its names is
  remembered by a row that has all its names: the last row with a name takes the
  alias (`Addressed.AddressedLeavesWholeIff`). Whatever fragments address, its
  names leave or stay together if and only if no remembered row has some of them
  and not the rest (`Addressed.NamesStayTogetherIff`). Unique names suffice for
  both; a shared name can break them (`Addressed.SharedNameSplitsAPacket`,
  `PlanRun.AddressedPacketCanLeave`).

## Model

| member | source | states |
|---|---|---|
| Tables.ClampTtl | cloud/coordinator/src/coordinator.ts:57-60 | a time to live is between one second and the maximum: a finite number is rounded down and, outside that range, becomes the nearer bound; anything else is the default |
| Tables.RefusedIff | cloud/coordinator/src/coordinator.ts:155-275 | each error answer has exactly one cause: not joined, a needed field that is not a non-empty text within its limit, an overview over 256 KiB, an unknown op; and none changes a table |
| Tables.PageLimit | cloud/coordinator/src/coordinator.ts:192 | a page holds between one and 100 messages: a number, an infinite one too, is rounded down and cut to that range; anything else means 100 |
| Tables.VisibleIsExact | cloud/coordinator/src/coordinator.ts:193-201 | a filtered table holds exactly the rows that are newer than the cursor and unexpired, in key order |
| Tables.RowsAfterAreASuffix | cloud/coordinator/src/coordinator.ts:184-187 | deleting every key up to that of row k leaves exactly the rows after row k |
| Tables.MessagesAfter | cloud/coordinator/src/coordinator.ts:174-188 | only an accepted send changes the messages: it adds the caller's own body, provider, name and time under the next key, with the expiry it answers, and keeps the newest 1000 |
| Tables.StepKeepsOrder | cloud/coordinator/src/coordinator.ts:155-296 | every op and every sweep keeps keys strictly increasing under a mark that never goes back |
| Tables.RowsWereSent | cloud/coordinator/src/coordinator.ts:167-188 | every row of every run was sent by one op of the run: its body, provider, sender and time are that op's, its number and expiry those the sender was told |
| Coordinators.Coordinator.constructor | cloud/coordinator/src/coordinator.ts:69-87 | a new namespace has empty tables and no alarm |
| Coordinators.Coordinator.Take | cloud/coordinator/src/coordinator.ts:92-107 | the bucket row and the verdict are those of the specification of one take |
| Coordinators.Coordinator.InsertMessage | cloud/coordinator/src/coordinator.ts:174-187 | insertion and the SQL deletion by key leave exactly the newest 1000 rows, the new one last under the next key |
| Coordinators.Coordinator.SelectPage | cloud/coordinator/src/coordinator.ts:193-201 | the scan that stops at the limit returns the first matching rows of the whole table |
| Coordinators.Coordinator.StoreOverview | cloud/coordinator/src/coordinator.ts:140-153 | an overview within the limit replaces the row, synced under its sha and with no bumps; a larger one changes nothing |
| Coordinators.Coordinator.ApplyOverviewOp | cloud/coordinator/src/coordinator.ts:205-238 | row and answer of a put, a get or a bump are those of their specification, freshness among them |
| Coordinators.Coordinator.ApplyOp | cloud/coordinator/src/coordinator.ts:155-277 | tables and answer of any op are those of its specification, on every error path too |
| Coordinators.Coordinator.ApplyClaimOp | cloud/coordinator/src/coordinator.ts:239-260 | the same for a claim |
| Coordinators.Coordinator.ScheduleSweep | cloud/coordinator/src/coordinator.ts:280-289 | the alarm moves to the earliest expiry unless one is pending no later |
| Coordinators.Coordinator.ApplyOps | cloud/coordinator/src/coordinator.ts:112-116 | a batch answers each op against the tables the ops before it left, then schedules |
| Coordinators.Coordinator.AlarmHandler | cloud/coordinator/src/coordinator.ts:291-296 | the alarm deletes exactly the expired rows and schedules anew |
| TokenBucket.TokensInRange | cloud/coordinator/src/coordinator.ts:94-104 | over every run the tokens stay within zero and the limit |
| TokenBucket.WindowBound | cloud/coordinator/src/coordinator.ts:92-107 | in any window of any run, what is granted is at most one bucketful plus the refill of the window |
| TokenBucket.AllowedIffWindowsAllow | cloud/coordinator/src/coordinator.ts:92-107 | over every run a take is allowed if and only if its cost fits the bucket and keeps every window that starts at an earlier take within one bucketful and the refill, and the whole within what a used bucket held and gained; so a grant takes its cost and no more |
| TokenBucket.AFreshBucketGrantsItsSize | cloud/coordinator/src/coordinator.ts:96-98 | a fresh bucket of two grants two takes of one at once, and not a third |
| TokenBucket.MinuteFills | cloud/coordinator/src/coordinator.ts:95 | a minute brings exactly one bucketful |
| TokenBucket.RefusedTakeIsInvisible | cloud/coordinator/src/coordinator.ts:94-106 | deleting a refused take from a run changes no later verdict |
| TokenBucket.QuietMinuteRefills | cloud/coordinator/src/coordinator.ts:95-97 | a new identity, or one silent for a minute, is granted exactly the costs that fit the bucket |
| TokenBucket.RetryAfterIsExact | cloud/coordinator/src/coordinator.ts:97-106 | after the stated wait the same cost is granted if and only if it fits the bucket, and a second less is too soon, through any refused takes in between |
| TokenBucket.WaitingCanBeInVain | cloud/coordinator/src/coordinator.ts:97-106 | a cost of two from a limit of one is told to wait a minute and refused after any wait |
| Leases.LeaseAfter | cloud/coordinator/src/coordinator.ts:239-267 | the lease on an order changes only by a grant, to a caller who met no other live holder, or by a release with its current token |
| Leases.LeaseSafety | cloud/coordinator/src/coordinator.ts:239-267 | after a grant until u, another identity is granted the order before u only if the holder claimed again or its token was released in between; sweeps never allow it |
| Leases.RivalIsTold | cloud/coordinator/src/coordinator.ts:243-246 | while a lease stands, a rival's claim is answered with the holder and the expiry, and changes nothing |
| Leases.ClaimByHistory | cloud/coordinator/src/coordinator.ts:239-260 | the history of grants and releases alone, whatever sweeps ran, decides a claim: held exactly while a grant to somebody else stands, with its holder and expiry; else granted, unless 500 others are live |
| Leases.ReleaseByHistory | cloud/coordinator/src/coordinator.ts:261-267 | a well-formed release answers that it released if and only if the grant whose token it bears stands and no wake has met it expired; then the order is free |
| Leases.LiveGrantsCanBeReleased | cloud/coordinator/src/coordinator.ts:261-267 | in particular the holder of a live grant can always release it |
| Leases.ReleasedIsFree | cloud/coordinator/src/coordinator.ts:261-267 | after a release no grant of the order stands, so that a claim by anyone meets no rival |
| Leases.ListingByHistory | cloud/coordinator/src/coordinator.ts:268-273 | a listing shows an order exactly if a grant of it stands and is live, with that grant's holder and expiry |
| Leases.SupersededTokenReleasesNothing | cloud/coordinator/src/coordinator.ts:249-267 | once an order is granted again, to anyone, the older token never releases it |
| Leases.LiveClaimsAreCapped | cloud/coordinator/src/coordinator.ts:247-248 | at no later moment of any run from an empty store are more than 500 claims live |
| SweepErasure.SweepsAreInvisible | cloud/coordinator/src/coordinator.ts:239-273 | in a run with any sweeps, every op but a poll is answered as in the run with none, if and only if it is not a release whose lease only the unswept store still has |
| SweepErasure.LiveReleasesAreSafe | cloud/coordinator/src/coordinator.ts:261-267 | so are all claims, sends, listings and overview ops, and releases of a live lease or of an order with none |
| SweptLeases.GoneIffSwept | cloud/coordinator/src/coordinator.ts:291-296 | a lease of the unswept store is gone from the live one exactly when a wake at or after its expiry ran while it was held |
| SweptLeases.ReleasesAgreeIff | cloud/coordinator/src/coordinator.ts:261-267 | a release is answered as in the run with no sweeps if and only if it does not bear the token of such a lease |
| SweptLeases.LateReleaseTellsOfTheSweep | cloud/coordinator/src/coordinator.ts:261-267 | a run in which a late release is answered differently |
| SweepErasure.SweepsHideNoMessage | cloud/coordinator/src/coordinator.ts:193-201 | a message visible in the unswept store is visible in the swept one |
| SweptPolls.PollsAgreeIff | cloud/coordinator/src/coordinator.ts:184-204 | after any run, polls answer as if no sweep had run, for every cursor and limit, if and only if every unexpired row of the store is among the last 1000 numbers sent |
| SweptPolls.PollsAgreeBelowTheCap | cloud/coordinator/src/coordinator.ts:184-204 | so polls answer alike while no more than 1000 messages were sent |
| SweptPolls.SweptStoreCanShowMore | cloud/coordinator/src/coordinator.ts:184-187 | a run after which the swept store shows a live message the unswept one has evicted |
| SweepErasure.RunsAgree | cloud/coordinator/src/coordinator.ts:291-296 | the relation between both stores, which every step of every run keeps; among it, the unswept store always holds the newest min(n, 1000) sends without a gap |
| Cursor.PollIsExact | cloud/coordinator/src/coordinator.ts:190-204 | one poll returns, in order, all and only the unexpired rows between the old cursor and the new, and a page not full leaves none above |
| Cursor.NextIsTheAnswer | cloud/coordinator/src/coordinator.ts:202-203 | the `next` of the answer is the cursor the client's run goes on with |
| Cursor.DeliveredOnce | cloud/coordinator/src/coordinator.ts:190-204 | polls chained by `next` return strictly increasing numbers, whatever happens between them |
| Cursor.EveryNumberIsAccountedFor | cloud/coordinator/src/coordinator.ts:184-204 | a number the cursor has passed was delivered, or had no unexpired row at the poll that passed it |
| Cursor.SendsLandAboveTheCursor | cloud/coordinator/src/coordinator.ts:174-204 | a later send never lands at or below a cursor |
| Answers.JoinsAnswer | cloud/coordinator/src/coordinator.ts:155-164 | a join says that it created the namespace exactly if it is the first of the run; every other op is refused exactly before it |
| Answers.TimesToLive | cloud/coordinator/src/coordinator.ts:172-173 | a message lives for what its field asks, six hours without one and at most a day; a claim ten minutes, at most fifteen |
| Answers.PollDefaults | cloud/coordinator/src/coordinator.ts:191-192 | a poll without a number for a cursor starts at 0, and without one for a limit asks for 100 |
| Answers.AnyPoll | cloud/coordinator/src/coordinator.ts:190-204 | from any cursor, infinities included, a poll returns the unexpired rows above it up to the last returned, and all if they fit |
| Answers.EveryAnswerTellsFreshness | cloud/coordinator/src/coordinator.ts:122-138 | the freshness in any answer is the history's: last sync, its age in whole seconds, bumps, and whether the overview might be outdated |
| Staleness.OverviewAfter | cloud/coordinator/src/coordinator.ts:140-238 | only an accepted put or bump changes the overview row |
| Staleness.OverviewByHistory | cloud/coordinator/src/coordinator.ts:140-238 | after any run the row is the history's: the sha and time of the last accepted put or bump, the overview last stored, and the bumps since |
| Staleness.GetTellsTheLastPut | cloud/coordinator/src/coordinator.ts:122-138 | a get hands out the overview last stored and says it is not outdated exactly when the last sync was of the sha it was stored under, is recent enough, and is where the client is |
| Wakes.ScheduleArms | cloud/coordinator/src/coordinator.ts:280-289 | after scheduling, no row expires before the alarm, which is the pending one or some row's expiry, and never postponed |
| Wakes.AlwaysArmed | cloud/coordinator/src/coordinator.ts:112-116 | at every point of every life of a namespace, an alarm is pending no later than the earliest expiry |
| Wakes.EntriesAreARun | cloud/coordinator/src/coordinator.ts:112-116 | the batches and alarms of a namespace object, flattened, are a run of its tables, so that every result about runs speaks of the object's life |
| Wakes.WakeRearmsAhead | cloud/coordinator/src/coordinator.ts:291-296 | the handler sets an alarm exactly when rows are left, strictly in the future and at a real expiry |
| Wakes.DueWakeRemoves | cloud/coordinator/src/coordinator.ts:293-294 | a wake at or after some row's expiry removes a row |
| Wakes.WakesTerminate | cloud/coordinator/src/coordinator.ts:280-296 | with no further ops there are at most rows + 1 wakes, and when none is pending the store is empty |
| Batch.ShapeCheck | cloud/coordinator/src/index.ts:34-43 | each malformed op gets its own rejection, each other slot stays open |
| Batch.NamespacesAre | cloud/coordinator/src/index.ts:21-32 | a namespace is one name or two around a slash, at most 128 characters, a name beginning with a lower-case letter or digit and going on with these, dots, underscores and hyphens |
| Batch.GroupByNamespace | cloud/coordinator/src/index.ts:44-49 | the loop files each well-shaped op under its namespace, in batch order |
| Batch.GroupsAreTheNamespaces | cloud/coordinator/src/index.ts:53 | the number of groups, which is the cost, is the number of distinct namespaces |
| Batch.NamespaceSeesItsGroup | cloud/coordinator/src/index.ts:62-70 | executing the whole batch in order does to one namespace what executing its group alone does |
| Batch.AnswerGoesToItsSlot | cloud/coordinator/src/index.ts:68 | the k-th answer of a namespace is the in-order answer of the slot it is put into |
| Batch.ScatterOne | cloud/coordinator/src/index.ts:63-69 | one namespace call fills exactly that namespace's slots, with the in-order answers |
| Batch.Run | cloud/coordinator/src/index.ts:42-72 | whatever order the namespace calls complete in, answers and tables are those of the ops one by one; a rate-limited batch touches no namespace |
| Navigation.WindowState.BeginNavigation | crates/tillandsias-browser-mcp/src/window_cdp.rs:553-565 | starts a watch with one attempt and forgets the requests of the page before |
| Navigation.WindowState.SettleAttempt | crates/tillandsias-browser-mcp/src/window_cdp.rs:570-604 | the caller's section after an answer, as specified |
| Navigation.WindowState.LoadingFailed | crates/tillandsias-browser-mcp/src/window_cdp.rs:676-709 | the early returns and the claim of an attempt, as specified |
| Navigation.WindowState.RequestWillBeSent | crates/tillandsias-browser-mcp/src/window_cdp.rs:763-773 | records a request's loader for the watched page only |
| Navigation.WindowState.RenavigationAnswered | crates/tillandsias-browser-mcp/src/window_cdp.rs:811-821 | records the new loader, if a watch is left |
| Navigation.AlwaysInv | crates/tillandsias-browser-mcp/src/window_cdp.rs:549-827 | the invariant over every interleaving: attempts capped and matched by calls made or owed, both threads at the newest watch, charged loaders abandoned |
| Navigation.AtMostFourCalls | crates/tillandsias-browser-mcp/src/window_cdp.rs:549-604 | however the threads interleave, one navigation issues at most four `Page.navigate` calls |
| Outcomes.AnsweredCall | crates/tillandsias-browser-mcp/src/window_cdp.rs:570-604 | an answered call makes the caller ready for one attempt more exactly after a network change below four attempts, fail exactly on any other error, and be done exactly without one; unless it tries again the watch learns a loader it lacked |
| Outcomes.NavigationBegins | crates/tillandsias-browser-mcp/src/window_cdp.rs:553-565 | a navigation begins with one attempt and nothing known, abandoned or reported |
| Outcomes.NavigationEnds | crates/tillandsias-browser-mcp/src/window_cdp.rs:567-603 | a failing navigation, and no other, ends without a watch |
| Outcomes.FailingRequest | crates/tillandsias-browser-mcp/src/window_cdp.rs:676-709 | a failing request re-navigates exactly when it died of a network change on the watched page, within fifteen seconds, below four attempts, and is of the current attempt; and what the watch then gives up |
| Outcomes.LoadersAreTheReported | crates/tillandsias-browser-mcp/src/window_cdp.rs:763-773 | a request's loader is the one last reported for it on the watched page since the navigation began |
| Outcomes.LoadedByHistory | crates/tillandsias-browser-mcp/src/window_cdp.rs:608-610 | the watch counts as loaded exactly if the load event has come since the navigation began and was last claimed again |
| Outcomes.LoaderByHistory | crates/tillandsias-browser-mcp/src/window_cdp.rs:582-589 | the loader the watch knows is the one its calls answered since: the worker's last, or else the caller's first |
| Navigation.RecoveriesAreTheExtraAttempts | crates/tillandsias-browser-mcp/src/window_cdp.rs:577-581 | `recoveries` is the sum of attempts beyond the first, over all navigations |
| Navigation.ALoaderRenavigatesOnce | crates/tillandsias-browser-mcp/src/window_cdp.rs:694-704 | within a navigation no loader's requests re-navigate twice, however many fail and however late |
| Navigation.ClaimsForTheNewest | crates/tillandsias-browser-mcp/src/window_cdp.rs:676-709 | over every interleaving, only a network change on the newest navigation's page within its watch claims an attempt, and it names that navigation's page and URL |
| Navigation.WorkerServesTheNewestIff | crates/tillandsias-browser-mcp/src/window_cdp.rs:803-821 | the call the worker then makes goes to the URL of the claim; it, and the loader recorded from it, are the newest navigation's if and only if none has begun since the claim |
| Navigation.AnOldErrandMisleadsTheWatch | crates/tillandsias-browser-mcp/src/window_cdp.rs:805-821 | a run in which the worker sends the page to an older URL, the new watch gets the loader of that load, and a failure of the new page's own loader is ignored |
| Navigation.LoadersApartIff | crates/tillandsias-browser-mcp/src/window_cdp.rs:676-704 | a loader is charged in two navigations if and only if some claim was for a request recorded under an older navigation's charged loader |
| Navigation.LoadersStayApart | crates/tillandsias-browser-mcp/src/window_cdp.rs:553-565 | that takes a request reported under such a loader after the new navigation began |
| Navigation.OnlyUnknownLoadersClaimTwice | crates/tillandsias-browser-mcp/src/window_cdp.rs:684-704 | with the loader each request really has: two claims of one loader within a navigation mean that the first request was unreported and the watch did not know its loader |
| Navigation.UnknownLoadersClaimTwice | crates/tillandsias-browser-mcp/src/window_cdp.rs:694-701 | a run in which two unreported requests re-navigate one navigation twice |
| Navigation.ALoaderCanRenavigateTwoNavigations | crates/tillandsias-browser-mcp/src/window_cdp.rs:553-565 | a run in which the same loader re-navigates two navigations |
| CdpClient.CdpConnection.TakeId | crates/tillandsias-browser-mcp/src/cdp_client.rs:159 | the counter gives an id no call has had |
| CdpClient.CdpConnection.RemovePending | crates/tillandsias-browser-mcp/src/cdp_client.rs:175-184 | the cleanup after a failed write or a timeout is the protocol's step |
| CdpClient.CdpConnection.TakeSender | crates/tillandsias-browser-mcp/src/cdp_client.rs:280-284 | the reader removes the entry it answers and skips an id it does not know |
| CdpClient.CdpConnection.DropAll | crates/tillandsias-browser-mcp/src/cdp_client.rs:303-304 | the reader's last act drops every pending sender |
| CdpClient.AlwaysInv | crates/tillandsias-browser-mcp/src/cdp_client.rs:153-305 | the invariant over every interleaving of callers, timers and reader |
| CdpClient.IdsAreDistinctAndPendingInFlight | crates/tillandsias-browser-mcp/src/cdp_client.rs:159-184 | ids on the wire are distinct, and a pending id is of a call still in flight |
| CdpClient.OutcomeIsFinal | crates/tillandsias-browser-mcp/src/cdp_client.rs:179-188 | a call has one outcome |
| CallOutcomes.OutcomesHaveCauses | crates/tillandsias-browser-mcp/src/cdp_client.rs:170-188 | a call fails to be written, times out, is told that the relay closed, or has an answer exactly if just that has happened to it |
| CallOutcomes.RoutedRepliesAreReceived | crates/tillandsias-browser-mcp/src/cdp_client.rs:282-296 | a reply routed to a waiting call is there to be received once the reader has sent it, and only with the reader gone and no reply routed is the call told of a close |
| CallOutcomes.WaitersAreToldOfTheClose | crates/tillandsias-browser-mcp/src/cdp_client.rs:185-304 | a call that waits when the reader drops every sender comes to that error and no other |
| CallOutcomes.WireIsTheWrites | crates/tillandsias-browser-mcp/src/cdp_client.rs:171-174 | the wire is the writes of the run, in order |
| CallOutcomes.WaitersAreOnTheWire | crates/tillandsias-browser-mcp/src/cdp_client.rs:171-179 | a call that has waited has its frame on the wire |
| CdpClient.ReplyIsTheCallersOwn | crates/tillandsias-browser-mcp/src/cdp_client.rs:280-296 | a caller that gets a reply gets a message that came in for its own id, and no other was routed to that id |
| CdpClient.ExitFailsEveryPendingCall | crates/tillandsias-browser-mcp/src/cdp_client.rs:303-304 | every entry present when the reader exits ends in an error, and its waiting caller is told at once, not by its timer |
| CdpClient.LateCallWaitsForItsTimeout | crates/tillandsias-browser-mcp/src/cdp_client.rs:170-188 | a call that registers after that can only end by its timeout or a failed write |
| CdpClient.ALateCallTimesOut | crates/tillandsias-browser-mcp/src/cdp_client.rs:170-184 | a run in which a late call is written, waits, and can end by its timer alone |
| CdpClient.ReachesTheBrowserIff | crates/tillandsias-browser-mcp/src/cdp_client.rs:164-178 | in any run, a message written reaches the browser in a frame of its own if and only if no call's failing write has cut a frame short since the last complete one |
| CdpClient.CdpConnection.WriteFrame | crates/tillandsias-browser-mcp/src/cdp_client.rs:171-174 | a write under the writer's lock puts one frame, or the part that got through, behind all before |
| Framing.ReadChunk | crates/tillandsias-browser-mcp/src/cdp_client.rs:266-276 | a chunk completes the frames it ends and leaves the rest as the unfinished one, whatever follows |
| Framing.ReadFrames | crates/tillandsias-browser-mcp/src/cdp_client.rs:265-276 | however the stream is cut into chunks, the reader sees the frames of the whole stream |
| Framing.IntactIsRecovered | crates/tillandsias-browser-mcp/src/cdp_client.rs:164-174 | splitting the stream of whole frames recovers exactly the messages, in order |
| Framing.FramesConserve | crates/tillandsias-browser-mcp/src/cdp_client.rs:265-276 | splitting loses nothing but the NULs |
| Framing.SplittingYields | crates/tillandsias-browser-mcp/src/cdp_client.rs:168-276 | whatever writes fail, splitting yields each whole message behind the bytes torn since the last NUL, then the unfinished rest |
| Framing.ArrivesIff | crates/tillandsias-browser-mcp/src/cdp_client.rs:168-276 | a message arrives intact if and only if no failing write since the whole frame before it left bytes |
| Framing.AllArriveIff | crates/tillandsias-browser-mcp/src/cdp_client.rs:168-276 | all messages arrive, each in its place, if and only if no failing write that left bytes precedes a whole one |
| Framing.TornWriteLosesTheNext | crates/tillandsias-browser-mcp/src/cdp_client.rs:171-178 | a write that fails after one byte loses the next message |
| Framing.TornWriteAtTheEndLosesNone | crates/tillandsias-browser-mcp/src/cdp_client.rs:171-178 | one that fails after the last message only adds a frame |
| Framing.RecoveredIffNothingTorn | crates/tillandsias-browser-mcp/src/cdp_client.rs:168-178 | the frames are the messages and nothing more if and only if no failing write left bytes |
| Glob.GlobToRegExp | images/studio/studio-front.js:47-63 | the index loop emits the text specified, construct by construct |
| Glob.TextParsesBack | images/studio/studio-front.js:53-59 | the emitted text is a regular expression, and parses to one item per glob construct |
| Glob.ItemsMean | images/studio/studio-front.js:45-63 | what the items accept from a position the glob matches, and the other way round on a path of one line |
| Glob.PatternMeansGlob | images/studio/studio-front.js:47-63 | the compiler preserves meaning: parsed back and matched, the text accepts a path exactly when the glob matches it, for all paths of one line; on no path does it accept more |
| Glob.ExactIffOneLine | images/studio/studio-front.js:47-63 | expression and glob agree on a path, for every glob, if and only if the path holds no line terminator |
| Glob.LineTerminatorStopsStarStar | images/studio/studio-front.js:53 | on a lone line feed `**` matches as a glob and not as compiled |
| Guard.AllowedIsInside | images/studio/studio-front.js:84-111 | whatever is requested, an allowed path is below the checkout's root, through proper segments none of which is a git directory, and matches a glob |
| Guard.Verdicts | images/studio/studio-front.js:84-111 | the verdict on any request, cause by cause and in this order: no path, absolute, outside the checkout, a git directory, no glob; else allowed under the resolved path |
| Guard.OneMoreSegment | images/studio/studio-front.js:94 | a further segment of a request goes down, nowhere, or up, and never above the root of all |
| Guard.GitDirInAnyCase | images/studio/studio-front.js:103 | the git directory in any case, and nothing else |
| Guard.CanonicalIsAllowedIff | images/studio/studio-front.js:84-111 | a path as git reports it is allowed exactly when a glob matches it and no guard against NULs, drives, leading dots or git directories does |
| Guard.CanonicalStays | images/studio/studio-front.js:98-110 | the guard gives such a path back unchanged |
| Studio.TouchedIsTheChange | images/studio/studio-front.js:178-180 | the sweep looks at each path whose signature the request changed, once, and at no other |
| Studio.NewStampNewSignature | images/studio/studio-front.js:151-161 | a path whose file got another stamp, appeared or vanished has another signature |
| Studio.SameSignature | images/studio/studio-front.js:151-161 | equal signatures mean an equal stamp or none, and that HEAD, index and file differ in the same way |
| Studio.Checkout.SettlePath | images/studio/studio-front.js:181-199 | one turn of the loop, command by command, ends as specified or stops at the first failure |
| Studio.Checkout.Sweep | images/studio/studio-front.js:176-201 | the loop settles the touched paths in order; when it goes through, `refused` is exactly the touched paths the guard refuses, in their order and once for each, and empty exactly if it refuses none |
| Studio.Checkout.Save | images/studio/studio-front.js:119-136 | a refused save changes nothing; another goes through exactly if the file is written and no git command fails, leaves HEAD, index and work tree equal to the content, and made a commit exactly if HEAD differed; no other path changes whatever fails |
| Studio.UntouchedStays | images/studio/studio-front.js:176-201 | a path whose signature did not change between the two readings keeps HEAD, index and work tree, even when the sweep throws half way |
| Studio.EndsCleanIff | images/studio/studio-front.js:181-199 | with no command failing by itself, whether the sweep throws or not: a touched path ends clean if and only if it was clean, or git can settle it and all before it and, if refused, it is in the index or not in HEAD; HEAD at a refused path and the content of an allowlisted one stay |
| Studio.SweepCommitsOrPutsBack | images/studio/studio-front.js:181-199 | of a sweep that goes through, also past other failures: an allowlisted touched path is committed as the request left it; a refused one is equal to HEAD if and only if it is in the index or not in HEAD |
| Studio.RemainingDirt | images/studio/studio-front.js:138-201 | afterwards exactly the dirt of before the request that it did not touch is left, and the refused staged deletions |
| Studio.SweepGoesThroughIff | images/studio/studio-front.js:181-199 | the sweep throws, with no command failing by itself, exactly when git has nothing to add or nothing to restore for some path |
| Studio.StagedDeletionStays | images/studio/studio-front.js:183-188 | a refused deletion that the request staged is not put back, though the sweep goes through |
| Studio.StagedNewFileThrows | images/studio/studio-front.js:184-185 | a request that stages a refused new file makes the sweep throw |
| Studio.StagedNewFileShieldsTheRest | images/studio/studio-front.js:181-188 | and a refused untracked file behind it stays, listed as it will be before the next request |
| Studio.VanishedFileThrows | images/studio/studio-front.js:193 | a request that removes an untracked file at an allowlisted path makes the sweep throw |
| Studio.SomebodyElsesFileGoes | images/studio/studio-front.js:177-187 | a file written by somebody else between the two readings is removed as if the request had written it |
| Archiver.FlushPacket | scripts/archive-plan-packets.rb:183-204 | a packet goes whole to the index or to its month file, unless the file has it |
| Archiver.Archive | scripts/archive-plan-packets.rb:174-245 | the line loop ends with the specified index, month files and count, or stops at a header without an id |
| PacketLines.HeadersAre | scripts/archive-plan-packets.rb:172 | a line heads a packet exactly if it begins with one of the three keys at a step's indentation |
| PacketLines.HeadersNameTheirPacket | scripts/archive-plan-packets.rb:207-216 | each of the three heads a packet under the plain name behind it, bare or in quotes |
| PacketLines.BlankHeadersHaveNoName | scripts/archive-plan-packets.rb:216 | one with only blanks behind the colon has no name |
| PacketLines.RowStaysIff | scripts/archive-plan-packets.rb:206-240 | every line of a row headed by any of the keys under a plain name is kept exactly if the name is not terminal, so a row led by `order` shares no fate with the one before |
| PacketLines.TopLevelLinesAre | scripts/archive-plan-packets.rb:230 | a line that begins with a letter ends a packet |
| PacketLines.DatesAre | scripts/archive-plan-packets.rb:224-227 | a line dates its packet exactly if it is a `ts:` line, and then by its year and month |
| PacketLines.UndatedPackets | scripts/archive-plan-packets.rb:215 | a packet with no such line goes to May 2026 |
| PacketLines.HasIdIs | scripts/archive-plan-packets.rb:192-193 | a month file has a packet exactly if a line of it is one of the keys' headers of just that name |
| PacketLines.CountIsTheArchived | scripts/archive-plan-packets.rb:194-246 | the number reported is that of the packets appended |
| ArchiveLaws.NewIndexIsTheKeptLines | scripts/archive-plan-packets.rb:206-245 | the new index is, in order, exactly the lines not under a header with a terminal id, so every other row is kept whole |
| ArchiveLaws.MonthFilesGainTheMovedLines | scripts/archive-plan-packets.rb:183-199 | each month file is what it was followed by exactly the lines sent to it, in order |
| ArchiveLaws.FinalFateIsJudged | scripts/archive-plan-packets.rb:206-243 | a line that leaves goes to the month of its packet's last dated line, unless that file already had a header for the packet |
| ArchiveLaws.CrashesIff | scripts/archive-plan-packets.rb:216 | the script stops exactly at a header with no id |
| ArchiveLaws.SecondRunDoesNothing | scripts/archive-plan-packets.rb:174-246 | a second run with the same terminal ids keeps every line and archives nothing |
| ArchiveLaws.WrittenIndexReadsBack | scripts/archive-plan-packets.rb:174-245 | the second run reads the written index as the lines the first one kept |
| Addressed.ReadTerminal | scripts/archive-plan-packets.rb:82-91 | the terminal set is every name of every row read, and a name aliases the names of the last row that has it |
| Addressed.RemoveAddressed | scripts/archive-plan-packets.rb:152-155 | exactly the addressed names and their aliases leave the terminal set |
| Addressed.AddressedLeavesWholeIff | scripts/archive-plan-packets.rb:147-155 | addressing a packet by any of its names takes all its names out, whatever the fragments are, if and only if each is remembered by a row that has them all |
| Addressed.NamesStayTogetherIff | scripts/archive-plan-packets.rb:82-155 | whatever is addressed, a packet's names all leave or all stay, if and only if no remembered row has some of them and not the rest |
| Addressed.NamesGoTogether | scripts/archive-plan-packets.rb:147-155 | unique names give both, and then a packet's names leave exactly when a fragment addresses it by any of them |
| Addressed.SharedNameSplitsAPacket | scripts/archive-plan-packets.rb:85-90 | with a shared name an addressed packet can keep its other name terminal |
| PlanRun.ArchivePlan | scripts/archive-plan-packets.rb:82-245 | reading the rows, taking out the addressed and moving the rest keeps exactly the lines of packets whose header is no terminal name that fragments leave |
| PlanRun.AddressedPacketsStay | scripts/archive-plan-packets.rb:118-245 | no line of an addressed packet leaves the index, whichever of its names heads it and whichever a fragment uses, under the condition of `AddressedLeavesWholeIff` |
| PlanRun.AddressedPacketCanLeave | scripts/archive-plan-packets.rb:147-155 | without it a packet addressed by one name is archived under the other |
| HostLabel.BuildHostLabel | crates/tillandsias-browser-mcp/src/host_label.rs:30-58 | the loops build the specified label or name the error |
| HostLabel.AcceptedIsValid | crates/tillandsias-browser-mcp/src/host_label.rs:30-58 | an accepted result has valid parts of 1 to 63 characters, at most 200 in all, and the dots of the input |
| HostLabel.FixpointIffValid | crates/tillandsias-browser-mcp/src/host_label.rs:24-29 | a name is left as it is exactly when it is such a name |
| HostLabel.LabelOfWords | crates/tillandsias-browser-mcp/src/host_label.rs:31-48 | the label of a part is its runs of letters and digits in lower case, one hyphen between each two whatever stands there, cut at 63 characters without a last hyphen |
| HostLabel.RefusedIff | crates/tillandsias-browser-mcp/src/host_label.rs:43-56 | a project names no host exactly if a part has no letter or digit, and is too long exactly over 200 characters |
| HostLabel.Idempotent | crates/tillandsias-browser-mcp/src/host_label.rs:30-58 | mapping twice is mapping once |
| HostLabel.AlikeNamesShareAHost | crates/tillandsias-browser-mcp/src/host_label.rs:24-40 | names that differ only in the case of letters, or in which characters stand where no letter, digit or dot does, get the same host |
| Allowlist.ServiceHostSplits | crates/tillandsias-browser-mcp/src/allowlist.rs:282-288 | `s.L.localhost` splits back into s and L, dots of L included |
| Allowlist.AdmittedIffServiceHost | crates/tillandsias-browser-mcp/src/allowlist.rs:204-311 | the observatorium aside, a URL is admitted as service s exactly when its host is `s.L.localhost` for the project's label, s is dot-free and not opencode, and scheme, user info and port pass |
| Allowlist.AdmittedHasAShape | crates/tillandsias-browser-mcp/src/allowlist.rs:225-311 | nothing else is admitted but the observatorium over https on port 443 |
| Allowlist.ObservatoriumIff | crates/tillandsias-browser-mcp/src/allowlist.rs:225-244 | the observatorium is admitted exactly over https, without user info, on its own port |
| Allowlist.RefusedFor | crates/tillandsias-browser-mcp/src/allowlist.rs:204-265 | the first cause for which a URL is refused, in the code's order |
| Allowlist.RefusedByName | crates/tillandsias-browser-mcp/src/allowlist.rs:282-303 | another project's host is refused with both names, and the window's own service as such |
| Allowlist.LoopbackIsAllowed | crates/tillandsias-browser-mcp/src/allowlist.rs:146-156 | loopback addresses pass the route allowlist exactly on ports 80 and 8080 |
| Allowlist.OthersAreAllowedIff | crates/tillandsias-browser-mcp/src/allowlist.rs:158-189 | any other host passes exactly under localhost, not as opencode, on a good port, and routed on it or on the router's two once any route is there |
| Allowlist.AdmittedIsAllowedIffRouted | crates/tillandsias-browser-mcp/src/allowlist.rs:123-190 | an admitted URL passes the route allowlist exactly when no route is registered, one is for its host, or it is the observatorium |
| Ico.AssembleIco | crates/tillandsias-windows-tray/build.rs:543-567 | the loops, with a 32-bit running offset, write the specified file |
| Ico.DirectoryRoundTrip | crates/tillandsias-windows-tray/build.rs:543-567 | reading the directory gives back the count, each dimension byte and each blob; blobs follow one another without a gap up to the end of the file |
| Ico.DirectoryForm | crates/tillandsias-windows-tray/build.rs:546-558 | the file says that it is an icon, and each entry its side, no palette, one plane and 32 bits |
| Ico.IcoDibEntry | crates/tillandsias-windows-tray/build.rs:504-540 | the loops over rows and pixels write the specified image |
| Ico.DibLayout | crates/tillandsias-windows-tray/build.rs:504-540 | row j of the file is the source's row s − 1 − j, each pixel as its blue, green and red un-premultiplied by its alpha, and the alpha |
| Ico.DibLength | crates/tillandsias-windows-tray/build.rs:507-510 | the length is 40 + 4s² + 4⌈s/32⌉s |
| Ico.UnRounds | crates/tillandsias-windows-tray/build.rs:528-534 | un-premultiplying rounds 255 times channel over alpha to the nearest byte, with 0 for no alpha and 255 for a channel above it |
| Ico.DibHeaderReads | crates/tillandsias-windows-tray/build.rs:512-523 | a reader finds the header length, width, doubled height, depth and the length of all that follows |
| Ico.DibMask | crates/tillandsias-windows-tray/build.rs:507-538 | what follows the colours is all zero |
| Ico.UnPremultiplyIsExact | crates/tillandsias-windows-tray/build.rs:528-534 | for channels up to alpha the clamp never cuts, and premultiplying again gives the channel back |
| Keepalive.Injector.OnTick | images/default/sse-keepalive-proxy.js:248-255 | a tick writes a comment exactly after KEEPALIVE_MS of silence |
| Keepalive.Injector.OnData | images/default/sse-keepalive-proxy.js:256-259 | upstream's bytes pass unchanged and restart the silence |
| Keepalive.ClientIsSent | images/default/sse-keepalive-proxy.js:248-259 | the client is sent every chunk, and a comment with a blank line at a tick exactly if nothing was sent for KEEPALIVE_MS |
| Keepalive.WriteGapIsBounded | images/default/sse-keepalive-proxy.js:247-259 | with timely ticks the client waits less than KEEPALIVE_MS plus one interval for the next bytes |
| Keepalive.CommentIsInvisible | images/default/sse-keepalive-proxy.js:235-246 | between events the comment changes no field, no message and no event id of the parser (section 9.2.6 of the HTML Standard) |
| Keepalive.HarmlessIff | images/default/sse-keepalive-proxy.js:241-246 | at any point of the stream a comment changes no message of any continuation if and only if the stream has begun and the parser is between events |
| Keepalive.CommentsBetweenAreInvisible | images/default/sse-keepalive-proxy.js:247-260 | a client whose comments all came between events gets exactly the upstream's messages, a late byte order mark aside |
| Keepalive.ClientSeesTheSameEvents | images/default/sse-keepalive-proxy.js:235-260 | if upstream never pauses KEEPALIVE_MS inside an event, the same follows |
| Keepalive.CommentBeforeMarkLosesAMessage | images/default/sse-keepalive-proxy.js:248-255 | as parser text: behind a comment, a byte order mark loses the first message |
| Keepalive.APauseInsideSplitsAnEvent | images/default/sse-keepalive-proxy.js:248-259 | a run with timely ticks in which a pause inside an event makes two messages of one |
| Keepalive.ALateMarkLosesAMessage | images/default/sse-keepalive-proxy.js:248-259 | a run with timely ticks in which a comment before a byte order mark loses a message |
| Keepalive.MarkAfterCommentIff | images/default/sse-keepalive-proxy.js:248-259 | with a mark behind a comment, nothing changes, whatever follows, if and only if the line behind the mark sets no data, event type or id |

## Left out

- Navigation.ALoaderRenavigatesOnce: per navigation and for the loader a request was recorded under, because beyond that it is false; `LoadersApartIff` and `OnlyUnknownLoadersClaimTwice` say when.
- Navigation.LoadersStayApart: one way, since a stale report need not be followed by a failure; `LoadersApartIff` is exact.
- Navigation: one navigating caller at a time; the wait for the load event, device emulation, `set_device` and its race with attaching pages, the capped tails of console and network.
- SweepErasure.SweepsAreInvisible: not for polls, which `SweepsHideNoMessage` and `PollsAgreeIff` cover.
- Studio.SweepCommitsOrPutsBack: of sweeps that go through; `EndsCleanIff` covers those that throw.
- Studio: paths are as git reports them, without symbolic links, renames, copies, pathspec wildcards, ignored files and directory clashes, and `git ls-files` fails only for an unknown path.
- Keepalive.ClientSeesTheSameEvents: chunks are decoded text, since a comment cannot fall inside a character unless upstream pauses there; a late byte order mark is excepted, and whether a given comment inside an event shows depends on what upstream goes on to send.
- Ico.IcoDibEntry: for sizes below 0x8000, as the code's 32-bit size arithmetic demands.
- Addressed.NamesGoTogether: for unique names; the exact conditions are `AddressedLeavesWholeIff` and `NamesStayTogetherIff`.
- Glob: the parser covers the fragment of regular expressions that the compiler can emit; a char stands for a UTF-16 code unit.
- The coordinator: the texts of error answers, and the order in which claims are listed, which is a map here. An overview is its JSON text, which parsing and printing leave alone, and STALE_AFTER_S is a finite number.
- Authentication, HTTP routing, body and batch size limits of the Worker; a per-minute limit of zero or below.
- Floating-point rounding of the token bucket, which is over reals, and a clock that goes backwards.
- A namespace call of a batch is one step; namespaces are independent stores, so calls of one batch meet only in the results. Ops of other requests between them are runs of one namespace, which the namespace modules cover.
- CdpClient: `call` blocks half way, so it is a sequence of steps interleaved with the other threads' and not one method; the wrap-around of a 64-bit id, events without an id, and a read error inside a frame are not modelled.
- The archiver's queries of the folded ledger, its file globbing and its exits on a broken read: the rows and the addressed names are inputs.
- Parsing of URLs: records of an already parsed URL are inputs.
- Rendering of the icon's images; PNG entries are blobs.
- The other crates, images and scripts, among them the proxy's HTML rewriting and content security policy.
