# Family planner, verified

A Dafny model of the parts of the family planner server whose correctness is hard to see from the code: the
kiosk rotation protocol and its races, the passphrase limiter, the split-tree layout editor, the calendar grids
and filters, the shopping-list grouping, background refreshing and the last-good cache, playlist order, and the
quarter-hour chimes. `dafny verify dfyconfig.toml` checks everything.

## How it is built

| module | models |
|---|---|
| `Rotation` | `State` and `Manager` of `internal/rotation/rotation.go`: each lock section is a function of a cursor value; the classes are proved to compute exactly those functions |
| `KioskStream` | `handleKioskStream` racing against phone requests: a state machine with one action per lock section, channel operation or event sent; theorems range over every interleaving |
| `KioskPause`, `KioskEdits` | what a pause and what a playlist edit mean to that state machine |
| `StreamItems` | `deviceItems`: the rows of a playlist as items with their dwells, in 64-bit Durations |
| `RateLimiter` | the token bucket, in integers: token counts are multiplied by the refill period, so nothing is rounded |
| `Layout`, `LayoutTree`, `LayoutEditor` | the split tree as a value; the same tree as cells overwritten in place through pointers, proved equal to the value operations; dotted paths and requests |
| `CivilCalendar`, `Calendar`, `CalendarFilter` | the Gregorian calendar; event placement, grids, agenda, fetch windows; the filter language |
| `Bring` | the section catalogue, its day-long cache, and the grouping of the list |
| `BackgroundRefresh`, `Broker` | single flight and throttle of on-show refreshes; the cache rows against the history of refreshes, with refreshes of one widget interleaved |
| `Playlist` | the item table, its ordered listing, and the three handlers, against a plain list of identifiers |
| `VoiceClock` | beats, chimes, leads, deadlines and quiet hours |
| `Prelude`, `Text` | small shared types; the few functions of Go's `strings` and `strconv` that the code relies on |

Where the code is written step by step, a method with the same branches is proved against a function, and the
properties are proved of that function for all inputs or all runs. Small lemmas beside the definitions spell out
constants and tables with the numbers and words themselves (`Broker.LifetimeIs`, `VoiceClock.DutchHourIs`,
`CivilCalendar.KnownDays`, `LayoutEditor.LoadIs` and the like).

## Where a tempting property is false

Each of these is kept as the code has it, with the exact condition or a witness proved.

- A paused stream can still move by itself, once, and that exactly when its loop is past a check of the paused flag (`KioskPause.PausedNeverMovesIff`, `PauseStopsRotation`); `PauseCanBeOvertakenOnce` shows how it gets there.
- A playlist edit wakes nobody: the kiosk is then right about the view exactly if the edit left the view to show (`KioskEdits.EditIsHarmlessIff`), and otherwise stays wrong until the next wake-up or, at the latest, the next dwell expiry (`KioskStream.DwellExpirySuffices`).
- A UI command that was accepted can still be lost: when the stream closes, the one in hand and those in the buffer are dropped, up to nine (`KioskStream.HangUpDropsHandAndBuffer`, `NineCommandsCanBeMissing`); an open stream loses none (`ServingSendsEverything`).
- `Goto(0)` shows nothing new unless the playlist holds view 0 (`Rotation.GotoShowsTheView`).
- When the newest of two streams of a device closes, the older one, though open, is no longer reachable (`Rotation.OlderStreamIsOrphaned`).
- Pruning the limiter is unobservable exactly for refill periods up to ten minutes and a nanosecond (`RateLimiter.PruningIsUnobservableIff`, `RateIsBoundedIff`, `GrantedIffBoundAllowsIff`), and, unless every nanosecond earns an attempt, only up to there do denied attempts never keep a bucket remembered (`DeniedAttemptsLeaveNoTraceIff`); the server uses one minute.
- All-day events end before their DTEND only in zones not behind the one they were written in (`Calendar.AllDayEventEndsBeforeDtend`).
- Eleven or twelve weeks without a start date, and wide relative grids or agendas, reach outside the fetch window (`Calendar.UnpinnedWeeksAreFetchedIff`, `WeekGridIsFetchedIff`, `AgendaIsFetchedIff`).
- The package comment of `internal/broker/broker.go` promises that a failed fetch keeps the last good value. Two refreshes of one widget can run at once (the background loop and a shown widget), and a failure that looked before the first success was written then overwrites it, data and expiry (`Broker.OvertakenFailureDestroysGoodData`); `Broker.LastGoodIsKeptIff` and `SuccessIsKeptIff` say exactly when the promise holds.
- A dwell above 9 223 372 036 seconds, which the forms accept, overflows (`StreamItems.DwellIsAskedIff`). So would an interval (`Broker.CadenceIsLeastIntervalIff`), but the forms cap both interval settings at a day, so only a database edited by hand gets there.
- A path parameter with a part that is no number addresses the root of the layout (`LayoutEditor.ParsePath`).

## Model

| member | source | states |
|---|---|---|
| `Rotation.LockSectionsKeepRange` | internal/rotation/rotation.go:36-104 | every lock section of `State` keeps the index on an item (or at 0 without items), so the index repair in `Current` never fires |
| `Rotation.NextAndPrevAreInverse` | internal/rotation/rotation.go:63-80 | next and previous undo each other, except that both drop a goto override |
| `Rotation.AdvancesGoRoundRobin` | internal/rotation/rotation.go:63-70 | k advances from item p show item (p + k) mod n, wrapping included |
| `Rotation.GotoShowsTheView` | internal/rotation/rotation.go:85-97 | after a jump the asked view is the current one, if and only if it is not view 0 or the playlist holds view 0 |
| `Rotation.SetItemsKeepsTheCursor` | internal/rotation/rotation.go:36-43 | a replaced playlist leaves position, pause and goto override as they were, and the same position shows; only a playlist too short for it shows its first item; setting the same items changes nothing |
| `Rotation.GotoMovesTheCursor` | internal/rotation/rotation.go:85-97 | a jump lands on exactly the first item showing the view and drops the override; without one only the override changes |
| `Rotation.CommandsDoWhatTheySay` | internal/rotation/rotation.go:177-196 | next and previous move the position by one modulo the number of items and drop the override, pause and resume set the flag and nothing else, an unknown command changes nothing |
| `Rotation.State.SetItems` | internal/rotation/rotation.go:36-43 | the method has exactly the effect of its lock section on the four fields |
| `Rotation.State.Current` | internal/rotation/rotation.go:47-60 | the override wins, then the item at the (repaired) index; false only without both |
| `Rotation.State.Next` | internal/rotation/rotation.go:63-70 | drops the override and advances with Go's remainder |
| `Rotation.State.Prev` | internal/rotation/rotation.go:73-80 | drops the override and steps back, wrapping |
| `Rotation.State.Goto` | internal/rotation/rotation.go:85-97 | the search loop finds the first item showing the view; without one the view becomes the override; always true |
| `Rotation.State.SetPaused` | internal/rotation/rotation.go:100-104 | sets the flag and nothing else |
| `Rotation.Conn.Signal` | internal/rotation/rotation.go:218-223 | after a signal one is pending, whether or not one was before |
| `Rotation.StaleReleaseNeverDropsNewerStream` | internal/rotation/rotation.go:142-156 | over any history of connects and releases, the registry holds a stream if and only if it is the device's newest and was not itself released since |
| `Rotation.OlderStreamIsOrphaned` | internal/rotation/rotation.go:145-153 | releasing the newest stream leaves an older open one unreachable |
| `Rotation.Manager.Connect` | internal/rotation/rotation.go:142-156 | the registry keeps following the history; the stream is new, empty-slotted and starts at the first item |
| `Rotation.Manager.Release` | internal/rotation/rotation.go:148-154 | the registry keeps following the history for any release, stale ones included |
| `Rotation.Manager.SendClientCmd` | internal/rotation/rotation.go:161-172 | accepted exactly when the device has a stream with fewer than eight commands waiting; appended last; the playback state is not touched |
| `Rotation.Manager.Command` | internal/rotation/rotation.go:177-196 | true exactly for a known command to a connected device; applies the command's lock section and signals; an unknown command does neither |
| `Rotation.Manager.Goto` | internal/rotation/rotation.go:199-210 | true exactly for a connected device; run alone, it jumps, pauses and signals |
| `KioskStream.StepKeepsInv` | internal/server/server.go:584-659 | every single action of loop or phone keeps the invariant that ties cursor, pending signal, requests in flight, point of the loop and what the kiosk was told |
| `KioskStream.NoLostWakeUp` | internal/server/server.go:533-659 | in every interleaving, whenever the loop waits with no wake-up due and no playlist edit since it last read, the kiosk was told the current view and countdown, and the advance timer has exactly the value that the item and the last answer about advancing on end require |
| `KioskStream.AtRestTheKioskShowsTheItem` | internal/server/server.go:512-546 | the same read off the fields: the item's own view, its dwell in seconds (30 without one) or 0 when paused, and a timer of the item's dwell or, on an advance-on-end view, of 30 minutes |
| `KioskStream.AdvanceTimerIsExact` | internal/server/server.go:518-532 | arming the timer sets 30 minutes exactly if the view was found to advance on its end, else the item's own dwell; a goto override and an empty playlist get 30 seconds |
| `KioskStream.RequestIsServed` | internal/rotation/rotation.go:177-210 | a request that finds a waiting stream is served: after its lock sections and its signal, one pass of the loop shows exactly what was asked for; a jump shows its view, paused |
| `KioskStream.OnePassPerSignalSuffices` | internal/rotation/rotation.go:177-223 | from any reachable state with a signal pending, finishing the branch and one pass for the slot, whatever the database answers in each, make the kiosk agree with everything requested: coalesced signals lose nothing |
| `KioskStream.DwellExpirySuffices` | internal/server/server.go:624-631 | from any waiting state with no wake-up due, edited or not, one dwell expiry makes the kiosk agree with the state, which moved to the next item, or stayed if paused |
| `KioskStream.ChimeShowsTheClock` | internal/server/server.go:632-654 | a chime jumps to the announcing clock's view and shows it, unless there is none, the stream is paused, or that view is already showing: then the cursor stays |
| `KioskStream.UICommandsAreForwardedInOrder` | internal/server/server.go:612-615 | in every interleaving, what was sent is a prefix of what was accepted, and what is missing is the command in hand and then the buffer: at most nine, at most eight where the loop waits |
| `KioskStream.NineCommandsCanBeMissing` | internal/server/server.go:612-615 | nine is met: a receive from a full buffer makes room for one more before the first is sent |
| `KioskStream.HangUpDropsHandAndBuffer` | internal/server/server.go:605-615 | after a hang-up nothing more is sent; what is dropped for good is the command in hand, the buffer, and what phones still holding the stream add to it |
| `KioskStream.ServingSendsEverything` | internal/server/server.go:612-615 | an open stream loses nothing: from any waiting state, serving the command branch sends all that was accepted and changes nothing else |
| `KioskPause.PauseStopsRotation` | internal/server/server.go:624-656 | from a pause taking effect until a resume takes effect the cursor stays paused and moves by itself at most once, and only if the loop was past its check at that moment; resumes may be in flight all along |
| `KioskPause.PausedNeverMovesIff` | internal/server/server.go:624-656 | from a paused state, no legal run without a resume taking effect moves the cursor by itself, if and only if the loop is not past a check of the paused flag |
| `KioskPause.PausedCursorIsFrozen` | internal/server/server.go:624-656 | paused and not past a check, the cursor and override do not change through any dwell expiry, chime, wake-up or send |
| `KioskPause.PausedCursorFollowsRequests` | internal/server/server.go:624-656 | with phones and playlist edits acting too, the cursor is exactly what their lock sections make of it: the loop adds nothing until a resume takes effect |
| `KioskPause.PauseCanBeOvertakenOnce` | internal/server/server.go:624-627 | the bound of one is met: five steps in which a pause takes effect between check and move |
| `KioskEdits.EditIsHarmlessIff` | internal/server/server.go:616-623 | from any state at rest and for any edit, the refresh branch leaves the kiosk right about the view if and only if the view to show is the same before and after; likewise for the countdown, and for the advance timer and what it is to run for; reading the same rows leaves the cursor as it is |
| `KioskEdits.EditAloneLeavesTheScreenBehind` | internal/server/server.go:616-623 | from any state at rest, an edit to another single view leaves the kiosk on the old one, with nothing due, if and only if no goto override is set |
| `StreamItems.DeviceItems` | internal/server/server.go:1002-1023 | one item per row in order, with the row's own dwell, else the playlist's, as 64-bit Durations, and never under three seconds |
| `StreamItems.DwellIsAskedIff` | internal/server/server.go:1012-1019 | a dwell is what was asked for, but for the floor of three seconds, if and only if that is at most 9 223 372 036 seconds |
| `StreamItems.ZeroCountdownMeansPaused` | internal/server/server.go:512-546 | with that floor, a countdown of 0 tells the kiosk exactly that it is paused |
| `RateLimiter.RateLimiter.Allow` | internal/server/ratelimit.go:43-63 | answer and new buckets are those of the specification: prune, create, refill, cap, take |
| `RateLimiter.RateLimiter.Prune` | internal/server/ratelimit.go:66-76 | at most once a minute, forgets exactly the buckets idle for more than ten minutes, in whatever order the map is walked |
| `RateLimiter.RefillComposes` | internal/server/ratelimit.go:53-57 | refilling lazily in two instalments is refilling once, cap included |
| `RateLimiter.TakeRespectsLevels` | internal/server/ratelimit.go:46-62 | two bucket maps with the same levels give the same answer and again the same levels |
| `RateLimiter.PruningKeepsLevels` | internal/server/ratelimit.go:66-76 | pruning changes no key's level if the refill period is at most ten minutes and 1 ns |
| `RateLimiter.PruningIsUnobservable` | internal/server/ratelimit.go:43-76 | on every monotone trace over any keys the limiter answers as one that never prunes |
| `RateLimiter.PruningIsUnobservableIff` | internal/server/ratelimit.go:43-76 | that holds for all traces if and only if the period is at most ten minutes and 1 ns |
| `RateLimiter.TwoBurstsTellThemApart` | internal/server/ratelimit.go:71-75 | beyond that limit two bursts separate the two limiters |
| `RateLimiter.GrantsArePaidFor` | internal/server/ratelimit.go:43-63 | attempts granted to a key cost no more than its level plus what the time in between earned |
| `RateLimiter.RateIsBounded` | internal/server/ratelimit.go:28-63 | in any window of any trace the pruning limiter grants a key at most burst + refill * T attempts |
| `RateLimiter.RateIsBoundedIff` | internal/server/ratelimit.go:28-76 | for any burst and period, the pruning limiter keeps that bound over all windows of all traces if and only if the period is at most ten minutes and 1 ns |
| `RateLimiter.LevelIsLeastSlack` | internal/server/ratelimit.go:43-63 | a bucket's level is a full bucket or what the tightest window up to now leaves, whichever is less |
| `RateLimiter.GrantedIffBoundAllows` | internal/server/ratelimit.go:28-63 | the pruning limiter grants an attempt if and only if one more grant keeps every window ending with it within burst + refill * T: no needless denial |
| `RateLimiter.GrantedIffBoundAllowsIff` | internal/server/ratelimit.go:28-76 | for any burst and period, that holds for every attempt of every trace if and only if the period is at most ten minutes and 1 ns |
| `RateLimiter.DeniedAttemptsLeaveNoTrace` | internal/server/ratelimit.go:53-62 | striking any denied attempts from a trace changes none of the other answers |
| `RateLimiter.DeniedAttemptsLeaveNoTraceIff` | internal/server/ratelimit.go:43-76 | for any burst and period, that holds for all traces if and only if the period is at most ten minutes and 1 ns or every nanosecond earns an attempt |
| `RateLimiter.KeptBucketsAreRecent` | internal/server/ratelimit.go:65-76 | after every call each kept bucket was used less than eleven minutes ago |
| `RateLimiter.ForgottenExactlyWhenIdle` | internal/server/ratelimit.go:66-76 | a sweep happens exactly if there was none for 60 s and forgets exactly the buckets unused for more than 600 s; kept buckets are not touched |
| `RateLimiter.PassphraseAttempts` | internal/server/server.go:86-87 | the passphrase limiter grants one address, in any window of T, at most ten attempts and one for every six seconds |
| `Layout.Validate` | internal/layout/layout.go:71-91 | reports no fault exactly for trees whose nodes are a leaf, or a row or column of at least two valid children |
| `Layout.SplitInsertsOnePane` | internal/layout/layout.go:108-125 | a split keeps every pane in order and puts exactly one empty pane right after the target |
| `Layout.SplitMovesOnlyTheTarget` | internal/layout/layout.go:116-123 | the target becomes a split of the requested direction with exactly two children of weight 1.0, the old content first and an empty pane second; every path beside the target leads where it led |
| `Layout.RemoveUndoesSplit` | internal/layout/layout.go:108-147 | removing child 1 of a split just made restores the tree exactly, weights included |
| `Layout.RemoveDeletesOneSubtree` | internal/layout/layout.go:129-147 | a removal deletes exactly the addressed subtree's contiguous panes |
| `Layout.RemoveShiftsPaths` | internal/layout/layout.go:138-145 | every other node is found unchanged at its shifted path, collapse included |
| `Layout.RemoveKeepsSiblings` | internal/layout/layout.go:138-145 | the parent keeps its direction and its other children in order with their weights, or becomes the one child left |
| `Layout.SetWidgetChangesOnePane` | internal/layout/layout.go:150-157 | changes the widget of one pane, keeping its configuration and every other pane |
| `Layout.SplitKeepsValid` | internal/layout/layout.go:108-125 | keeps trees valid; a refused call changes nothing |
| `Layout.RemoveKeepsValid` | internal/layout/layout.go:129-147 | keeps trees valid; a refused call changes nothing |
| `Layout.SetWidgetKeepsValid` | internal/layout/layout.go:150-157 | keeps trees valid; a refused call changes nothing |
| `Layout.SetWeightKeepsValid` | internal/layout/layout.go:160-174 | keeps trees valid; a refused call changes nothing |
| `Layout.RemovalSucceedsIff` | internal/layout/layout.go:129-147 | a removal succeeds exactly for every existing node but the root |
| `Layout.OperationsSucceedIff` | internal/layout/layout.go:108-174 | a split succeeds exactly for a known direction and an existing pane, a widget is set exactly in an existing pane, and a weight exactly if it is positive and the node could be removed |
| `Layout.RefusalsSay` | internal/layout/layout.go:108-174 | a refusal names the first condition that fails |
| `LayoutTree.PutInPlace` | internal/layout/layout.go:95-104 | overwriting one cell in a tree without sharing is replacing the addressed node of the value and leaves the rest alone |
| `LayoutTree.LayoutTree.FromNode` | internal/server/admin_layout.go:32-39 | any loaded layout becomes a tree of new, unshared cells with exactly its value |
| `LayoutTree.LayoutTree.ToNode` | internal/server/admin_layout.go:41-47 | the node to store is exactly the value of the cells |
| `LayoutTree.LayoutTree.Find` | internal/layout/layout.go:95-104 | the walk returns the addressed cell, null exactly when the path leads nowhere |
| `LayoutTree.LayoutTree.SplitLeaf` | internal/layout/layout.go:108-125 | in place, the same tree and the same error as on values |
| `LayoutTree.LayoutTree.Remove` | internal/layout/layout.go:129-147 | in place, the same tree and the same error as on values; no new cells |
| `LayoutTree.LayoutTree.SetWidget` | internal/layout/layout.go:150-157 | in place, the same tree and the same error as on values |
| `LayoutTree.LayoutTree.SetWeight` | internal/layout/layout.go:160-174 | in place, the same tree and the same error as on values |
| `LayoutEditor.ParsePath` | internal/server/admin_layout.go:16-30 | the loop yields the numbers between the dots, or the root for a blank string or any part that is no number |
| `LayoutEditor.PathRoundTrip` | internal/server/admin_layout.go:16-30 | parsing a printed path of indices gives the path back |
| `LayoutEditor.EditorPathsLeadBack` | internal/server/admin_layout.go:138-160 | for every node of every valid tree, the path shown by the editor, parsed from a request, leads to exactly that node |
| `LayoutEditor.EditorPathsAreDistinct` | internal/server/admin_layout.go:149-157 | distinct nodes are shown with distinct paths |
| `LayoutEditor.EditorShowsTheNode` | internal/server/admin_layout.go:138-160 | a pane is shown with its widget and, if there is one, that widget's name; a split with its direction, its weights and as many children |
| `LayoutEditor.RequestsEditTheShownNode` | internal/server/admin_layout.go:49-136 | in every valid layout, a request sent with the path shown for a node stores the split, removal, widget or drag of exactly that node |
| `LayoutEditor.StoredLayoutsAreValid` | internal/server/admin_layout.go:85-136 | whatever was stored at first, after any run of requests the stored layout is valid, and no request was turned down by the re-check |
| `LayoutEditor.ViewLayout.Mutate` | internal/server/admin_layout.go:85-107 | loads, edits the tree in place by the parsed path, re-checks and stores; the answer "invalid layout" never comes |
| `LayoutEditor.ViewLayout.DragWeights` | internal/server/admin_layout.go:110-136 | loads, applies the drag in place and stores without a re-check |
| `LayoutEditor.ApplyWeights` | internal/server/admin_layout.go:121-130 | the loop over the tree in place computes the specification of a drag |
| `LayoutEditor.WeightsLandByPosition` | internal/server/admin_layout.go:121-130 | a drag replaces child weights by position where the number is positive and changes nothing else in the tree |
| `LayoutEditor.BinaryHasOnePaneMore` | internal/layout/layout.go:108-125 | a valid binary tree has one pane more than splits |
| `LayoutEditor.GrownLayoutsAreBinary` | internal/server/admin_layout.go:64-136 | layouts grown by requests from the default pane are strictly binary, one pane more than splits |
| `Calendar.SameDateMeansSameDay` | internal/widget/calendar.go:591-595 | comparing year, month and day is comparing days |
| `Calendar.TimedEventOccupiesWhatItMeets` | internal/widget/calendar.go:123-142 | a timed event occupies a day if and only if [start, end) meets it |
| `Calendar.AllDayEventEndsBeforeDtend` | internal/widget/calendar.go:123-142 | an all-day event with midnight bounds occupies exactly the days before its exclusive DTEND if and only if the zone does not lie behind the event's; otherwise it is one day early |
| `Calendar.EventWithoutEndIsOnItsStartDay` | internal/widget/calendar.go:123-133 | an event without an end, or with one not after its start, is on its start day alone |
| `Calendar.LineShowsStartTime` | internal/widget/calendar.go:144-151 | a line shows hour and minute exactly on the day a timed event starts, else a bullet |
| `Calendar.CollectLines` | internal/widget/calendar.go:548-554 | a day's lines are those of the events occupying it, in order |
| `Calendar.BuildMonth` | internal/widget/calendar.go:533-563 | the loops keep, of six weeks from the Monday before the first, those with a day of the month |
| `Calendar.BuildMonthWeek` | internal/widget/calendar.go:541-557 | one row of seven consecutive days, and whether it holds a day of the month |
| `Calendar.InMonthCells` | internal/widget/calendar.go:544 | comparing month numbers without the year never mislabels one of the 42 cells, and each carries the date and lines of its own day |
| `Calendar.MonthGridShowsTheMonth` | internal/widget/calendar.go:533-563 | for every date: four to six consecutive Monday-first weeks, every day of the month exactly once and exactly these in the month, and today marked on one cell only |
| `Calendar.BuildRows` | internal/widget/calendar.go:316-329 | whole weeks of consecutive days from the given day on |
| `Calendar.BuildWeekGrid` | internal/widget/calendar.go:306-331 | starts on the Monday of the week reached by going back, with before + ahead + 1 weeks |
| `Calendar.BuildAbsWeeks` | internal/widget/calendar.go:350-380 | starts on the Monday of the pinned date, or of today without one, with 1 to 12 weeks |
| `Calendar.PinnedGridStartsOnMonday` | internal/widget/calendar.go:350-380 | the first day is a Monday in the week of the pinned date, or of today without one; one to twelve weeks as asked; cell k of week w carries the date, today mark and lines of day first + 7w + k |
| `Calendar.WeekGridStartsOnMonday` | internal/widget/calendar.go:306-331 | the first day is the Monday of the week that lies so many weeks back; every cell carries the date, today mark and lines of its own day |
| `Calendar.GridListsEveryDayOfEveryEvent` | internal/widget/calendar.go:306-331 | the lines of a grid are, summed over the events, the days of their spans that fall into the grid |
| `Calendar.EventAppearsOnItsDays` | internal/widget/calendar.go:306-331 | in a grid of any events, each one has its line, at its place in the order, in exactly the cells of the days it occupies, as many as its span has days in the grid |
| `Calendar.BuildAgenda` | internal/widget/calendar.go:492-531 | the first thirty, by start, of the events starting between this week's Monday (less the weeks back) and the end of the last day ahead |
| `Calendar.AgendaShowsTheEarliest` | internal/widget/calendar.go:510-520 | whatever the sort does with equal starts: at most thirty, in order of start, all from the window, as often as they occur, and none left out starts earlier than one shown |
| `Calendar.AgendaWindowIs` | internal/widget/calendar.go:499-515 | an event is in the window if and only if its start day lies from the Monday of this week, less the weeks back, to the last day ahead |
| `Calendar.PinnedWindowIs` | internal/widget/calendar.go:161-171 | a pinned date's fetch window holds exactly the days from a week before its first week or 70 days before now, whichever is earlier, to a week after its last week or 70 days after now, whichever is later |
| `Calendar.PlainWindowIs` | internal/widget/calendar.go:157-158 | every other fetch window holds exactly the whole days within 70 days of now |
| `Calendar.MonthGridIsFetched` | internal/widget/calendar.go:157-158 | every day of the month grid lies in the fetch window |
| `Calendar.PinnedWeeksAreFetched` | internal/widget/calendar.go:161-171 | every day of a pinned grid lies in the fetch window, for any now, start date and week count |
| `Calendar.UnpinnedWeeksAreFetchedIff` | internal/widget/calendar.go:157-171 | without a start date the grid lies in the window if and only if it has at most ten weeks |
| `Calendar.WeekGridIsFetchedIff` | internal/widget/calendar.go:157-158 | exactly when the relative week grid lies in the window |
| `Calendar.AgendaIsFetchedIff` | internal/widget/calendar.go:157-158 | exactly when the agenda's days lie in the window |
| `CalendarFilter.ParseFilter` | internal/widget/calendar.go:629-648 | the nested loops compute the parse of the string |
| `CalendarFilter.Match` | internal/widget/calendar.go:652-669 | the loops with early exits answer: no clauses, or some clause all of whose terms hold |
| `CalendarFilter.TermMatchesInside` | internal/widget/calendar.go:652-669 | a one-term filter matches if and only if the lower-cased property reads a + value + b for some a and b |
| `CalendarFilter.ValueInsideMatches` | internal/widget/calendar.go:652-669 | in particular a value inside lower-case text is found |
| `CalendarFilter.CommaConcatenates` | internal/widget/calendar.go:629-648 | parsing a, comma, b is the parse of a followed by the parse of b |
| `CalendarFilter.CommaIsOr` | internal/widget/calendar.go:622-669 | a comma matches as a disjunction; a side without clauses drops out |
| `CalendarFilter.SpaceIsAnd` | internal/widget/calendar.go:622-669 | within a clause, white space matches as a conjunction, for any two texts without comma |
| `CalendarFilter.NormalFilterParsesBack` | internal/widget/calendar.go:629-648 | printing a normalised filter and parsing it returns it |
| `CalendarFilter.PrintedFilterParsesBack` | internal/widget/calendar.go:629-648 | every parse is normalised, so parse, print, parse gives the first parse again |
| `CalendarFilter.CaseNeverMatters` | internal/widget/calendar.go:629-669 | changing the case of filter or property values changes no answer |
| `Bring.BuildSections` | internal/widget/bring.go:111-124 | the order is the section names in catalogue order; each lower-cased name and identifier maps to the section that files it last, and nothing else is a key |
| `Bring.BuiltIndexIsConsistent` | internal/widget/bring.go:111-124 | the map only answers names that are in the order |
| `Bring.EveryEntryIsFound` | internal/widget/bring.go:111-124 | every entry of the catalogue can be looked up by its lower-cased name and identifier |
| `Bring.AnswersAreFiled` | internal/widget/bring.go:111-124 | whatever a key maps to is a section that lists the key under one of its entries |
| `Bring.ItemTextIs` | internal/widget/bring.go:57-64 | the Dutch name where the catalogue has a non-empty one, else the item's own; a specification follows in brackets |
| `Bring.ItemSectionIs` | internal/widget/bring.go:246-258 | the section filed for the Dutch name, else for the item's own, else "Overig" |
| `Bring.SectionCache.Sections` | internal/widget/bring.go:79-126 | a catalogue under a day old, a failed download or an empty document leave the cache as it is; otherwise map, order and time are replaced together |
| `Bring.SectionCache.ListItems` | internal/widget/bring.go:228-271 | flat without grouping or catalogue, grouped by the cached catalogue otherwise |
| `Bring.FileItems` | internal/widget/bring.go:247-258 | the map of lists holds each section's items in list order |
| `Bring.Emit` | internal/widget/bring.go:260-266 | emitting and deleting a section continues the specified output |
| `Bring.GroupItems` | internal/widget/bring.go:246-271 | the loops produce the specified output |
| `Bring.GroupingKeepsEveryItemIff` | internal/widget/bring.go:246-271 | for any map and order, the output minus headers is a permutation of the flat list if and only if every section used is in the order or "Overig" |
| `Bring.GroupingConservesTheList` | internal/widget/bring.go:246-271 | with a consistent catalogue: a permutation; under each header exactly its section's items in list order; one header per non-empty section; headers in order of first occurrence in catalogue order plus "Overig" |
| `BackgroundRefresh.Refresher.BgRefresh` | internal/server/server.go:947-974 | starts exactly when the widget is not in flight and its last start is at least ten seconds old; the new state is that of the state machine's step |
| `BackgroundRefresh.Refresher.Done` | internal/server/server.go:966-971 | the end of a fetch takes its widget out of flight and leaves its last start |
| `BackgroundRefresh.RefreshingIsInFlight` | internal/server/server.go:947-974 | over every run `refreshing` is exactly the set of widgets with a running fetch, and no widget has two |
| `BackgroundRefresh.StartsAreSpaced` | internal/server/server.go:959-964 | starts of one widget are at least ten seconds apart, if the clock does not run back within a call |
| `BackgroundRefresh.StartsPerWindow` | internal/server/server.go:62-65 | any window of length T sees at most floor(T / 10 s) + 1 starts of a widget |
| `BackgroundRefresh.ShownWidgetIsFetchedUnless` | internal/server/server.go:955-964 | a shown widget gets a fetch of its own that is then running, unless one is running or started under ten seconds before: then nothing changes |
| `BackgroundRefresh.FinishedFetchIsOver` | internal/server/server.go:966-971 | the end of a fetch ends that fetch only, keeps its start time, and leaves its widget free to start again |
| `Broker.GlobalIntervalSecs` | internal/broker/broker.go:150-161 | a stored positive number, raised to 30 if below; 15 minutes for anything else |
| `Broker.RefreshCap` | internal/broker/broker.go:130-146 | zero without sources, else the least effective interval in nanoseconds, wrapped to 64 bits: the zero sentinel does no harm |
| `Broker.LeastIntervalIs` | internal/broker/broker.go:130-146 | the least interval is at most every positive own one, at most the global one if a source has none, and is one of these |
| `Broker.CadenceIsLeastIntervalIff` | internal/broker/broker.go:101-110 | a source-backed value is kept for exactly the least effective interval if and only if that is at most 9 223 372 036 seconds |
| `Broker.Broker.RefreshWidget` | internal/broker/broker.go:74-120 | each outcome writes the row as the specified events do; a success expires at now plus its lifetime |
| `Broker.Broker.MarkErr` | internal/broker/broker.go:265-279 | one failed refresh, run alone, marks an existing row stale and creates an empty one otherwise |
| `Broker.WritesLeave` | internal/db/dbgen/cache.sql.go:117-140 | what each write leaves in the row it reaches, column by column, and that every other row stays |
| `Broker.ExpiryIsTruncated` | internal/broker/broker.go:111-116 | the stored second is the last one not after the moment of expiry |
| `Broker.LastGoodIsKeptIff` | internal/broker/broker.go:72-120 | over every interleaving, all rows always show the last good data since the last clear if and only if no failure that found no row writes over a row that holds data |
| `Broker.SerialisedRefreshesKeepLastGood` | internal/broker/broker.go:265-279 | it holds whenever every failure's look reads without error and no success for its widget comes between the look and the write |
| `Broker.OvertakenFailureDestroysGoodData` | internal/broker/broker.go:265-277 | otherwise a failure can replace fetched data by "null" |
| `Broker.StatusIsOkIff` | internal/db/dbgen/cache.sql.go:117-140 | over every interleaving a row's status is "ok" exactly when the last write that reached it since the last clear was a success |
| `Broker.SuccessIsKeptIff` | internal/broker/broker.go:265-279 | over every interleaving, a success keeps data and expiry until the next success or clear, if and only if no failure that found no row overwrites it with another row |
| `Broker.FailuresNeverMoveTheExpiry` | internal/broker/broker.go:265-268 | when every failure looks without error and no success for its widget comes between look and write: however many refreshes fail after a success, its data stays, and scans select the widget exactly from its expiry on |
| `Broker.DueAfterLifetime` | internal/broker/broker.go:111-116 | in whole seconds, a success is due again after exactly its lifetime |
| `Playlist.ListLists` | internal/db/dbgen/playlists.sql.go:155-157 | the listing is exactly the playlist's rows, ascending by position and then identifier |
| `Playlist.PlaylistTable.AddItem` | internal/server/admin_playlists.go:103-126 | one new row at the largest position plus one; a dwell that is no positive number becomes 0 |
| `Playlist.PlaylistTable.DeleteItem` | internal/server/admin_playlists.go:128-141 | deletes the row, or reports that there is none |
| `Playlist.PlaylistTable.MoveItem` | internal/server/admin_playlists.go:143-179 | the search loop and the two updates compute the specified move; an unknown direction or an end of the list changes nothing |
| `Playlist.AddAppendsLast` | internal/server/admin_playlists.go:118-121 | an added item, with its view and dwell and at the position after the largest (0 in an empty playlist), lists last; other playlists list as before, positions stay apart |
| `Playlist.DeleteTakesOneOut` | internal/server/admin_playlists.go:139 | a deletion takes one entry out of the listing and leaves the order |
| `Playlist.ExchangeTransposes` | internal/server/admin_playlists.go:173-177 | exchanging two positions transposes the two entries and moves nothing else, in this or any other playlist |
| `Playlist.MoveIsAdjacentTransposition` | internal/server/admin_playlists.go:143-179 | a move is exactly the transposition with the neighbour, or nothing at the end of the list |
| `Playlist.MoveIsUndone` | internal/server/admin_playlists.go:143-179 | the opposite move restores the whole table |
| `Playlist.RunIsIntended` | internal/server/admin_playlists.go:103-179 | over every run of add, delete and move, positions stay pairwise distinct and every playlist lists what the same requests do to a plain list of identifiers |
| `Playlist.EqualPositionsStick` | internal/server/admin_playlists.go:173-177 | in any table, a move changes nothing if and only if there is no neighbour to pass or it has the same position |
| `VoiceClock.NextBoundaryIsLeast` | internal/voiceclock/voiceclock.go:168-175 | the next boundary is the least quarter-hour of the wall clock strictly after now, at most 15 minutes away |
| `VoiceClock.BeatsAreTheQuarterHours` | internal/server/server.go:595-656 | the beats visited are exactly the quarter-hours after the connection, each once and in order |
| `VoiceClock.DutchHourIsTwoWords` | internal/voiceclock/voiceclock.go:201-209 | every spoken hour is the hour's name and "uur" |
| `VoiceClock.LeadIsUnder14Seconds` | internal/voiceclock/voiceclock.go:117-164 | under every configuration a decided chime has a lead in [0, 14 s) |
| `VoiceClock.LeadIs` | internal/voiceclock/voiceclock.go:117-137 | the lead to the nanosecond: none without the time signal, 2 s for the pips, 3 s more for attention, and the time of ten words at the configured rate |
| `VoiceClock.SoundIs` | internal/voiceclock/voiceclock.go:49-96 | each beat of the hour has its configured sound if that is a known one, else its own default |
| `VoiceClock.ChimeTellsItsBeat` | internal/voiceclock/voiceclock.go:141-164 | a beat is silent exactly when disabled, quiet or unconfigured; hour, quarter and sound of a chime are those of its beat, and it speaks, exactly on the hour and if asked to, that hour, with the configured attention and rate |
| `VoiceClock.EveryBeatIsDueOnce` | internal/server/server.go:595-673 | after n firings, at any times and under any settings, the n-th quarter-hour is pending; its deadline is exactly the beat less its lead, or the moment of planning if that is later |
| `VoiceClock.ChimeIsNeverEarly` | internal/server/server.go:632-656 | when timers do not fire ahead of their deadline, the n-th chime is decided for the n-th quarter-hour, by the settings then loaded, less than 14 s ahead of it |
| `VoiceClock.DeadlinesIncrease` | internal/server/server.go:661-673 | beat less lead strictly increases from beat to beat, even when the settings change in between |
| `VoiceClock.QuietIsTheSpan` | internal/voiceclock/voiceclock.go:180-191 | quiet lasts from the start until the end comes round, over midnight or not |
| `VoiceClock.QuietMinutesOfADay` | internal/voiceclock/voiceclock.go:180-191 | exactly (end - start) mod 1440 minutes of every day are quiet, none when the bounds are equal |

## Left out

- Timers in `KioskStream` are untimed: any of them may fire whenever the loop waits, which covers every timing; how the advance timer is reset is not modelled beyond the duration it is set to.
- What the stream sends besides view, countdown and UI commands (configuration, names, corner playlist, version) and failures of the database while it asks.
- Rotation.Manager.Goto: its contract is that of an uninterrupted call; the two lock sections racing with others are modelled in `KioskStream`.
- The limiter and the layout weights use exact integers and reals; floating-point rounding, NaN and infinite weights are not modelled.
- RateLimiter: clocks that run backwards, and a period or burst that is not positive.
- LayoutTree: the slice a removal builds is a new sequence, so the sharing of Go slices' backing arrays is not visible; the JSON text of a layout is left out, a stored layout is the node it decodes to.
- Requests for one layout or one playlist that overlap: the handlers read and then write without a transaction and are modelled one after the other.
- Failing SQL statements in the playlist handlers, deleting a playlist or a view with its items, the dwell of a single item, and positions beyond 64 bits.
- Daylight saving: zones have a constant offset, so repeated and missing hours are not covered.
- CalendarFilter: Unicode enters as an arbitrary lower-casing and white-space test; the results about printing, conjunction and case need the evident properties of both (`Charset.Sane`; `CalendarFilter.AsciiIsSane` shows that ASCII lower-casing with Unicode's white space has them).
- Calendar: the titles, the labels of days, the day list (`buildSchedule`), the parsing of dates, and years outside the range of Go's dates; expanded events are the input.
- Bring: logging in, the downloads themselves, the German-to-Dutch catalogue's cache, and the marker and upper-casing in a header's text.
- BackgroundRefresh: only fetches started by showing a widget are single-flight; the broker's own scan and the admin pages call the broker directly.
- Broker: providers, OAuth tokens, source health, the time a row was fetched, and the text form of timestamps; a fetch is an arbitrary success or failure.
- VoiceClock: parsing "HH:MM" is the option type of the two bounds; the client's alignment of the tone is not modelled.
- Sessions, routing, forms, templates, HTML, the browser client, cryptography, the iCal and recurrence libraries.
