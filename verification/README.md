# Northstar Desk: a verified model of the service desk's state machines

This project models the parts of Northstar Desk whose behaviour is decided over time or over
several operations, and proves what they keep. Ten components are modelled, each in its own
module:

- **SlaClock, SlaPolicy, SlaPause**: the service-level clock. `SlaClock` adds operational minutes
  on a weekly calendar with holidays; `Calendar.Worked` counts working time one microsecond at a
  time, straight from the weekdays, holidays and hours and without the day-by-day search, and the
  search is proved against it. `SlaPolicy` resolves the two due dates of a priority. `SlaPause` moves
  due dates by wall-clock time when a pause ends.
- **EndpointActions, EndpointSafety, EndpointCauses**: remediation actions shared by technicians,
  requesters, polling agents and the recovery sweep. `Next` is the transition relation that every
  method of `ActionTable` is proved to take; `EndpointSafety` proves safety and timely delivery over
  all runs, and `EndpointCauses` that every status of every row goes back to an event that was entitled
  to give it, in terms of the rows' own fields.
- **Routing**: round-robin and least-active choice of a technician, with fairness and load balance
  over whole runs.
- **RoleGraph**: three searches through parent roles that may form cycles, proved equal to
  reachability.
- **Reconciliation, IdentityClaims**: observed-user claims, tiered matching, the observation counter
  and automatic assignment; `IdentityClaims` says what it takes, from an upload's texts and the
  employees' records alone, to be proposed and to be assigned.
- **AssetImport, ImportMeaning**: the AssetPilot importer with the dictionaries that mirror its tables;
  `ImportMeaning` says what every record, holder and event is after a first import, from the source
  alone.
- **Chat, ChatCauses, Approval, EnvMerge, TicketReference**: live chat, the approval workflow, the settings-file
  merge of a migration, and printing and reading ticket numbers in email subjects.
- **Text, Wrappers**: the text operations and the optional value the others share.

Conventions. Instants are integers of microseconds, the resolution of the program's date-times.
The calendar is in local wall-clock time, and instant 0 is midnight of Monday 1 January of year 1.
Rows of a table form a sequence and a row's index is its id (a chat message's id is its index plus
one). Every request is one atomic step at one reading of the clock, except in `SlaPause`, where the
two readings of one resume are kept apart. Code that updates objects is a class whose methods are
proved against a specification function or relation; the properties are lemmas about those.

## What the proofs found

- A resume reads the clock twice (`backend/itsm/services.py:197` and `:201`). Due dates move by the
  first reading, the pause event ends at the second, so the dates fall behind the recorded pauses by
  the time in between (`SlaPause.TwoReadingsFallBehind`). `SlaPause.PausesConserveBudget` states the
  difference over any run, and `SlaPause.DatesMatchPausesExactly` that there is none if and only if
  every change from a paused status to a running one took a single reading.
- Adding zero minutes to an instant at closing time moves it to the opening of the next working day
  within 3700 days, on every working day of every calendar (`SlaClock.ClosingTimeReopens`,
  `SlaClock.MondayEvening`); zero minutes keep an
  answer if and only if it is inside hours (`SlaClock.NothingMoreMoves`). One minute or more composes
  from any start (`SlaClock.WorkComposes`).
- Round-robin remembers its position under a key that is not the route's own
  (`backend/itsm/services.py:261`). Two rules that name one queue with different teams share it, and so
  do a queue and a team without a queue of the same number; nothing else does (`Routing.WhoShares`).
  Over runs of tickets that interleave any routes, a route with two technicians or more is treated
  fairly in every run if and only if no other route shares its key (`Routing.FairExactly`), and where
  one does, every state has an unfair run (`Routing.SharedIsUnfair`; `Routing.SharedKeyStarves` and
  `Routing.TwoTeamsStarve` are instances). When the sharing routes have the same technicians, as two
  rules for a queue that has active eligible teams do (`backend/itsm/services.py:241-245`), their
  tickets taken together are still fair (`Routing.KeyIsFair`).
- Sweeping for stale actions twice at the same instant is not the same as once: a revived delivery can
  be failed by the second sweep (`EndpointSafety.RevivedThenFailed`). It is the same if and only if the
  first sweep revives no delivery that is past the no-response limit or then at its last attempt
  (`EndpointSafety.SweepTwiceSame`).
- An inactive role that is assigned to a user is followed by the permission report but by neither
  permission check, so the report can list "administer" for somebody who may not
  (`RoleGraph.ReportCanOverstate`). `RoleGraph.AccessAndReport` says exactly when.
- An inventory upload that only names a computer account counts as another observation of the
  previous person. So one sighting of a person and one such upload assign the asset at a threshold of
  two (`Reconciliation.OneSightingAssigns`, `Reconciliation.ComputerWitness`), where
  `endpoint_agent/README.md:11` has two observations. A streak consists of sightings if and only if none
  of its uploads only keeps the previous person (`Reconciliation.SightedExactly`), and
  `Reconciliation.AssignedOnSightings` says exactly when an assignment rests on sightings alone.
- An employee record that the importer updates is not entered in the lookup dictionaries under the
  row's number and email (`backend/itsm/assetpilot.py:189-196`), so a record found by its email is not
  found by its new number afterwards (`AssetImport.NewNumberNotFound`, `AssetImport.NumberTwoNotFound`).
  `AssetImport.EmployeeFoundUnderNewKeys` says exactly when both dictionaries find it.
- A requested subject that contains the ticket's number already is printed as it is and cut at the
  limit, although `backend/itsm/services.py:64` promises the reference used for replies. The number is
  read back if and only if the first reference in the cut text stands for it
  (`TicketReference.MentionReadsBack`). It fails when another ticket is mentioned earlier
  (`TicketReference.EarlierMentionWins`), when a longer number merely contains the ticket's own
  (`TicketReference.LongerNumberWins`), when the number runs on into a longer word
  (`TicketReference.LongerWordIsLost`), and when the cut removes the mention
  (`TicketReference.CutMentionIsLost`), among others.
- The cut-off of 3700 days is generous: with `w` working weekdays, `L` minutes a day and `H` holidays
  no request for `(528 w - H) L` minutes or less is refused (`SlaClock.HorizonIsGenerous`).
- A second merge of a settings file reads back the same but may still rewrite lines
  (`EnvMerge.BlankIsRewritten`). It changes no line if and only if every line taken from the current
  file is written the way a merge writes it (`EnvMerge.SecondMergeSame`); a third merge never changes
  one (`EnvMerge.SecondMergeSettles`).

## Model

| member | source | states |
|---|---|---|
| `SlaClock.WorkConserved` | backend/itsm/services.py:155-179 | The instant found lies in a working day's window, and the independently counted working time up to it is the minutes asked for, less than one minute more, and exactly that from a whole-minute start; the last microsecond before it is worked. |
| `SlaClock.FirstInstantWorked` | backend/itsm/services.py:167-178 | From a whole-minute start and for at least one minute, the answer is the very first instant by which that much working time has passed. |
| `SlaClock.WorkComposes` | backend/itsm/services.py:168-178 | Whenever `m + n` minutes are found (n at least 1), so are `m`, and `n` more from there end at the same instant, from any start. |
| `SlaClock.NothingMoreMoves` | backend/itsm/services.py:168-178 | Adding zero minutes to an answer returns it unchanged exactly when it lies strictly inside hours, not at closing time. |
| `SlaClock.ClosingTimeMoves` | backend/itsm/services.py:168-178 | On every working day of every calendar, the day's minutes from opening end at closing time, and zero minutes from there end later or are not found. |
| `SlaClock.ClosingTimeReopens` | backend/itsm/services.py:167-179 | Zero minutes from the closing time of a working day end exactly at the opening of the next working day, or are not found when the span does not reach it. |
| `SlaClock.MondayEvening` | backend/itsm/services.py:161-178 | Office hours, Monday to Friday: zero minutes from Monday at five end on Tuesday at eight. |
| `SlaClock.FridayAfternoon` | backend/itsm/services.py:161-178 | Office hours, Monday to Friday: two hours from Friday at four end on Monday at nine. |
| `SlaClock.MoreMinutesLater` | backend/itsm/services.py:166-178 | More minutes are never done sooner, and minutes that are found leave every smaller number findable. |
| `SlaClock.LaterStartLater` | backend/itsm/services.py:167-178 | A later start, aligned or not, never ends sooner. |
| `SlaClock.SpanSuffices` | backend/itsm/services.py:167-179 | For at least one minute the search over any span of days succeeds if and only if the whole minutes left on the first day and those of the full working days after it add up to the minutes asked for. |
| `SlaClock.SpanSufficesForNothing` | backend/itsm/services.py:167-179 | Zero minutes are found if and only if some day of the span still has time. |
| `SlaClock.FoundExactly` | backend/itsm/services.py:167-179 | For at least one minute and any start, the search succeeds if and only if the minutes fit into the working time counted from the next whole minute to the end of the span. |
| `SlaClock.FoundExactlyForNothing` | backend/itsm/services.py:167-179 | Zero minutes are found if and only if any working time is left in the span. |
| `SlaClock.WeeksHold` | backend/itsm/services.py:161-171 | Any `n` consecutive weeks hold each open weekday `n` times. |
| `SlaClock.HolidaysRemove` | backend/itsm/services.py:163-168 | Holidays take away at most one working day each. |
| `SlaClock.WorkingDaysExactly` | backend/itsm/services.py:163-166 | Working days in any stretch are exactly its open weekdays less the holidays that fall on them. |
| `SlaClock.WorkingDaysInHorizon` | backend/itsm/services.py:167-168 | The 3699 days after the first hold at least 528 w - H working days. |
| `SlaClock.HorizonIsGenerous` | backend/itsm/services.py:167-179 | With w working weekdays, a window of L minutes and H holidays, no start is refused (528 w - H) L minutes or less. |
| `SlaClock.AddOperationalMinutes` | backend/itsm/services.py:155-179 | In terms of counted working time alone: the instant returned lies in open hours and has the minutes behind it; at least one minute is refused exactly when less working time lies between the next whole minute and the end of the 3700th day, and zero minutes when none lies ahead. Malformed hours are reported exactly when out of range; without closed hours the minutes elapse. |
| `SlaClock.DueIsMonotone` | backend/itsm/services.py:155-179 | For any calendar setting and any integers, due instants are monotone in the start and the minutes. |
| `SlaPolicy.ConfiguredSlaDates` | backend/itsm/services.py:133-152 | Whatever is configured, start < first response <= resolution; each date has its own minutes on the chosen calendar, under the policy's key; refused exactly when the resolution minutes cannot be found, for that reason. |
| `SlaPolicy.UnreachableStays` | backend/itsm/services.py:149-150 | Minutes that cannot be found leave no larger number findable, so the response never fails alone, nor for another reason. |
| `SlaPolicy.ScheduleChosen` | backend/itsm/services.py:142-146 | A policy that names no calendar or 24x7 is always open; otherwise it gets the first calendar it names, and the organisation's when that is unknown. |
| `SlaPolicy.FindPolicy` | backend/itsm/services.py:137 | The first active policy of the priority, or none if there is none. |
| `SlaPolicy.LegacyHours` | backend/itsm/services.py:12-14 | The hours of the four priorities, and medium for any other. |
| `SlaPause.Ticket.UpdateStatus` | backend/itsm/main.py:606-625 | A status change by ticket update takes one pause transition on the old and new status, under the pause statuses of the configured policies, and changes nothing when that fails. |
| `SlaPause.TransitionKeepsClock` | backend/itsm/services.py:182-203 | Every transition under a forward clock succeeds and keeps: events ordered, disjoint, only the last open; the marker set exactly while it is; both due dates moved by the closed pauses less the skew. |
| `SlaPause.PausesConserveBudget` | backend/itsm/services.py:182-203 | Over any run from a never-paused ticket, the last-event lookup never fails, both due dates move by exactly the closed pause time less the skew between readings, and the recorded minutes undercount by less than a minute for each closed pause. |
| `SlaPause.OneReadingNoSkew` | backend/itsm/services.py:197-201 | With one clock reading per change the skew is zero. |
| `SlaPause.NoSkewExactly` | backend/itsm/services.py:192-203 | The skew of a run is never negative, and zero if and only if every change that ends a pause took one reading. |
| `SlaPause.DatesMatchPausesExactly` | backend/itsm/services.py:182-203 | With a fixed set of pause statuses, the due dates move by exactly the recorded pauses if and only if every change from a paused to a running status, read off the run alone, took one reading. |
| `SlaPause.TwoReadingsFallBehind` | backend/itsm/services.py:197-201 | After a pause and a resume, the dates moved up to the first reading of the resume and the recorded pause goes on to the second. |
| `SlaPause.ShiftIsPausedTime` | backend/itsm/services.py:182-203 | With a fixed set of pause statuses, the ticket is marked paused exactly in those statuses, and the shift of the due dates is the time spent in them, read off the run alone, less the open stay. |
| `SlaPause.EventsAreStays` | backend/itsm/services.py:191-202 | With a fixed set of pause statuses, the recorded events are the stays in them, each with its status and its readings, read off the run alone. |
| `SlaPause.DatesNeverMoveBack` | backend/itsm/services.py:194-199 | However the clock is set, a change moves both dates by the time since the pause began when it ends one, never back, and not at all otherwise. |
| `SlaPause.PausedExactly` | backend/itsm/services.py:183-187 | A status pauses a ticket, in any letter case, exactly when the first policy with the ticket's key names it; or, when that names none, some policy does; or, when none names any, it is one of the four waiting statuses. |
| `EndpointActions.ActionTable.RequestAction` | backend/itsm/agent_api.py:901-927 | Adds one pending row exactly when the staff, ticket, agent and open-twin guards allow it. |
| `EndpointActions.ActionTable.AutoCloseApplication` | backend/itsm/agent_api.py:368-416 | The same guards; the row starts approved by the staff member, for closing an application only. |
| `EndpointActions.ActionTable.DecideAction` | backend/itsm/agent_api.py:970-1003 | Only the ticket's requester approves or declines, only a pending row, and only that row changes. |
| `EndpointActions.ActionTable.PollNext` | backend/itsm/agent_api.py:1006-1031 | Sweeps the agent's rows, then hands out a deliverable row with the earliest approval and counts the attempt; nothing is handed out only if nothing is deliverable. |
| `EndpointActions.ActionTable.ReportResult` | backend/itsm/agent_api.py:1034-1062 | A result finishes a live row of the reporting agent once, as `EndpointCauses.ResultEffect` spells out; otherwise the table stays. |
| `EndpointActions.ActionTable.RecoverStale` | backend/itsm/agent_api.py:419-485 | The two passes together fail unanswered deliveries, revive stale legacy ones while attempts remain, and fail the rest, row by row inside the scope. |
| `EndpointSafety.StepKeepsTable` | backend/itsm/agent_api.py:379-485 | Every step keeps: at most five attempts, live rows authorised, pending rows untouched by delivery, no two open rows for the same request. |
| `EndpointSafety.RowsEvolve` | backend/itsm/agent_api.py:419-485 | No step loses a row, reopens one, changes a finished one, lowers an attempt count, or rewrites the request or the approval. |
| `EndpointSafety.RunKeepsTable` | backend/itsm/agent_api.py:901-1062 | The invariant holds in every table of every run. |
| `EndpointSafety.LegacyTableOk` | backend/itsm/agent_api.py:1008-1010 | Tables of legacy deliveries, approved by the requester and within the attempts, satisfy the invariant. |
| `EndpointSafety.AtMostFiveDeliveries` | backend/itsm/agent_api.py:212-214 | No run hands an action out more than five times. |
| `EndpointSafety.DeliveriesCounted` | backend/itsm/agent_api.py:1020-1021 | At every point of a run the deliveries of a row are bounded by its attempt count. |
| `EndpointSafety.FinishedForever` | backend/itsm/agent_api.py:1039-1044 | Completed, failed and declined rows are the same in every later table. |
| `EndpointSafety.DeliveredOnlyAuthorised` | backend/itsm/agent_api.py:970-1019 | Only live, authorised rows of the polling agent are handed out; a service restart only with the requester's own approval. |
| `EndpointSafety.OneOpenAction` | backend/itsm/agent_api.py:379-384 | In every table of a run there is at most one open row per ticket, agent, kind and case-folded target. |
| `EndpointSafety.WaitingStep` | backend/itsm/agent_api.py:1006-1031 | Any step leaves a waiting row alone, puts nothing new ahead of it, and a poll of its agent spends an attempt of a row ahead. |
| `EndpointSafety.PollsWithinBudget` | backend/itsm/agent_api.py:1006-1031 | While a row waits, its agent polls at most as often as the rows ahead have attempts left. |
| `EndpointSafety.DeliveredInTime` | backend/itsm/agent_api.py:1006-1031 | With j - 1 live rows approved before it, a waiting row is handed out or answered within 5 (j - 1) + 1 polls, whatever sweeps, results and later approvals interleave. |
| `EndpointSafety.SweepTwiceSame` | backend/itsm/agent_api.py:419-485 | A second sweep at the same instant changes nothing if and only if no covered stale legacy delivery with attempts left is past the no-response limit or on its last attempt. |
| `EndpointSafety.RevivedThenFailed` | backend/itsm/agent_api.py:423-468 | A delivery four minutes old is approved again by one sweep and failed by the next. |
| `EndpointCauses.EveryStatusHasACause` | backend/itsm/agent_api.py:379-485 | In every table of a run, each row has its first status, or an event gave it: Completed by its agent's report of success on a live row, Failed by a report of failure or a sweep past a limit, Declined or Approved by the ticket's requester on a pending row, Approved also by a sweep of a legacy delivery or a granted closure, Pending by a granted request. |
| `EndpointCauses.GrantedExactly` | backend/itsm/agent_api.py:368-384 | A request is granted exactly to the ticket's technician, a lead, manager or administrator, never an end user, on an open ticket with an agent and no open row for the same request. |
| `EndpointCauses.RequestEffect` | backend/itsm/agent_api.py:387-416 | A granted request or closure adds exactly its row; any other changes nothing. |
| `EndpointCauses.DecisionEffect` | backend/itsm/agent_api.py:970-1003 | The requester's decision on a pending row of the ticket sets status, decider and time of that row; any other decision changes nothing. |
| `EndpointCauses.ResultEffect` | backend/itsm/agent_api.py:1034-1062 | A report by the row's agent on a live row makes it Completed on success and Failed otherwise, and changes nothing else; any other report changes nothing. |
| `EndpointCauses.PollEffect` | backend/itsm/agent_api.py:1006-1031 | A poll hands out a row exactly when the sweep leaves one approved with fewer than five attempts, none of those was approved earlier, and only its delivery time and count change. |
| `EndpointCauses.SweptExactly` | backend/itsm/agent_api.py:419-485 | The two passes of a sweep as one decision: given up after 180 seconds, or after 60 seconds and five attempts; queued again after 60 seconds with attempts left; otherwise untouched. |
| `EndpointCauses.RepliesExactly` | backend/itsm/agent_api.py:1037-1043 | How decisions and reports are answered. |
| `Routing.LeastActive` | backend/itsm/services.py:258-259 | The choice has the fewest open tickets, and the lowest id among equals. |
| `Routing.LeastExactly` | backend/itsm/services.py:258-259 | The choice is the one technician with the fewest open tickets and, among those, the lowest id. |
| `Routing.UncountedIsIdle` | backend/itsm/services.py:254-259 | A technician missing from the counts has no open tickets. |
| `Routing.NextExactly` | backend/itsm/services.py:264-265 | Next is the technician after the remembered one, the first after the last, and the first when nobody eligible is remembered. |
| `Routing.Router.TakeTurn` | backend/itsm/services.py:260-269 | The technician after the remembered one is chosen and remembered; no other position changes. |
| `Routing.Router.SelectForIncident` | backend/itsm/services.py:250-269 | Which rule chooses for an incident, and what is remembered under which key. |
| `Routing.Router.SelectForTicket` | backend/itsm/services.py:285-312 | The same inside a team, over the technicians in id order. |
| `Routing.SortedSame` | backend/itsm/services.py:298-303 | The order in which a query returns the technicians does not matter for the turns. |
| `Routing.TurnsWalk` | backend/itsm/services.py:260-265 | Up to a full round, the choices are the rotation that starts after the remembered technician. |
| `Routing.RoundIsPermutation` | backend/itsm/services.py:260-269 | Any n consecutive choices, at any point of a run, are a permutation of the n eligible technicians. |
| `Routing.TurnsAreFair` | backend/itsm/services.py:298-310 | Over any k consecutive choices two technicians' counts differ by at most one. |
| `Routing.RouteIsolated` | backend/itsm/services.py:260-310 | In a run of tickets over many routes, the choices for a route that shares its key with no other are its own undisturbed turns. |
| `Routing.SharedIsUnfair` | backend/itsm/services.py:260-269 | If another route shares the key, then from every state some run of the two gives two tickets to one technician of the first and none to another. |
| `Routing.FairExactly` | backend/itsm/services.py:228-310 | A route (a queue with the rule's or its own team, a team without a queue, or a team by category) with at least two technicians is treated fairly in every run over a set of routes, from every state, if and only if no other route of the set shares its key. |
| `Routing.WhoShares` | backend/itsm/services.py:228-261 | Routes share a key exactly when they are one queue with different teams, or a queue with any team and a team without a queue of the queue's number. |
| `Routing.KeyIsolated` | backend/itsm/services.py:260-310 | While all routes under a key have the same technicians, the choices for all tickets under it are undisturbed turns, whatever tickets other keys get. |
| `Routing.KeyIsFair` | backend/itsm/services.py:241-269 | So two technicians' counts among all tickets under the key differ by at most one. |
| `Routing.SharedKeyStarves` | backend/itsm/services.py:261 | An instance: when tickets alternate between queue 5 and team 5 with the same two technicians, the queue's all go to one and the team's all to the other. |
| `Routing.TwoTeamsStarve` | backend/itsm/services.py:228-261 | An instance: when tickets alternate between two rules that name queue 5 with teams that have nobody in common, each team's tickets all go to its first technician. |
| `Routing.GapStays` | backend/itsm/services.py:254-259 | Under least-active choice the gap between loads never exceeds the first gap, or one. |
| `Routing.LeastBelowTop` | backend/itsm/services.py:294-311 | While loads are uneven a ticket goes to someone below the highest load, which stays. |
| `Routing.LoadsLevelOut` | backend/itsm/services.py:254-311 | Loads are all equal after exactly the sum of shortfalls from the highest load, and not before. |
| `RoleGraph.HasPermission` | backend/itsm/security.py:106-124 | True if and only if the base role grants the permission or some role reachable from an active assigned role through active parents does; terminates on cyclic graphs. |
| `RoleGraph.GrantedExactly` | backend/itsm/security.py:106-124 | Beyond the base role a permission is granted exactly along chains of active roles from an assigned one to one that lists its full or short name. |
| `RoleGraph.ShortNames` | backend/itsm/security.py:120 | The short name is what follows the first dot, or the whole name without one. |
| `RoleGraph.WhoMay` | backend/itsm/security.py:96-103 | Which base roles hold each permission. |
| `RoleGraph.HasAdministrationAccess` | backend/itsm/security.py:70-93 | True if and only if the user is an administrator or a reachable role may administer, for every stack order. |
| `RoleGraph.EffectivePermissions` | backend/itsm/admin_api.py:266-277 | The report lists a permission in an area if and only if a role reachable from the reported roles lists it. |
| `RoleGraph.ReportedExactly` | backend/itsm/admin_api.py:266-277 | The report lists exactly what is listed at the end of a chain from the definition named after the base role or from an assigned role, through active parents. |
| `RoleGraph.FinishedSearchIsReachable` | backend/itsm/security.py:79-93 | When the stack is empty, the visited roles are exactly the reachable ones. |
| `RoleGraph.AccessAndReport` | backend/itsm/admin_api.py:266-277 | The report lists administration exactly when the user has access or an inactive assigned role, or the one named after the base role, reaches it. |
| `RoleGraph.ReportCanOverstate` | backend/itsm/admin_api.py:270 | A concrete graph in which the report lists administration and the user has none. |
| `Reconciliation.CleanedTwice` | backend/itsm/agent_api.py:119-146 | Cleaning claims is idempotent. |
| `Reconciliation.IdentityCandidates` | backend/itsm/agent_api.py:594-623 | The loop over the tiers returns the specified candidate, which `IdentityClaims.ProposedByName` characterises. |
| `Reconciliation.ProposedExactly` | backend/itsm/agent_api.py:594-623 | An employee is proposed if and only if one tier matches only that employee and no stronger tier matches anyone. |
| `IdentityClaims.ProposedByName` | backend/itsm/agent_api.py:594-623 | An employee is proposed exactly when only that employee is named, up to letter case and blanks, by the email or principal name as work address or alias; or, when nobody is, by object id; or by number; or, when allowed, by account. |
| `IdentityClaims.EmailDecides` | backend/itsm/agent_api.py:598-604 | An email that names one employee decides, whatever else the upload shows. |
| `IdentityClaims.AccountNeedsLeave` | backend/itsm/agent_api.py:614-617 | The account decides only when that is allowed. |
| `IdentityClaims.CleanedExactly` | backend/itsm/agent_api.py:119-146 | A claim is kept exactly when it is not blank, no placeholder and no computer's account, and the claims name a person; addresses are put in lower case. |
| `IdentityClaims.UploadedClaims` | backend/itsm/agent_api.py:628-630 | The upload's address fills in for a missing email claim and changes no other. |
| `IdentityClaims.EffectiveExactly` | backend/itsm/agent_api.py:631-637 | An upload counts for the person it names, or for the previous one when it names only a computer, or for nobody. |
| `IdentityClaims.KeyExactly` | backend/itsm/agent_api.py:638-640 | A person is compared by email, principal name, object id, number or account, the first there is. |
| `IdentityClaims.StateExactly` | backend/itsm/agent_api.py:649-670 | Which claims, match and asset each assignment state stands for. |
| `IdentityClaims.RepeatedAssigns` | backend/itsm/agent_api.py:626-677 | The same upload again and again assigns a new agent's free asset to the employee it proposes, exactly from the threshold on, and to nobody else. |
| `IdentityClaims.AddressAssigns` | backend/itsm/agent_api.py:594-677 | Whoever signs in under the address of a single employee, in any letter case and with blanks, gets the asset for that employee, exactly from the threshold on. |
| `IdentityClaims.ClaimAssigns` | backend/itsm/agent_api.py:605-617 | So does an object id, a number or, only when allowed, an account. |
| `IdentityClaims.ObservationRecords` | backend/itsm/agent_api.py:641-670 | What an observation leaves on agent and asset; an asset is no longer new once it is assigned, and otherwise unchanged. |
| `Reconciliation.Agent.ReconcileUser` | backend/itsm/agent_api.py:626-677 | The whole new state of the agent and of the asset after one observation. |
| `Reconciliation.SettleAssignment` | backend/itsm/agent_api.py:646-670 | The assignment state, and the only case in which the asset changes. |
| `Reconciliation.ComputerCountsForPerson` | backend/itsm/agent_api.py:632-643 | An upload that only names a computer account keeps the previous person and counts as one more observation. |
| `Reconciliation.KeptCounts` | backend/itsm/agent_api.py:632-643 | On a new agent, one sighting and any number of such uploads count as so many observations of the person. |
| `Reconciliation.OneSightingAssigns` | backend/itsm/agent_api.py:626-670 | At a threshold of two, one sighting leaves the asset unassigned and one such upload after it assigns it. |
| `Reconciliation.ComputerWitness` | backend/itsm/agent_api.py:100-146 | It happens for every employee with a readable number and every computer name. |
| `Reconciliation.SightedExactly` | backend/itsm/agent_api.py:626-643 | The last uploads each show the same person themselves if and only if they share one effective identity and none of them only keeps the previous person. |
| `Reconciliation.StoredClaims` | backend/itsm/agent_api.py:631-642 | Stored claims are the effective ones, and clean. |
| `Reconciliation.CounterIsStreak` | backend/itsm/agent_api.py:643 | Over any run of uploads the counter is the length of the longest suffix with the same non-empty effective identity. |
| `Reconciliation.AssignedForever` | backend/itsm/agent_api.py:653-658 | Once an asset has an employee, no later upload changes it. |
| `Reconciliation.AssignedExactly` | backend/itsm/agent_api.py:626-677 | An upload assigns an unassigned asset if and only if it is not shared, one tier decides for the employee, and the last threshold-many uploads had the same effective identity. |
| `Reconciliation.AssignedOnSightings` | backend/itsm/agent_api.py:626-677 | It does so without relying on kept sightings if and only if the asset is not shared, one tier decides for the employee, and the last threshold-many uploads each show the same person themselves. |
| `AssetImport.EnsureUserOnce` | backend/itsm/assetpilot.py:39-55 | A login is created once, and only for an employee with a usable work email and active employment. |
| `AssetImport.AssetsFoundSoFar` | backend/itsm/assetpilot.py:209-258 | At every point of a first import of distinct rows, all four dictionaries find the asset of every row so far, not only of the last. |
| `AssetImport.EmployeesFoundSoFar` | backend/itsm/assetpilot.py:164-202 | At every point of a first import of distinct rows, both dictionaries find the record of every row so far. |
| `AssetImport.AssetFoundUnderNewKeys` | backend/itsm/assetpilot.py:226-258 | The one-row helper of `AssetsFoundSoFar`, on any inventory: all four dictionaries find the row's asset, and no other asset changes. |
| `AssetImport.EmployeeFoundUnderNewKeys` | backend/itsm/assetpilot.py:172-202 | Both dictionaries find the row's employee if and only if it was created, or was found by number and is already indexed under its email. |
| `AssetImport.NewNumberNotFound` | backend/itsm/assetpilot.py:189-196 | A row with a stored email and a number nobody has leaves its record unfound under that number. |
| `AssetImport.NumberTwoNotFound` | backend/itsm/assetpilot.py:189-196 | One employee and one row for which this happens. |
| `AssetImport.SettledEmployeeStays` | backend/itsm/assetpilot.py:172-202 | Importing a row whose record already says the same changes no table. |
| `AssetImport.FirstEmployeeImport` | backend/itsm/assetpilot.py:164-202 | Into an empty table, every row with distinct keys gets one record that holds it, and all dictionaries mirror the tables. |
| `AssetImport.SettledEmployeesStay` | backend/itsm/assetpilot.py:172-202 | Importing those rows again leaves every table as it is and counts only updates. |
| `AssetImport.FirstAssetImport` | backend/itsm/assetpilot.py:217-258 | The same for assets. |
| `AssetImport.SettledAssetsStay` | backend/itsm/assetpilot.py:217-258 | The same for assets imported again. |
| `AssetImport.HistoryOnce` | backend/itsm/assetpilot.py:260-284 | The same source adds to the history once, whatever was there before. |
| `AssetImport.ImportTwice` | backend/itsm/assetpilot.py:1-287 | Importing is idempotent: from no employees and assets and a source with distinct keys, a second import creates nothing and leaves every table unchanged. |
| `AssetImport.Inventory.ImportEmployeeRows` | backend/itsm/assetpilot.py:164-203 | The employee loop, its dictionaries and counters follow the specified step for every row. |
| `AssetImport.Inventory.ImportAssetRows` | backend/itsm/assetpilot.py:205-259 | The asset loop does, with its four dictionaries; what it makes of a row is said by `ImportMeaning.AssetsSay` and `ImportMeaning.HolderExactly`. |
| `AssetImport.Inventory.ImportHistory` | backend/itsm/assetpilot.py:260-284 | Adds exactly the events not yet imported whose asset is known. |
| `AssetImport.Inventory.ImportAssetPilot` | backend/itsm/assetpilot.py:137-287 | The whole import: tables and counts. |
| `ImportMeaning.EmployeesSay` | backend/itsm/assetpilot.py:172-202 | After a first import every employee row has a record with its number, email, names and employment, its department and location by name, and the login of its email, which everybody active with a usable email has. |
| `ImportMeaning.AssetsSay` | backend/itsm/assetpilot.py:217-258 | Every asset row has a record with its tag, hostname, serial number, columns with their defaults, department and location by name, addresses and source id. |
| `ImportMeaning.HolderExactly` | backend/itsm/assetpilot.py:206-231 | An asset is held by an employee if and only if the source assigns it to that employee, not returned, with only returned assignments of it after that. |
| `ImportMeaning.ReturnedIsFree` | backend/itsm/assetpilot.py:206-231 | An asset whose assignments were all returned has no holder. |
| `ImportMeaning.AddressesExactly` | backend/itsm/assetpilot.py:208-213 | The addresses of an asset are its rows in the source, all of them and in order. |
| `ImportMeaning.HistoryExactly` | backend/itsm/assetpilot.py:260-284 | The history afterwards is the one before and the events of just those assignments and status changes that were new and whose asset is imported, with asset, employee and texts. |
| `ImportMeaning.NamesSplit` | backend/itsm/assetpilot.py:128-134 | How a display name is split, with a comma and without. |
| `ImportMeaning.EmployableExactly` | backend/itsm/assetpilot.py:41-43 | Who gets a login. |
| `ImportMeaning.FoundOnTables` | backend/itsm/assetpilot.py:214-228 | On any inventory a row overwrites the last asset of its source id, else tag, else hostname, else serial number, and is new exactly when there is none. |
| `ImportMeaning.EmployeeFoundOnTables` | backend/itsm/assetpilot.py:161-176 | On any employee table a row is found by number first and by email only then. |
| `ImportMeaning.UpdateKeepsOthers` | backend/itsm/assetpilot.py:189-193 | An update overwrites AssetPilot's own records and only fills gaps in others. |
| `Chat.ChatDesk.Request` | backend/itsm/chat_api.py:94-138 | Returns the open session, or opens one with a marker, or refuses. |
| `Chat.ChatDesk.AcceptChat` | backend/itsm/chat_api.py:153-172 | Only the other participant accepts; only a requested session becomes active. |
| `Chat.ChatDesk.SendMessage` | backend/itsm/chat_api.py:188-237 | Stores a message once per client id, or says why not. |
| `Chat.ChatDesk.CloseChat` | backend/itsm/chat_api.py:240-255 | Closes an open session once. |
| `Chat.ChatDesk.CloseTicketByRequester` | backend/itsm/services.py:455-494 | Closes the ticket and all its open sessions. |
| `Chat.ChatDesk.Poll` | backend/itsm/chat_api.py:175-185 | The next public messages of the session above the cursor, in id order, up to the limit. |
| `ChatCauses.PublicExactly` | backend/itsm/chat_api.py:180-184 | The ids a poll may return are those of the session's public messages above the cursor. |
| `ChatCauses.RequestEffect` | backend/itsm/chat_api.py:94-138 | A party to an open ticket with a technician opens a session exactly when none is open. |
| `ChatCauses.AcceptEffect` | backend/itsm/chat_api.py:153-172 | A session becomes active exactly when the party that did not ask for it accepts it. |
| `ChatCauses.CloseEffect` | backend/itsm/chat_api.py:240-255 | Either party closes an open session, and that is all. |
| `ChatCauses.SendEffect` | backend/itsm/chat_api.py:188-237 | Text is stored, stripped and public, in the sender's name, exactly when a party sends it to an open session of an open ticket under a new client id and not within 0.75 seconds; and how it is answered otherwise. |
| `ChatCauses.RunKeepsOrder` | backend/itsm/chat_api.py:188-237 | Over any run, chat messages of one author in one session are 0.75 seconds apart, public and not blank, and no session was accepted by whoever asked for it. |
| `ChatCauses.TicketClosureEffect` | backend/itsm/services.py:465-486 | A closure closes the ticket's sessions and no others. |
| `Chat.StepKeepsDesk` | backend/itsm/chat_api.py:94-255 | Every request keeps: at most one open session per ticket, and at most one message per session and client id. |
| `Chat.OneOpenSession` | backend/itsm/chat_api.py:103-117 | Both hold after every run from an empty desk. |
| `Chat.ClosedForever` | backend/itsm/chat_api.py:193-246 | Over any run a closed session never reopens and never takes another message. |
| `Chat.StoredOnce` | backend/itsm/chat_api.py:198-203 | Sending a stored client id again adds nothing; it is answered with the stored message exactly while the chat is open to the sender, and never as too soon. |
| `Chat.ResendAddsNothing` | backend/itsm/chat_api.py:188-237 | The same at any later point of a run after a message was accepted. |
| `Chat.OnePoll` | backend/itsm/chat_api.py:175-185 | A poll from the last id seen continues without gap or repetition, and catches up when it returns fewer than the limit. |
| `Chat.PollingIsExact` | backend/itsm/chat_api.py:175-185 | For any limits and any messages sent in between, what was received is always a beginning of the session's public messages, in order. |
| `Chat.ShortPollCatchesUp` | backend/itsm/chat_api.py:175-185 | A poll below its limit has delivered everything there is. |
| `Chat.PollingDuringRun` | backend/itsm/chat_api.py:175-185 | For polls at any moments of any run of requests, what was received is a beginning of the session's public messages at the last poll. |
| `Chat.QuietPollsCatchUp` | backend/itsm/chat_api.py:175-185 | While nothing is sent, as many polls of at least one message as messages are missing deliver everything. |
| `Approval.ApprovalRequest.constructor` | backend/itsm/main.py:1692-1700 | A request starts pending at step 0 with no decisions, its ticket waiting. |
| `Approval.ApprovalRequest.Decide` | backend/itsm/main.py:1832-1866 | The answer and the whole new state of one attempt to decide; who may is said by `Approval.RefusedExactly` and `Approval.OnlyApproversDecide`. |
| `Approval.DecisionKeepsRequest` | backend/itsm/main.py:1832-1866 | Every attempt keeps the link between decisions, step, status and ticket. |
| `Approval.OnlyApproversDecide` | backend/itsm/main.py:1832-1866 | Over any run every decision was made by an administrator or by the approver of its step, the constructor's for step 0 and the one named by the attempt before after that; an approved ticket is assigned exactly when it had a technician at the last decision. |
| `Approval.RefusedExactly` | backend/itsm/main.py:1835-1839 | An attempt is forbidden exactly to users who are neither the approver nor administrators, and changes nothing then; any other on a pending request is recorded. |
| `Approval.RequestFollowsDecisions` | backend/itsm/main.py:1832-1866 | Over any run, decisions are at steps 0, 1, 2, ...; approved exactly when all n steps approved; rejected exactly when the last decision rejects and all before approve; pending at the step equal to the number of decisions, below n. |
| `Approval.FinishedForever` | backend/itsm/main.py:1835 | A finished request never changes. |
| `Approval.SameVotesSameOutcome` | backend/itsm/main.py:1832-1866 | The recorded votes alone decide the status and the step. |
| `EnvMerge.ReadEnv` | backend/itsm/database_ops.py:215-224 | The loop reads the last value of every key. |
| `EnvMerge.SettingExactly` | backend/itsm/database_ops.py:218-223 | A line sets a key to a value exactly when, stripped, it is key, equals sign and value, with no equals sign in the key, and no comment. |
| `EnvMerge.LastLineWins` | backend/itsm/database_ops.py:217-224 | A key has a value exactly when some line sets it, and it is the last such line's. |
| `EnvMerge.MergeEnvFiles` | backend/itsm/database_ops.py:227-250 | The merged lines, and that reading them back gives the override. |
| `EnvMerge.SettingReadsBack` | backend/itsm/database_ops.py:238-240 | A rewritten line reads back as its key and value. |
| `EnvMerge.MergeIsOverride` | backend/itsm/database_ops.py:227-250 | Current values win for server-local keys, all others keep the imported value, no other key appears, despite duplicates and comments. |
| `EnvMerge.MergeReadsBack` | backend/itsm/database_ops.py:227-250 | The same key by key. |
| `EnvMerge.MergeAgainReadsSame` | backend/itsm/database_ops.py:227-250 | Merging the result with the current file again reads back the same. |
| `EnvMerge.SecondMergeSame` | backend/itsm/database_ops.py:227-250 | A second merge changes no line if and only if every server-local line taken from the current file is written as key, equals sign and the key's last value. |
| `EnvMerge.BlankIsRewritten` | backend/itsm/database_ops.py:243-249 | With nothing imported, a server-local setting after a blank is kept by the first merge and rewritten by the second. |
| `EnvMerge.BlankPortIsRewritten` | backend/itsm/database_ops.py:204-249 | So is a port setting among the program's own keys. |
| `EnvMerge.SecondMergeSettles` | backend/itsm/database_ops.py:227-250 | After a second merge not even a line changes. |
| `EnvMerge.MergeKeepsRemarks` | backend/itsm/database_ops.py:232-249 | Comments and blank lines of the imported file are all kept, in order, and none of the current one are taken. |
| `TicketReference.Sequences.NextTicketNumber` | backend/itsm/services.py:104-113 | Issues the next number of the prefix the request type selects; other sequences stay. |
| `TicketReference.NumbersDistinct` | backend/itsm/services.py:104-113 | Equal numbers come from equal prefixes and equal sequence values. |
| `TicketReference.IssuedNumbersDistinct` | backend/itsm/services.py:104-113 | Over any run of requests no number is issued twice. |
| `TicketReference.PrefixExactly` | backend/itsm/services.py:105-106 | Which request types are numbered CHG, INC, HR and REQ. |
| `TicketReference.FortyTwo` | backend/itsm/services.py:20-31 | Incident 42 is INC-000042, and read back from a reply in lower case without the zeros. |
| `TicketReference.ReferenceReads` | backend/itsm/services.py:20-31 | A reference outside any longer word, in any letter case and with any leading zeros, is read as the stored number. |
| `TicketReference.ReferenceExactly` | backend/itsm/services.py:20 | A reference is a prefix in any letter case, a hyphen and digits, with no letter or digit right before or after. |
| `TicketReference.SubjectHasWords` | backend/itsm/services.py:63-70 | The printed subject has the words of the one asked for, or else of the ticket's own, single-spaced, after the number unless it contains it, cut after 240 characters. |
| `TicketReference.PrintedNumberReadsBack` | backend/itsm/services.py:63-70 | For a subject that does not contain the number yet, printing and reading back gives the number, after truncation and despite other tickets mentioned, if and only if it is shorter than the subject limit. |
| `TicketReference.StoredNumberReadsBack` | backend/itsm/services.py:63-70 | Every value of a 32-bit sequence column is short enough. |
| `TicketReference.MentionReadsBack` | backend/itsm/services.py:63-70 | For a subject that contains the number already, printing and reading back gives the number if and only if the first reference in the cut subject stands for it. |
| `TicketReference.EarlierMentionWins` | backend/itsm/services.py:63-70 | It fails for any two tickets when the subject is the other number, a slash and the own number: the other one is read back. |
| `TicketReference.LongerNumberWins` | backend/itsm/services.py:68-69 | It fails when the subject is a number of seven digits or more that starts with the ticket's own: the longer one is read back. |
| `TicketReference.LongerWordIsLost` | backend/itsm/services.py:20-31 | It fails when the subject is the number and a letter behind it: nothing is read back. |
| `TicketReference.CutMentionIsLost` | backend/itsm/services.py:68-70 | It fails when 240 characters that start no reference come before the number: nothing is read back. |

## Left out

- Time zones, daylight saving and date-times past year 9999: the calendar stays in local wall-clock time, as the loop keeps it.
- Reading a calendar's texts (weekday names, holiday dates, default hours) and malformed integers in a policy: calendars and policies come parsed; hours out of range are reported as malformed.
- Names and explanations of policies, reasons of routing and other message text.
- Status changes that bypass the pause transition (bulk update, message replies), and the refusal to resolve after the transition has run, which rolls back everything.
- Heartbeats, which rewrite the observed user without resetting the observation counter (`backend/itsm/agent_api.py:1083-1098`): runs of reconciliation consist of inventory uploads.
- The format of action targets, which any text may fill here, and the choice of a ticket's agent, which is an input.
- Counts, messages, audit rows, history rows and notifications written beside a transition.
- Database transactions, row locks and insert races: every request is one atomic step.
- Routing rules, eligible teams and availability: the eligible technicians and their open-ticket counts are inputs.
- Importing over unrelated existing records: hostname, tag and serial entries of an overwritten asset stay in the dictionaries (`backend/itsm/assetpilot.py:250-256`), so idempotence is stated from empty employee and asset tables.
- Sorting source rows by timestamp, dates and numbers of asset columns, usernames and profile fields of created logins: rows come in the order the program reads them, and columns are texts.
- Workflows edited while a request is pending, and the choice of an approver, which is an input of every decision.
- Splitting a settings file into lines and joining it again.
- Text outside ASCII, in letter case, in white space and in digits.
- Viewing rights, sessions, passwords, certificates, update signing, mail, telephony, reports, schedulers and the user interface.
