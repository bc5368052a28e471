# Weekly meal-cost tracker: the bookkeeping core in Dafny

The tracker keeps one store per user. A store holds:

- a report title;
- a list of people, each with a starting balance;
- a six-day schedule (Saturday to Thursday) with a breakfast and a lunch per day;
- the instant of the last weekly reset.

Each meal has a cost and a list of attendee ids. The balance sheet charges every attendee an equal share of each meal that has a positive cost and at least one attendee. A person's final balance is their starting balance minus the shares charged to them.

The store is reloaded from the browser. If the last reset lies before the most recent Saturday 03:00 in Cairo, the schedule is wiped, while people and their balances stay.

The model has seven modules:

- `Types` (types.dfy): the entities, the six days, and the sequence helpers for ids, counting and filtering.
- `MainApp` (main_app.dfy): the balance calculator. The functional definition is `Balances`, and the loop version is `ComputeBalances`. The module also holds the title edit and a conservation theorem: the deductions add up to the money spent.
- `UserDataHook` (user_data.dfy): the fresh store, the Cairo clock, the weekly-reset rule exactly as written, the load transform, and the reset rule with both sides on the same clock.
- `PeopleManager` (people_manager.dfy): ECMAScript `trim`, adding a person, and removing a person together with their attendance.
- `BalanceSheet` (balance_sheet.dfy): settling a negative balance.
- `DailyMealCard` (daily_meal_card.dfy): toggling, selecting and deselecting attendees, and writing a cost or an attendee list into one slot.
- `Store` (invariants.dfy): the consistency invariant of a store, and its preservation by every operation.

How the model represents the source:

- Money is `real`, so the model reasons about exact arithmetic.
- Instants are integer milliseconds since the epoch. This is what JavaScript's `Date` holds internally, and it is what `lastReset` denotes as an ISO string.
- The current instant, the id of a new person and the answer to a confirmation dialog are parameters.
- Parsed numbers arrive as `Option<real>`, where `None` stands for NaN.
- The stored store arrives as `Option<UserData>`, where `None` means nothing usable is stored.

Two facts about the code shape the model:

- Attendees are a list: a duplicate entry is charged twice (`MainApp.ShareIsCountTimesPerHead`), and a toggle removes every occurrence.
- The comment at hooks/useUserData.ts:36 names the boundary "the last Saturday at 3 AM in Cairo time", so a reset is meant to happen once per week. The rule as written can fire again within the same week (see Findings).

## Model

| member | source | states |
|---|---|---|
| Types.Without | components/PeopleManager.tsx:48-49 | filtering an id out of a list removes every occurrence of it and no other element; every other element keeps its count |
| Types.WithoutAppend | components/PeopleManager.tsx:48-49 | filtering distributes over concatenation, so survivors keep their relative order |
| Types.WithMeal | components/DailyMealCard.tsx:114-116 | writing a meal into one slot of a day puts exactly that meal there and leaves the other slot as it was |
| Types.OrZero | components/PeopleManager.tsx:24 | a parsed number that is NaN becomes 0, and any other parsed number is kept |
| Types.Ids | components/DailyMealCard.tsx:33 | the ids of a list of people, one per person, in the same order |
| Types.WithoutDistinct | components/PeopleManager.tsx:44 | filtering a list without duplicates gives a list without duplicates |
| Types.DistinctCountsOnce | components/MainApp.tsx:33-35 | in a list of distinct ids, every listed id occurs exactly once |
| MainApp.Contributes | components/MainApp.tsx:32 | a meal is charged only when its cost is positive and it lists an attendee, so the division by the number of attendees is defined and each share is positive |
| MainApp.PerHead | components/MainApp.tsx:32-33 | the per-person cost of a charged meal is positive |
| MainApp.Share | components/MainApp.tsx:32-43 | a person's charge for one meal is never negative; it is zero when the meal has no positive cost, has no attendees, or does not list the person |
| MainApp.Portion | components/MainApp.tsx:34-36 | the inner `forEach` charges a non-negative amount, and nothing to an id it does not list |
| MainApp.PortionIsCountTimes | components/MainApp.tsx:34-36 | the inner `forEach` charges an id one share for every time the attendee list names it |
| MainApp.ShareIsCountTimesPerHead | components/MainApp.tsx:32-36 | a charged meal charges an id (number of times it is listed) × cost / number of attendees, so a duplicated entry pays twice |
| MainApp.ShareOfSingleAttendee | components/MainApp.tsx:33-35 | an attendee listed once in a charged meal is charged exactly cost / number of attendees |
| MainApp.SlotsAreTheSchedule | components/MainApp.tsx:29-30 | the calculator visits the breakfast and lunch of every day in the schedule, and nothing else |
| MainApp.SlotsOf | components/MainApp.tsx:29-30 | walking the days yields an even number of slots, at most two per day walked; when every day walked is present, day i contributes exactly its breakfast at position 2i and its lunch at 2i + 1, so each meal is visited exactly once, in order |
| MainApp.Slots | components/MainApp.tsx:29-30 | the schedule yields an even number of slots, at most two for each of the six days; a schedule holding all six days yields exactly its twelve slots, once each, breakfast before lunch, in week order |
| MainApp.Lookup | components/MainApp.tsx:48 | the running total of an id that has been charged, and 0 for an id that never was |
| MainApp.Deduction | components/MainApp.tsx:27-48 | a person's total deduction is never negative, and it is zero for a person who attends no meal |
| MainApp.Balances | components/MainApp.tsx:47-55 | one row per person, in order, carrying that person's id, name and initial balance, the person's total deduction, and final balance = initial balance − deduction |
| MainApp.BalanceOf | components/MainApp.tsx:47-55 | a person's row copies id, name and initial balance, carries a non-negative deduction that is zero for a person who attends nothing, and final balance = initial balance − deduction |
| MainApp.ChargeSlot | components/MainApp.tsx:32-44 | charging one meal adds exactly that meal's share to every id's running deduction, and leaves every other id's total unchanged |
| MainApp.ChargeSlots | components/MainApp.tsx:29-45 | after the loop over all meals, every id's running deduction is the sum of its shares of those meals |
| MainApp.ComputeBalances | components/MainApp.tsx:24-56 | the two-pass loop (accumulate deductions per id over every slot, then map people) yields exactly the rows `Balances` defines |
| MainApp.SlotConserved | components/MainApp.tsx:32-44 | the charges of one meal to the people listed in it add up to the meal's cost when it is charged, and to zero otherwise |
| MainApp.Conservation | components/MainApp.tsx:29-55 | with distinct person ids and every attendee a person, the total deductions over all rows equal the total cost of all charged meals |
| MainApp.ChangeTitle | components/MainApp.tsx:18-22 | a title edit replaces the title and leaves people, schedule and reset instant unchanged |
| UserDataHook.InitialSchedule | hooks/useUserData.ts:6-14 | the fresh schedule has exactly the six days, and every meal has cost 0 and no attendees |
| UserDataHook.InitialData | hooks/useUserData.ts:16-21 | a fresh store has the default Arabic title, no people, the fresh schedule, and was last reset at creation |
| UserDataHook.CairoTime | hooks/useUserData.ts:23-29 | Cairo time is the real instant plus two hours, with no daylight saving |
| UserDataHook.AtUtcHour | hooks/useUserData.ts:38 | setting the UTC hour keeps the UTC date and lands exactly on that hour |
| UserDataHook.UtcDay | hooks/useUserData.ts:39 | the UTC weekday is 0 to 6; 1970-01-01 is a Thursday (4), and 1970-01-03 and every seventh day from it is a Saturday (6) |
| UserDataHook.DaysSinceSaturday | hooks/useUserData.ts:40 | stepping back the computed number of days (0 to 6) from a weekday reaches a Saturday |
| UserDataHook.SaturdayBoundary | hooks/useUserData.ts:37-45 | the boundary is a Saturday at the given UTC hour, not after the clock reading, and less than one week before it |
| UserDataHook.BackToSaturday | hooks/useUserData.ts:38-41 | moving to the hour and stepping back `diff` days reaches a Saturday at that hour, less than a week before the clock reading and less than a day after it |
| UserDataHook.WeekBack | hooks/useUserData.ts:43-45 | stepping back seven days keeps the weekday and the time of day |
| UserDataHook.SameSaturday | hooks/useUserData.ts:36-45 | two Saturdays at the same hour less than a week apart are the same instant |
| UserDataHook.SaturdayBoundaryIsLatest | hooks/useUserData.ts:36-45 | no Saturday at that hour lies strictly between the boundary and the clock reading |
| UserDataHook.ResetBoundary | hooks/useUserData.ts:32-45 | the code's boundary is Saturday 01:00 on the UTC fields of the clock shifted by two hours, within one week before the shifted reading |
| UserDataHook.NeedsWeeklyReset | hooks/useUserData.ts:32-48 | the rule never fires for a reset at or after the shifted clock reading, and always fires for one at least a week before it |
| UserDataHook.NeedsWeeklyResetMonotone | hooks/useUserData.ts:47 | if the rule stays quiet for a reset instant, it stays quiet for any later reset instant |
| UserDataHook.ApplyWeeklyReset | hooks/useUserData.ts:60-63 | a reset replaces the schedule with the fresh one and records the reset instant, keeping title and people |
| UserDataHook.LoadUserData | hooks/useUserData.ts:56-71 | loading returns a fresh store when nothing usable is stored; a stored store is returned untouched when the rule is quiet and reset when it fires, keeping title and people in both cases |
| UserDataHook.RecheckAfterResetQuietIff | hooks/useUserData.ts:47-63 | right after a reset, the rule is quiet at the same instant exactly when the code's boundary is not after the real instant |
| UserDataHook.ReloadIsStable | hooks/useUserData.ts:57-65 | at every instant, reloading what a load produced at that same instant gives back the same store; in the window the rule fires again, but resetting a freshly reset store changes nothing |
| UserDataHook.ReloadInWindowWipesEdits | hooks/useUserData.ts:43-47 | a store reset at Saturday 00:00 UTC, edited, and reloaded one minute later is reset again, and the edit is lost |
| UserDataHook.IntendedBoundary | hooks/useUserData.ts:36-45 | the intended boundary is the latest Saturday 01:00 UTC (03:00 Cairo) not after the real instant |
| UserDataHook.BoundariesAgreeOutsideWindow | hooks/useUserData.ts:36-47 | whenever the code's boundary is not after the real instant, it equals the intended boundary |
| UserDataHook.NeedsWeeklyResetIntended | hooks/useUserData.ts:32-48 | the corrected rule never fires for a reset at or after the real instant, and always fires for one at least a week before it |
| UserDataHook.LoadUserDataIntended | hooks/useUserData.ts:56-71 | the load with the corrected rule: a fresh store when nothing is stored, otherwise the stored store, reset exactly when the corrected rule fires |
| UserDataHook.SameWeekSameBoundary | hooks/useUserData.ts:36-45 | any two instants of the same week share the intended boundary |
| UserDataHook.IntendedReloadIsStable | hooks/useUserData.ts:32-65 | under the corrected rule, a reload at the same instant or at any later instant of the same week never resets again |
| PeopleManager.LeadingSpace | components/PeopleManager.tsx:20 | the count of leading blanks covers only blanks and stops at the first character that is not one |
| PeopleManager.TrailingSpace | components/PeopleManager.tsx:20 | the count of trailing blanks covers only blanks and stops at the last character that is not one |
| PeopleManager.Trim | components/PeopleManager.tsx:20 | `trim` returns the contiguous middle of the name, without its leading and trailing blanks, and starts and ends with a character that is not blank; the result is empty exactly when the name is blank throughout. The handler trims with ECMAScript's white space and line terminators (`JsWhitespace`) |
| PeopleManager.TrimIdempotent | components/PeopleManager.tsx:20-28 | trimming a trimmed name changes nothing |
| PeopleManager.AddPerson | components/PeopleManager.tsx:18-40 | a name that is blank after trimming leaves the store unchanged; otherwise exactly one person is appended (fresh id, trimmed name, parsed balance or 0) and nothing else changes |
| PeopleManager.AddPersonKeepsIdsDistinct | components/PeopleManager.tsx:26-35 | appending a person with an unused id keeps the ids distinct |
| PeopleManager.AddPersonKeepsBalances | components/PeopleManager.tsx:32-35 | an addition leaves every existing balance row as it was; a newcomer whom no meal lists owes nothing, and their final balance is their starting balance |
| PeopleManager.PeopleWithout | components/PeopleManager.tsx:44 | the filtered people are exactly the people with a different id |
| PeopleManager.PeopleWithoutIds | components/PeopleManager.tsx:44 | the ids of the filtered people are the filtered ids |
| PeopleManager.PeopleWithoutAppend | components/PeopleManager.tsx:44 | the filter keeps the survivors' order |
| PeopleManager.PurgeMeal | components/PeopleManager.tsx:48-49 | purging a meal keeps its cost and filters the removed id out of its attendees |
| PeopleManager.PurgeSchedule | components/PeopleManager.tsx:46-50 | purging keeps every day, and afterwards the removed id attends no meal |
| PeopleManager.RemovePerson | components/PeopleManager.tsx:42-58 | a declined removal changes nothing; a confirmed one removes the id from the people and from every attendee list, and keeps costs, title and reset instant |
| PeopleManager.RemovePersonKeepsAttendeesAmongPeople | components/PeopleManager.tsx:42-58 | if every attendee was a person before a removal, every attendee is still a person afterwards |
| PeopleManager.RemovePersonKeepsIdsDistinct | components/PeopleManager.tsx:44 | a removal keeps the remaining ids distinct |
| BalanceSheet.FindRow | components/BalanceSheet.tsx:14 | the lookup finds the first row with the id, and finds nothing only when no row has it |
| BalanceSheet.FindRowByIds | components/BalanceSheet.tsx:14 | the lookup depends only on the rows' ids |
| BalanceSheet.SettlementAmount | components/BalanceSheet.tsx:14-21 | a settlement exists exactly when the person is found with a negative final balance, and the amount is that debt, which is positive |
| BalanceSheet.Credit | components/BalanceSheet.tsx:25-31 | every person with the id has the amount added to their initial balance; everyone else, and every id and name, is unchanged |
| BalanceSheet.Settle | components/BalanceSheet.tsx:13-34 | a settlement that is refused or declined changes nothing; a confirmed one credits exactly the debt, and title, schedule and reset instant stay |
| BalanceSheet.SettleZeroesBalance | components/BalanceSheet.tsx:25-31 | after a settlement, the recomputed final balance of the person found is exactly zero |
| BalanceSheet.SettleKeepsOtherRows | components/BalanceSheet.tsx:25-32 | a settlement leaves every other person's computed row unchanged |
| DailyMealCard.Toggle | components/DailyMealCard.tsx:25-28 | a toggle flips the membership of the id only; removing keeps every other count, adding appends at the end, and a duplicate-free list stays duplicate-free |
| DailyMealCard.ToggleTwiceRestores | components/DailyMealCard.tsx:25-28 | toggling an unlisted id twice gives back the original list |
| DailyMealCard.ToggleKeepsAttendeesAmong | components/DailyMealCard.tsx:25-28 | toggling a person's id keeps every attendee a person |
| DailyMealCard.SelectAll | components/DailyMealCard.tsx:32-35 | selecting all lists every person's id, in order |
| DailyMealCard.SelectAllSplitsEvenly | components/DailyMealCard.tsx:32-35 | after selecting all, with distinct ids, each person is charged cost / number of people for a positive cost |
| DailyMealCard.SelectAllDistinct | components/DailyMealCard.tsx:32-35 | with distinct person ids, selecting all lists no id twice |
| DailyMealCard.EvenSplitOfDistinct | components/MainApp.tsx:32-36 | in a charged meal that lists no one twice, every attendee is charged cost / number of attendees |
| DailyMealCard.DeselectAll | components/DailyMealCard.tsx:37-39 | deselecting leaves no attendee |
| DailyMealCard.DeselectAllChargesNobody | components/DailyMealCard.tsx:37-39 | after deselecting all, the meal charges nobody |
| DailyMealCard.HandleMealChange | components/DailyMealCard.tsx:111-119 | a meal edit writes the parsed cost (0 for NaN) or the attendee list into one slot of one day; every other slot, every other field of that slot, and the rest of the store stay |
| Store.ConsistentStoreConserves | components/MainApp.tsx:29-55 | in a consistent store, the deductions add up to the cost of all charged meals |
| Store.InitialDataConsistent | hooks/useUserData.ts:16-21 | a fresh store is consistent |
| Store.LoadKeepsConsistent | hooks/useUserData.ts:56-71 | loading a consistent store, or nothing, gives a consistent store |
| Store.LoadIntendedKeepsConsistent | hooks/useUserData.ts:56-71 | the same holds for the load with the corrected rule |
| Store.ChangeTitleKeepsConsistent | components/MainApp.tsx:18-22 | a title edit keeps a store consistent |
| Store.AddPersonKeepsConsistent | components/PeopleManager.tsx:18-40 | an addition with an unused id keeps a store consistent |
| Store.RemovePersonKeepsConsistent | components/PeopleManager.tsx:42-58 | a removal keeps a store consistent |
| Store.SettleKeepsConsistent | components/BalanceSheet.tsx:13-34 | a settlement keeps a store consistent |
| Store.CostChangeKeepsConsistent | components/DailyMealCard.tsx:111-114 | a cost edit keeps a store consistent |
| Store.AttendeesChangeKeepsConsistent | components/DailyMealCard.tsx:115-118 | an attendee edit whose ids are all people keeps a store consistent |
| Store.ToggleKeepsConsistent | components/DailyMealCard.tsx:25-29 | toggling a person's id in a slot keeps a store consistent |

## Left out

- Rendering, modals, expand/collapse state and the login screen: these are user interface only. The allowed user names are not part of this model.
- Writes to `localStorage` and their failures: the model treats an accepted update as the new store, and `updateUserData` is the identity on the value.
- JSON round-trips of the store: the model treats a stored value as either a well-formed store or nothing usable. A value that fails to parse takes the `catch` path to a fresh store, which is the `None` case.
- A stored `lastReset` that does not parse as a date: JavaScript compares NaN as false, so such a store never resets. The model's instants are always integers.
- `Date` range limits (±8.64e15 ms): JavaScript's `Date` cannot exceed them, but the model's instants are unbounded.
- IEEE double rounding, negative zero, and costs or balances that are NaN or infinite: the model's money is exact `real`. `Conservation` therefore holds exactly here, whereas the source's floating-point sums hold it only up to rounding.
- Clock-derived person ids: the id is a parameter. Two additions in the same millisecond would collide in the source. `Store.AddPersonKeepsConsistent` assumes the id is unused, and `PeopleManager.AddPerson` itself does not.
- Schedule keys other than the six day names: a stored schedule with extra keys would be charged and purged by the source. The model's `Schedule` type cannot hold them.
- Inherited property names as ids: `deductions` at components/MainApp.tsx:27 is a plain JavaScript object, so for an id such as `constructor`, `toString` or `__proto__` the lookup at lines 35, 42 and 48 yields an inherited value rather than `undefined`, and the final balance becomes NaN or a string. `MainApp.Lookup` returns a number for every id, and `PeopleManager.AddPerson` accepts any fresh id. The code itself only creates ids of the form `person_<ms>` (components/PeopleManager.tsx:27), so only a hand-edited stored store can reach this case.
- Separate clock readings in the loader: `getInitialData` (hooks/useUserData.ts:20), `getCairoTime` (line 24) and the reset stamp (line 63) each read the clock. The model uses one instant `now` for all three, so it ignores the milliseconds that can pass between the readings.
- The order in which `Object.values` visits days: it affects only the floating-point rounding of the sums, so the model visits the days in week order.
- In-place mutation of the shared schedule objects in `handleRemovePerson`: the model is purely functional.
- Cairo daylight saving: the code itself uses a fixed UTC+2 offset.
- MainApp.Conservation: requires distinct person ids and every attendee to be a person. A deduction for an id with no person, or one shared by two people, is not reported once per person, so the equality does not hold without these conditions.
- UserDataHook.LoadUserData: when the reset fires and the `localStorage.setItem` at hooks/useUserData.ts:64 throws, the `catch` at lines 68-70 replaces a usable stored store with a fresh one, losing its people and title. The model keeps them, because storage failures are not modelled.

## Findings

| source | as written | input that shows it | evidently intended | confidence | as-written member | corrected member |
|---|---|---|---|---|---|---|
| hooks/useUserData.ts:43-47 | The Saturday 01:00 boundary is chosen on the clock shifted two hours ahead, and only stepped back when it is after that shifted reading. It is then compared with the real, unshifted `lastReset`. From Friday 23:00 to Saturday 01:00 UTC the boundary therefore lies in the real future, so every load in that window resets again. | A store reset at 1970-01-03T00:00Z (172800000 ms, Saturday 02:00 in Cairo), edited, and reloaded 60000 ms later. The boundary is 1970-01-03T01:00Z, which is after the stored reset, so the schedule is wiped a second time and the edit is lost. | The boundary is the latest Saturday 01:00 UTC (03:00 Cairo) not after the real instant, so a reset fires at most once per week. | medium; not executed | UserDataHook.ReloadInWindowWipesEdits | UserDataHook.IntendedReloadIsStable |
