# MediAlert reconciliation and inventory, modelled in Dafny

MediAlert is a dashboard for a remote pill dispenser. The device writes dispense
events and reminders into a shared real-time database. The dashboard's server
actions fold those events into an inventory counter, exactly once per event, and
hand the dashboard a newest-first event list. The dashboard then derives its
statistics from that list.

This project models that core:

- **`GetAppData`'s transaction** (`src/app/actions.ts`). A dispense key that is
  not yet marked in `processedEvents` is counted as a new pill drop and marked.
  `pillsLeft` then goes down by that count, clamped at 0. Every timestamped
  dispense event and reminder is listed, newest first.
- **`clearHistory`**. It removes `dispense_events`, `reminders` and
  `processedEvents`, and keeps `inventory`.
- **`restockPills`**. It refuses a quantity of 0 or less. It adds the quantity
  to both counters, creating them if needed, and then clears the history.
- **The dashboard statistics** (`src/app/page.tsx`): the counts per event kind,
  the adherence percentage, and the last event.

Files:

- `types.dfy` (module `Types`): the records, the inventory, the database
  snapshot and the display events.
- `actions.dfy` (module `Actions`): each server action as a pure transform of a
  snapshot (`Reconciled`, `Cleared`, `Restocked`), with the lemmas about them.
- `store.dfy` (module `Store`): class `Database`. Its fields are the four
  collections. The methods `GetAppData`, `ClearHistory` and `RestockPills`
  update those fields in place, step by step as the source does: a `while`
  loop over the keys, marking in place, pushing onto the event list. On
  success each method leaves exactly the state and returns exactly the value
  of the matching transform; on a store failure its postconditions give the
  state left behind.
- `dashboard.dfy` (module `Dashboard`): the statistics.
- `scenarios.dfy` (module `Scenarios`): small worked cases, proved as lemmas about the model.

Modelling choices:

- A collection is a sequence of `Entry(key, record)` with distinct keys. The
  order is the order in which `for...in` enumerates the keys. Processed markers
  are a `map<string, bool>`, and a key counts as processed when its value is
  truthy.
- `if (event.serverTimestamp)` is JavaScript truthiness. A timestamp of 0 is
  therefore treated like a missing one: the event is hidden but still counted.
- `x || 0` on a counter is `ReadCount`: a missing counter reads as 0.
- The returned `pillsLeft` is an `Option<int>`. Suppose the inventory exists but
  has no `pillsLeft` field, and there are no new drops. Then the source returns
  `undefined`, and the model returns `None`.
- An empty database is one where every collection is empty and there is no
  inventory. The transaction then sees `null`, writes nothing and returns
  `{events: [], pillsLeft: 0}`.
- The store's optimistic retry is modelled as one application of the transform
  to the current state. Failures of the store are parameters of the methods.
- `Math.round(p / t * 100)` is the integer formula `(200p + t) / (2t)`. Its
  contract says the formula rounds to nearest with halves going up. In the
  source the expression is computed in double precision, and on some exact
  halves the two differ: for 23 dispensed events and 17 reminders,
  `23 / 40 * 100` is 57.49999999999999 in doubles, so `Math.round` gives 57,
  while the exact half 57.5 rounds to 58 (`Scenarios.ExactHalves`); likewise
  29 of 200 gives 14 in the source and 15 here. The 199:1 case below is exact
  in doubles as well (`199 / 200 * 100` is 99.5).
- `events.sort(...)` is modelled by `SortNewestFirst`, a stable insertion sort
  written as a function. It is proved sorted newest first and a permutation of
  its input.

The statistics in `page.tsx` count the fetched events by kind
(`src/app/page.tsx:46-48`); they do not replay stock through the events, and
the model counts by kind as well. Adherence is exactly 100 when `p >= 199 * l`, not only when there
are no reminders: 199 dispensed events and one reminder round up from 99.5 to
100 (`Dashboard.AdherenceFull`).

## Model

| member | source | states |
|---|---|---|
| `Types.Timestamped` | src/app/actions.ts:40 | `if (event.serverTimestamp)`: a present, non-zero timestamp; a timestamp of 0 counts as missing |
| `Types.ReadCount` | src/app/actions.ts:52 | a counter read with a default of 0: a missing counter reads as 0, a present one as its value |
| `Actions.Marked` | src/app/actions.ts:33 | `processedEvents[key]` is truthy: a key absent from the map, or marked false, is not processed |
| `Actions.IsEmpty` | src/app/actions.ts:21 | the transaction sees `null`: both event collections and the marker map are empty and there is no inventory |
| `Actions.Display` | src/app/actions.ts:41-46 | the pushed event carries the child's key as id, the collection's kind, its message, and its non-zero timestamp |
| `Actions.CountUnmarked` | src/app/actions.ts:29-37 | the number of children whose key is not marked processed; never more than the number of children |
| `Actions.MarkAll` | src/app/actions.ts:33-37 | the marker map with every dispense key marked, and every other key present, absent and valued exactly as before |
| `Actions.NewDispenseCount` | src/app/actions.ts:29-37 | `newDispenseCount`: the unmarked dispense children, at most one per child |
| `Actions.StoredInventory` | src/app/actions.ts:25 | the stored inventory, or zeros for both counters when it is missing |
| `Actions.DecrementPills` | src/app/actions.ts:51-54 | with n > 0 new drops, pillsLeft becomes old - n when old >= n and 0 otherwise, a missing old value read as 0; with n = 0 the inventory is unchanged; totalStock never changes |
| `Actions.DisplayList` | src/app/actions.ts:39-74 | the returned list is newest first and a permutation of the timestamped dispense events followed by the timestamped reminders |
| `Actions.Reconciled` | src/app/actions.ts:20-79 | the transaction never writes the event collections; on an empty database it writes nothing and returns no events and 0 pills; otherwise it writes an inventory and returns that inventory's pillsLeft |
| `Actions.ProjectIdsDistinct` | src/app/actions.ts:30-47 | with distinct keys, no record is listed twice: the listed ids are pairwise distinct |
| `Actions.ProjectCount` | src/app/actions.ts:30-47 | with distinct keys, the projection has exactly one event per timestamped key |
| `Actions.UnmarkedKeysCount` | src/app/actions.ts:29-37 | the new-drop count equals the number of distinct dispense keys not yet marked processed |
| `Actions.Project` | src/app/actions.ts:39-47 | the projection of a collection keeps at most its records, each tagged with the collection's kind (that each timestamped record appears exactly once is `Actions.ProjectIdsDistinct` and `Actions.ProjectCount`) |
| `Actions.ProjectMembers` | src/app/actions.ts:39-47 | an event is in the projection iff it is the display form of a record of the collection that carries a truthy timestamp |
| `Actions.SortNewestFirst` | src/app/actions.ts:74 | the sorted list is newest first and a permutation of its input |
| `Actions.SortKeepsSorted` | src/app/actions.ts:74 | a list already newest first is left unchanged, so ties keep their order |
| `Actions.ReconcileMarksEveryKey` | src/app/actions.ts:30-37 | after a fetch every dispense key is marked, every earlier marker is still there, and markers of other keys are untouched |
| `Actions.ReconcilePillsLeft` | src/app/actions.ts:29-54 | with n new drops and n > 0, pillsLeft becomes max(0, old - n), with a missing old value read as 0, so it is never negative, and never above the old value when that value is non-negative; n = 0 writes the inventory back as read |
| `Actions.ReconcileKeepsTotalStock` | src/app/actions.ts:25-57 | a fetch never changes totalStock or the event collections; a missing inventory is written back as zeros |
| `Actions.ReconcileIdempotent` | src/app/actions.ts:33-58 | a fetch applied to its own written state changes nothing and returns the same events and pillsLeft |
| `Actions.ArrivalsCountedOnce` | src/app/actions.ts:30-37 | after a fetch, dispense events that arrive with fresh keys are each counted exactly once by the next fetch, and no earlier event is counted again |
| `Actions.ReconcileEvents` | src/app/actions.ts:39-75 | the fetched list is newest first, is a permutation of the timestamped dispense events tagged dispensed followed by the timestamped reminders tagged reminder, and has their combined length |
| `Actions.ReconcileEventsOnce` | src/app/actions.ts:30-71 | with distinct keys, the fetched list has one event per timestamped dispense key plus one per timestamped reminder key, and holds no event twice |
| `Actions.DisplayedEvents` | src/app/actions.ts:39-71 | an event is listed iff it comes from a timestamped dispense record tagged dispensed or from a timestamped reminder tagged reminder |
| `Actions.UntimestampedStillCounted` | src/app/actions.ts:33-40 | a new dispense record without a truthy timestamp is not listed, yet it is marked and adds one to the new-drop count |
| `Actions.Cleared` | src/app/actions.ts:96-100 | the three collections are empty and the inventory is kept; the result is the empty database exactly when there was no inventory |
| `Actions.RestockInventory` | src/app/actions.ts:118-131 | both counters end at their old value plus the quantity, a missing counter or a missing inventory read as 0 |
| `Actions.Restocked` | src/app/actions.ts:110-138 | success exactly when the quantity is positive; a refusal leaves the state as it was with the fixed message; a success restocks the inventory and empties the three collections |
| `Actions.FetchAfterClear` | src/app/actions.ts:90-100 | clearing empties the three collections and keeps the inventory, and the next fetch lists nothing and decrements nothing |
| `Actions.RestockRejectsNonPositive` | src/app/actions.ts:111-113 | a quantity of 0 or less is refused with the fixed message and nothing changes |
| `Actions.RestockAddsToBoth` | src/app/actions.ts:118-138 | a positive restock adds the quantity to both counters, with missing counters or a missing inventory read as 0, then empties the three collections and reports success |
| `Actions.FetchAfterRestock` | src/app/actions.ts:118-138 | the fetch after a restock returns the restocked pillsLeft and no events, and writes nothing new |
| `Actions.ReconcileKeepsStockSane` | src/app/actions.ts:51-57 | a fetch keeps 0 <= pillsLeft <= totalStock when it held before |
| `Actions.RestockKeepsStockSane` | src/app/actions.ts:119-130 | a restock keeps 0 <= pillsLeft <= totalStock when it held before |
| `Store.ErrorMessage` | src/app/actions.ts:104 | a thrown Error gives its own message; any other thrown value gives the fixed unknown-error text |
| `Store.Database.GetAppData` | src/app/actions.ts:13-88 | the in-place transaction leaves exactly the state and returns exactly the data that `Reconciled` gives; a store failure writes nothing and returns no events with 0 pills |
| `Store.Database.ScanDispenseEvents` | src/app/actions.ts:29-48 | the loop over dispense keys returns the new-drop count, the marker map with every key marked, and the timestamped dispense events in order |
| `Store.Database.AppendReminders` | src/app/actions.ts:60-71 | the loop over reminders appends exactly the timestamped reminders, tagged reminder, in order |
| `Store.Database.RemoveHistory` | src/app/actions.ts:96-100 | the three removals empty the collections and keep the inventory |
| `Store.Database.ClearHistory` | src/app/actions.ts:90-108 | success empties the three collections and keeps the inventory; a failure reports the error message, or the unknown-error text for a non-Error value |
| `Store.Database.RestockPills` | src/app/actions.ts:110-147 | the guard refuses non-positive quantities without a change; otherwise the inventory transaction and then the removals, with a removal failure leaving the inventory restocked and the history in place |
| `Dashboard.OfKind` | src/app/page.tsx:46-48 | `events.filter(e => e.type === kind)` keeps at most as many events as the list has |
| `Dashboard.OfKindMembers` | src/app/page.tsx:46-48 | an event survives the filter exactly when it is in the list and of that kind |
| `Dashboard.PillsDispensed` | src/app/page.tsx:46 | at most the list's length, and 0 exactly when no event is a dispense |
| `Dashboard.LatePickedDoses` | src/app/page.tsx:47 | at most the list's length, and 0 exactly when no event is a reminder |
| `Dashboard.InfoEvents` | src/app/page.tsx:48 | at most the list's length, and 0 exactly when no event is an info event |
| `Dashboard.CountsIgnoreOrder` | src/app/page.tsx:46-48 | reordering a list does not change the count of any kind |
| `Dashboard.FetchedCounts` | src/app/page.tsx:46-48 | on a fetched list, pillsDispensed equals the length of the dispense projection and latePickedDoses that of the reminder projection, and infoEvents is 0; with distinct keys these are the numbers of timestamped dispense keys and timestamped reminder keys |
| `Dashboard.RoundedPercent` | src/app/page.tsx:56 | the integer formula is Math.round of 100·p/t: within one half of it, halves rounding up |
| `Dashboard.Adherence` | src/app/page.tsx:50-63 | adherence always lies in [0, 100] |
| `Dashboard.AdherenceRounds` | src/app/page.tsx:53-56 | with events and doses, adherence is Math.round(100·p/(p+l)) |
| `Dashboard.AdherenceFull` | src/app/page.tsx:53-62 | adherence is 100 exactly when p >= 199·l; this covers no events, no doses and no reminders |
| `Dashboard.AdherenceZero` | src/app/page.tsx:53-56 | adherence is 0 exactly when 199·p < l |
| `Dashboard.LastEvent` | src/app/page.tsx:44 | the last event is present exactly when the list is non-empty, and is one of its events |
| `Dashboard.LastEventIsNewest` | src/app/page.tsx:44 | on a newest-first list the last event is the first element and no event is newer |
| `Dashboard.FetchedLastEvent` | src/app/page.tsx:44 | on a fetched list the last event is the most recent one listed |
| `Scenarios.ThreeDropsOnce` | src/app/actions.ts:29-58 | three new drops take 10 pills to 7 and mark the three keys; a second fetch still gives 7 |
| `Scenarios.ClampAtZero` | src/app/actions.ts:51-54 | five new drops against 2 pills leave 0 |
| `Scenarios.SortTwo` | src/app/actions.ts:74 | two events out of time order are swapped by the sort |
| `Scenarios.NewestFirstOrder` | src/app/actions.ts:61-75 | a reminder at 200 is listed before a dispense at 100 |
| `Scenarios.FalsyTimestampHidden` | src/app/actions.ts:33-47 | drops with timestamp 0 or none are not listed but still take 5 pills to 3 |
| `Scenarios.RestockCases` | src/app/actions.ts:111-131 | restocking 0 or -5 is refused; restocking 30 with no inventory creates 30 and 30 |
| `Scenarios.TwoOfThree` | src/app/page.tsx:46-56 | two dispensed events and one reminder give counts 2 and 1 and adherence 67 |
| `Scenarios.ExactHalves` | src/app/page.tsx:56 | the integer formula rounds the exact halves 57.5 (23 of 40) and 14.5 (29 of 200) up, to 58 and 15 |

## Left out

- The database client (`ref`, `child`, `remove`, `runTransaction`, `src/lib/firebase.ts`) is a foreign library. The store is the `Database` object, and a transaction is one application of its transform to the current state.
- The retry loop, and the concurrency between the device and several dashboard tabs, are left to the store. The model runs one action at a time.
- The three removals run in parallel in the source. The model runs them one after the other.
- Store.Database.ClearHistory: a failing removal is modelled as failing before any of the three removals takes effect. A partial clear, which the store allows, is not modelled.
- Store.Database.RestockPills: as for ClearHistory, a failing removal is modelled as leaving all three collections in place.
- A store failure during a fetch is a boolean parameter. The thrown value is only logged in the source, so it is not modelled.
- Console logging is not modelled. Neither is `Date` construction or formatting: timestamps are integer milliseconds.
- JavaScript number semantics are not modelled: floating point, `NaN`, non-integer quantities, timestamps outside the `Date` range, and a timestamp field that is not a number. All counters and timestamps are integers, and `Math.round` is the exact integer formula.
- Database children other than the four modelled collections are not modelled. An inventory object with neither counter is treated as present.
- Actions.Marked: the marker map is modelled as a plain map. In the source `processedEvents[key]` looks the key up on a plain object, so a key naming an `Object.prototype` member (such as `constructor` or `toString`) with no marker of its own reads as truthy: the source treats that dispense event as already processed and never counts or marks it, while the model counts it as a new drop.
- Actions.SortNewestFirst: `Array.prototype.sort` is a library call. It is modelled as a pure stable insertion sort, not as an in-place sort. Of stability, only `Actions.SortKeepsSorted` is proved: a sorted list is left unchanged.
- In the source, `page.tsx` imports `getEvents` and `clearEvents`, which the actions file does not define. The statistics are modelled as functions of an event list, whichever call produced it.
- The initial adherence of 0, shown before the first effect runs, is not modelled. Neither are the React state, hooks, interval polling, JSX and all UI components.
- The client-side quantity check in `restock-dialog.tsx` uses `parseInt` and `isNaN`. It only repeats the server guard, so it is not modelled.
