/** Values shared by the server actions and the dashboard: the records the
    dispenser writes, the inventory record, the whole database, and the events
    the dashboard shows. */
module Types {

  datatype Option<+T> = None | Some(value: T)

  /** A child of `dispense_events` or `reminders`. The server timestamp is in
      epoch milliseconds and may be missing. */
  datatype RawEvent = RawEvent(message: string, serverTimestamp: Option<int>)

  /** One child of a collection: its storage key and its record. A collection
      is the sequence of its children in the order the store enumerates them. */
  datatype Entry = Entry(key: string, event: RawEvent)

  /** The `inventory` record; either counter may be missing. */
  datatype Inventory = Inventory(totalStock: Option<int>, pillsLeft: Option<int>)

  datatype EventKind = Dispensed | Reminder | Error | Info

  /** An event as the dashboard receives it; `timestamp` in epoch milliseconds. */
  datatype DisplayEvent = DisplayEvent(id: string, kind: EventKind, message: string, timestamp: int)

  /** What a fetch hands to the dashboard. `pillsLeft` is `None` where the
      source would return `undefined`. */
  datatype AppData = AppData(events: seq<DisplayEvent>, pillsLeft: Option<int>)

  /** `{ success: true }` or `{ success: false, error }`. */
  datatype Outcome = Success | Failure(error: string)

  /** The whole database: `dispense_events`, `reminders`, `processedEvents`
      and `inventory`. */
  datatype Snapshot = Snapshot(
    dispenseEvents: seq<Entry>,
    reminders: seq<Entry>,
    processedEvents: map<string, bool>,
    inventory: Option<Inventory>)

  function Max(a: int, b: int): int {
    if a < b then b else a
  }

  /** A counter read as `field || 0`: a missing field reads as 0. */
  function ReadCount(field: Option<int>): (n: int)
    ensures field.None? ==> n == 0
    ensures field.Some? ==> n == field.value
  {
    if field.Some? then field.value else 0
  }

  /** `if (event.serverTimestamp)`: the timestamp must be present and truthy,
      so a timestamp of 0 counts as missing. */
  predicate Timestamped(e: RawEvent)
    ensures Timestamped(e) ==> e.serverTimestamp.Some? && e.serverTimestamp.value != 0
    ensures e.serverTimestamp == None || e.serverTimestamp == Some(0) ==> !Timestamped(e)
  {
    e.serverTimestamp.Some? && e.serverTimestamp.value != 0
  }

  function KeySet(s: seq<Entry>): set<string> {
    set i | 0 <= i < |s| :: s[i].key
  }

  /** Keys of a collection are unique, as object keys are. */
  predicate DistinctKeys(s: seq<Entry>) {
    forall i, j :: 0 <= i < j < |s| ==> s[i].key != s[j].key
  }

  predicate WellFormed(db: Snapshot) {
    DistinctKeys(db.dispenseEvents) && DistinctKeys(db.reminders)
  }

  /** Most recent first. */
  predicate IsNewestFirst(s: seq<DisplayEvent>) {
    forall i, j :: 0 <= i < j < |s| ==> s[i].timestamp >= s[j].timestamp
  }
}
