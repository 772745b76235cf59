/** The database as one object whose collections the server actions update
    in place, with the three server actions as its methods. On success each
    method is proved to leave the state and return the value that the
    matching transform of module Actions gives; on a store failure its
    postconditions give the state left behind. The store's optimistic retry is modelled as applying the
    transform once to the current state; store failures are parameters. */
module Store {
  import opened Types
  import opened Actions

  /** What the store client throws when a call fails. */
  datatype Thrown = ThrownError(message: string) | ThrownValue

  const UnknownError: string := "An unknown error occurred"

  /** `error instanceof Error ? error.message : 'An unknown error occurred'` */
  function ErrorMessage(t: Thrown): (m: string)
    ensures t.ThrownError? ==> m == t.message
    ensures t.ThrownValue? ==> m == UnknownError
  {
    match t
    case ThrownError(m) => m
    case ThrownValue => UnknownError
  }

  /** Where a restock meets a store failure, if anywhere. */
  datatype RestockFault = NoFault | TransactionFails(thrown: Thrown) | RemovalFails(thrown: Thrown)

  class Database {
    var dispenseEvents: seq<Entry>
    var reminders: seq<Entry>
    var processedEvents: map<string, bool>
    var inventory: Option<Inventory>

    function State(): Snapshot
      reads this
    {
      Snapshot(dispenseEvents, reminders, processedEvents, inventory)
    }

    ghost predicate Valid()
      reads this
    {
      WellFormed(State())
    }

    constructor (initial: Snapshot)
      requires WellFormed(initial)
      ensures Valid() && State() == initial
    {
      dispenseEvents := initial.dispenseEvents;
      reminders := initial.reminders;
      processedEvents := initial.processedEvents;
      inventory := initial.inventory;
    }

    /** `getAppData`: the reconciliation transaction over the whole database.
        On a store failure nothing is written and the fallback data is
        returned. */
    method GetAppData(storeFails: bool) returns (data: AppData)
      requires Valid()
      modifies this
      ensures Valid()
      ensures storeFails ==> State() == old(State()) && data == AppData([], Some(0))
      ensures !storeFails ==> TxResult(State(), data) == Reconciled(old(State()))
    {
      data := AppData([], Some(0));
      if storeFails || IsEmpty(State()) {
        return;
      }
      ghost var before := State();
      var inv := if inventory.Some? then inventory.value else Inventory(Some(0), Some(0));
      var newDispenseCount, processed, events := ScanDispenseEvents();
      if newDispenseCount > 0 {
        var currentPills := ReadCount(inv.pillsLeft);
        inv := inv.(pillsLeft := Some(Max(0, currentPills - newDispenseCount)));
      }
      assert inv == DecrementPills(StoredInventory(before.inventory), NewDispenseCount(before));
      inventory := Some(inv);
      processedEvents := processed;
      events := AppendReminders(events);
      assert events == Project(before.dispenseEvents, Dispensed) + Project(before.reminders, Reminder);
      data := AppData(SortNewestFirst(events), inv.pillsLeft);
      assert State() == Reconciled(before).next;
    }

    /** The loop over `dispense_events`: count and mark every key not yet
        marked, and collect the timestamped events. */
    method ScanDispenseEvents() returns (newDispenseCount: nat, processed: map<string, bool>, events: seq<DisplayEvent>)
      requires Valid()
      ensures newDispenseCount == NewDispenseCount(State())
      ensures processed == MarkAll(processedEvents, dispenseEvents)
      ensures events == Project(dispenseEvents, Dispensed)
    {
      events := [];
      processed := processedEvents;
      newDispenseCount := 0;
      var i := 0;
      while i < |dispenseEvents|
        invariant i <= |dispenseEvents|
        invariant newDispenseCount == CountUnmarked(dispenseEvents[..i], processedEvents)
        invariant processed == MarkAll(processedEvents, dispenseEvents[..i])
        invariant events == Project(dispenseEvents[..i], Dispensed)
      {
        var entry := dispenseEvents[i];
        assert dispenseEvents[..i + 1] == dispenseEvents[..i] + [entry];
        KeyNotInPrefix(dispenseEvents, i);
        MarkStep(processedEvents, dispenseEvents[..i], entry);
        CountStep(dispenseEvents[..i], entry, processedEvents);
        if !Marked(processed, entry.key) {
          newDispenseCount := newDispenseCount + 1;
          processed := processed[entry.key := true];
        }
        if Timestamped(entry.event) {
          events := events + [DisplayEvent(entry.key, Dispensed, entry.event.message, entry.event.serverTimestamp.value)];
        }
        i := i + 1;
      }
      assert dispenseEvents[..i] == dispenseEvents;
    }

    /** The loop over `reminders`: append the timestamped ones. */
    method AppendReminders(events: seq<DisplayEvent>) returns (all: seq<DisplayEvent>)
      ensures all == events + Project(reminders, Reminder)
    {
      all := events;
      var j := 0;
      while j < |reminders|
        invariant j <= |reminders|
        invariant all == events + Project(reminders[..j], Reminder)
      {
        var entry := reminders[j];
        assert reminders[..j + 1] == reminders[..j] + [entry];
        if Timestamped(entry.event) {
          all := all + [DisplayEvent(entry.key, Reminder, entry.event.message, entry.event.serverTimestamp.value)];
        }
        j := j + 1;
      }
      assert reminders[..j] == reminders;
    }

    /** The three removals, one after the other. */
    method RemoveHistory()
      modifies this
      ensures State() == Cleared(old(State()))
    {
      dispenseEvents := [];
      reminders := [];
      processedEvents := map[];
    }

    /** `clearHistory`: a failing removal is modelled as failing before any
        removal takes effect. */
    method ClearHistory(failure: Option<Thrown>) returns (result: Outcome)
      requires Valid()
      modifies this
      ensures Valid()
      ensures failure.Some? ==> State() == old(State()) && result == Failure(ErrorMessage(failure.value))
      ensures failure.None? ==> State() == Cleared(old(State())) && result == Success
    {
      if failure.Some? {
        return Failure(ErrorMessage(failure.value));
      }
      RemoveHistory();
      return Success;
    }

    /** `restockPills`: the guard, the inventory transaction, then the
        removals; the two store steps are not atomic together, so a failing
        removal leaves the inventory restocked and the history in place. */
    method RestockPills(quantity: int, fault: RestockFault) returns (result: Outcome)
      requires Valid()
      modifies this
      ensures Valid()
      ensures quantity <= 0 ==> State() == old(State()) && result == Failure(QuantityError)
      ensures quantity > 0 && fault.TransactionFails? ==>
        State() == old(State()) && result == Failure(ErrorMessage(fault.thrown))
      ensures quantity > 0 && fault.RemovalFails? ==>
        && State() == old(State()).(inventory := Some(RestockInventory(old(inventory), quantity)))
        && result == Failure(ErrorMessage(fault.thrown))
      ensures quantity > 0 && fault.NoFault? ==> Committed(State(), result) == Restocked(old(State()), quantity)
    {
      if quantity <= 0 {
        return Failure(QuantityError);
      }
      if fault.TransactionFails? {
        return Failure(ErrorMessage(fault.thrown));
      }
      if inventory.Some? {
        var current := inventory.value;
        current := current.(pillsLeft := Some(ReadCount(current.pillsLeft) + quantity));
        current := current.(totalStock := Some(ReadCount(current.totalStock) + quantity));
        inventory := Some(current);
      } else {
        inventory := Some(Inventory(Some(quantity), Some(quantity)));
      }
      if fault.RemovalFails? {
        return Failure(ErrorMessage(fault.thrown));
      }
      RemoveHistory();
      return Success;
    }
  }
}
