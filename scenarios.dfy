/** Worked cases proved about the model: small databases and what a fetch,
    a restock and the statistics make of them. */
module Scenarios {
  import opened Types
  import opened Actions
  import opened Dashboard

  function Drop(key: string, t: int): Entry {
    Entry(key, RawEvent("Pill dispensed", Some(t)))
  }

  /** Three unprocessed drops take ten pills to seven, and a second fetch
      leaves seven. */
  lemma ThreeDropsOnce()
    ensures var db := Snapshot([Drop("a", 1), Drop("b", 2), Drop("c", 3)], [], map[], Some(Inventory(Some(10), Some(10))));
      && NewDispenseCount(db) == 3
      && Reconciled(db).data.pillsLeft == Some(7)
      && Reconciled(Reconciled(db).next).data.pillsLeft == Some(7)
      && Reconciled(db).next.processedEvents == map["a" := true, "b" := true, "c" := true]
  {
    var db := Snapshot([Drop("a", 1), Drop("b", 2), Drop("c", 3)], [], map[], Some(Inventory(Some(10), Some(10))));
    var d := db.dispenseEvents;
    NoneMarkedCountsAll(d, map[]);
    assert KeySet(d) == {"a", "b", "c"} by {
      assert d[0].key == "a" && d[1].key == "b" && d[2].key == "c";
    }
    assert MarkAll(map[], d) == map["a" := true, "b" := true, "c" := true];
    ReconcileIdempotent(db);
  }

  /** Five drops against two pills leave zero, never less. */
  lemma ClampAtZero()
    ensures var db := Snapshot([Drop("a", 1), Drop("b", 2), Drop("c", 3), Drop("d", 4), Drop("e", 5)], [], map[], Some(Inventory(Some(2), Some(2))));
      Reconciled(db).data.pillsLeft == Some(0)
  {
    var db := Snapshot([Drop("a", 1), Drop("b", 2), Drop("c", 3), Drop("d", 4), Drop("e", 5)], [], map[], Some(Inventory(Some(2), Some(2))));
    NoneMarkedCountsAll(db.dispenseEvents, map[]);
  }

  /** A reminder at 200 is listed before a drop at 100. */
  lemma NewestFirstOrder()
    ensures var db := Snapshot([Drop("d", 100)], [Entry("r", RawEvent("Dose missed", Some(200)))], map[], None);
      Reconciled(db).data.events
      == [DisplayEvent("r", Reminder, "Dose missed", 200), DisplayEvent("d", Dispensed, "Pill dispensed", 100)]
  {
    var drop, reminder := Drop("d", 100), Entry("r", RawEvent("Dose missed", Some(200)));
    var db := Snapshot([drop], [reminder], map[], None);
    ProjectOne(drop, Dispensed);
    ProjectOne(reminder, Reminder);
    SortTwo(Display(drop, Dispensed), Display(reminder, Reminder));
    assert Reconciled(db).data.events == SortNewestFirst([Display(drop, Dispensed)] + [Display(reminder, Reminder)]);
  }

  lemma ProjectOne(e: Entry, kind: EventKind)
    requires Timestamped(e.event)
    ensures Project([e], kind) == [Display(e, kind)]
  {
    assert [e][..0] == [];
  }

  /** Two events out of order are swapped. */
  lemma SortTwo(a: DisplayEvent, b: DisplayEvent)
    requires a.timestamp < b.timestamp
    ensures SortNewestFirst([a] + [b]) == [b, a]
  {
    var s := [a] + [b];
    assert s[1..] == [b] && s[1..][1..] == [];
    assert SortNewestFirst(s[1..]) == [b];
    assert [b][1..] == [];
    assert InsertByTime(a, []) == [a];
    assert InsertByTime(a, [b]) == [b] + InsertByTime(a, []);
  }

  /** A drop with timestamp 0 or none is not listed, but is counted. */
  lemma FalsyTimestampHidden()
    ensures var db := Snapshot([Entry("z", RawEvent("Pill dispensed", Some(0))), Entry("n", RawEvent("Pill dispensed", None))],
                               [], map[], Some(Inventory(Some(5), Some(5))));
      Reconciled(db).data == AppData([], Some(3))
  {
    var db := Snapshot([Entry("z", RawEvent("Pill dispensed", Some(0))), Entry("n", RawEvent("Pill dispensed", None))],
                       [], map[], Some(Inventory(Some(5), Some(5))));
    var d := db.dispenseEvents;
    NoneMarkedCountsAll(d, map[]);
    assert d[..1] == [d[0]] && d[..1][..0] == [];
    assert Project(d, Dispensed) == [];
  }

  /** Restocking 0 or -5 is refused; restocking 30 on a missing inventory
      creates it at 30 and 30. */
  lemma RestockCases(db: Snapshot)
    requires db.inventory.None?
    ensures Restocked(db, 0).outcome == Failure(QuantityError) && Restocked(db, 0).next == db
    ensures Restocked(db, -5).outcome == Failure(QuantityError) && Restocked(db, -5).next == db
    ensures Restocked(db, 30).next == Snapshot([], [], map[], Some(Inventory(Some(30), Some(30))))
  {
  }

  /** Two dispensed events and one reminder give adherence 67. */
  lemma TwoOfThree()
    ensures var events := [DisplayEvent("c", Dispensed, "", 3), DisplayEvent("b", Reminder, "", 2), DisplayEvent("a", Dispensed, "", 1)];
      PillsDispensed(events) == 2 && LatePickedDoses(events) == 1 && Adherence(events) == 67
  {
    var events := [DisplayEvent("c", Dispensed, "", 3), DisplayEvent("b", Reminder, "", 2), DisplayEvent("a", Dispensed, "", 1)];
    assert events[1..][1..] == [events[2]];
  }

  /** Exact halves round up: 57.5 to 58 and 14.5 to 15. */
  lemma ExactHalves()
    ensures RoundedPercent(23, 23 + 17) == 58
    ensures RoundedPercent(29, 29 + 171) == 15
  {
  }
}
