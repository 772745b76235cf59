/** The server actions as transforms of a database snapshot: the
    reconciliation that a fetch runs inside its transaction, history clearing,
    and restocking, with the properties they promise. The imperative versions
    that update a database in place are in module Store; on success each is
    proved to leave the state these give, and on a store failure its own
    postconditions give the state left behind. */
module Actions {
  import opened Types

  const QuantityError: string := "Quantity must be a positive number."

  /** `processedEvents[key]` is truthy: the dispense event `key` has already
      been counted against the stock. */
  predicate Marked(p: map<string, bool>, key: string)
    ensures key !in p ==> !Marked(p, key)
    ensures key in p && !p[key] ==> !Marked(p, key)
  {
    key in p && p[key]
  }

  // ---------------------------------------------------------------------
  // Counting and marking new pill drops
  // ---------------------------------------------------------------------

  /** The number of children of `s` that `p` does not mark. */
  function CountUnmarked(s: seq<Entry>, p: map<string, bool>): (c: nat)
    ensures c <= |s|
  {
    if s == [] then 0
    else CountUnmarked(s[..|s| - 1], p) + (if Marked(p, s[|s| - 1].key) then 0 else 1)
  }

  /** The keys of `s` that `p` does not mark. */
  function UnmarkedKeys(s: seq<Entry>, p: map<string, bool>): set<string> {
    set i | 0 <= i < |s| && !Marked(p, s[i].key) :: s[i].key
  }

  /** `p` with every key of `s` marked and every other entry as it was. */
  function MarkAll(p: map<string, bool>, s: seq<Entry>): (r: map<string, bool>)
    ensures forall k :: k in KeySet(s) ==> Marked(r, k)
    ensures forall k :: k !in KeySet(s) ==> (k in r <==> k in p) && (k in p ==> r[k] == p[k])
  {
    map k | k in p.Keys + KeySet(s) :: if k in KeySet(s) then true else p[k]
  }

  lemma KeySetAppend(s: seq<Entry>, e: Entry)
    ensures KeySet(s + [e]) == KeySet(s) + {e.key}
  {
    var t := s + [e];
    assert t[|s|] == e;
    forall k | k in KeySet(s) ensures k in KeySet(t) {
      var i :| 0 <= i < |s| && s[i].key == k;
      assert t[i] == s[i];
    }
  }

  lemma KeyNotInPrefix(s: seq<Entry>, i: nat)
    requires DistinctKeys(s) && i < |s|
    ensures s[i].key !in KeySet(s[..i])
  {
    forall j | 0 <= j < i ensures s[..i][j].key != s[i].key {
      assert s[..i][j] == s[j];
    }
  }

  /** One step of the marking loop: marking the next key. */
  lemma MarkStep(p: map<string, bool>, s: seq<Entry>, e: Entry)
    requires e.key !in KeySet(s)
    ensures Marked(MarkAll(p, s), e.key) == Marked(p, e.key)
    ensures MarkAll(p, s + [e])
         == if Marked(p, e.key) then MarkAll(p, s) else MarkAll(p, s)[e.key := true]
  {
    KeySetAppend(s, e);
    var m, m' := MarkAll(p, s), MarkAll(p, s + [e]);
    if Marked(p, e.key) {
      assert m'.Keys == m.Keys;
      assert forall k :: k in m' ==> m'[k] == m[k];
    } else {
      assert m'.Keys == m[e.key := true].Keys;
    }
  }

  lemma CountStep(s: seq<Entry>, e: Entry, p: map<string, bool>)
    ensures CountUnmarked(s + [e], p) == CountUnmarked(s, p) + (if Marked(p, e.key) then 0 else 1)
  {
    assert (s + [e])[..|s|] == s;
  }

  lemma {:induction false} CountUnmarkedAppend(a: seq<Entry>, b: seq<Entry>, p: map<string, bool>)
    ensures CountUnmarked(a + b, p) == CountUnmarked(a, p) + CountUnmarked(b, p)
  {
    if b == [] {
      assert a + b == a;
    } else {
      var init := b[..|b| - 1];
      CountUnmarkedAppend(a, init, p);
      assert (a + b)[..|a + b| - 1] == a + init;
      assert (a + b)[|a + b| - 1] == b[|b| - 1];
    }
  }

  lemma {:induction false} AllMarkedCountsZero(s: seq<Entry>, p: map<string, bool>)
    requires forall k :: k in KeySet(s) ==> Marked(p, k)
    ensures CountUnmarked(s, p) == 0
  {
    if s != [] {
      var init := s[..|s| - 1];
      forall k | k in KeySet(init) ensures Marked(p, k) {
        var i :| 0 <= i < |init| && init[i].key == k;
        assert s[i].key == k;
      }
      AllMarkedCountsZero(init, p);
      assert s[|s| - 1].key in KeySet(s);
    }
  }

  lemma {:induction false} NoneMarkedCountsAll(s: seq<Entry>, p: map<string, bool>)
    requires forall i :: 0 <= i < |s| ==> !Marked(p, s[i].key)
    ensures CountUnmarked(s, p) == |s|
  {
    if s != [] {
      var init := s[..|s| - 1];
      assert forall i :: 0 <= i < |init| ==> init[i] == s[i];
      NoneMarkedCountsAll(init, p);
    }
  }

  lemma UnmarkedKeysSnoc(s: seq<Entry>, p: map<string, bool>)
    requires s != []
    ensures var last := s[|s| - 1];
      UnmarkedKeys(s, p)
      == UnmarkedKeys(s[..|s| - 1], p) + (if Marked(p, last.key) then {} else {last.key})
    ensures UnmarkedKeys(s[..|s| - 1], p) <= KeySet(s[..|s| - 1])
  {
    var init, last := s[..|s| - 1], s[|s| - 1];
    var now, before := UnmarkedKeys(s, p), UnmarkedKeys(init, p);
    var added := if Marked(p, last.key) then {} else {last.key};
    forall k | k in before ensures k in now && k in KeySet(init) {
      var i :| 0 <= i < |init| && !Marked(p, init[i].key) && init[i].key == k;
      assert s[i] == init[i];
    }
    forall k | k in now ensures k in before + added {
      var i :| 0 <= i < |s| && !Marked(p, s[i].key) && s[i].key == k;
      if i < |init| {
        assert init[i] == s[i];
      }
    }
  }

  /** The count is the number of distinct keys not yet marked. */
  lemma {:induction false} UnmarkedKeysCount(s: seq<Entry>, p: map<string, bool>)
    requires DistinctKeys(s)
    ensures |UnmarkedKeys(s, p)| == CountUnmarked(s, p)
  {
    if s == [] {
      assert UnmarkedKeys(s, p) == {};
    } else {
      var init := s[..|s| - 1];
      assert DistinctKeys(init) by {
        assert forall i :: 0 <= i < |init| ==> init[i] == s[i];
      }
      UnmarkedKeysCount(init, p);
      KeyNotInPrefix(s, |s| - 1);
      UnmarkedKeysSnoc(s, p);
    }
  }

  lemma MarkAllIdempotent(p: map<string, bool>, s: seq<Entry>)
    ensures MarkAll(MarkAll(p, s), s) == MarkAll(p, s)
  {
    var m := MarkAll(p, s);
    assert MarkAll(m, s).Keys == m.Keys;
  }

  // ---------------------------------------------------------------------
  // Projection to display events and the newest-first order
  // ---------------------------------------------------------------------

  /** The event the dashboard shows for a timestamped child. */
  function Display(e: Entry, kind: EventKind): (ev: DisplayEvent)
    requires Timestamped(e.event)
    ensures ev.id == e.key && ev.kind == kind && ev.message == e.event.message
    ensures Some(ev.timestamp) == e.event.serverTimestamp && ev.timestamp != 0
  {
    DisplayEvent(e.key, kind, e.event.message, e.event.serverTimestamp.value)
  }

  /** The timestamped children of `s`, in order, tagged with `kind`. */
  function Project(s: seq<Entry>, kind: EventKind): (r: seq<DisplayEvent>)
    ensures |r| <= |s|
    ensures forall ev :: ev in r ==> ev.kind == kind
  {
    if s == [] then []
    else
      var last := s[|s| - 1];
      Project(s[..|s| - 1], kind) + (if Timestamped(last.event) then [Display(last, kind)] else [])
  }

  lemma {:induction false} ProjectMembers(s: seq<Entry>, kind: EventKind, ev: DisplayEvent)
    ensures ev in Project(s, kind)
        <==> exists i :: 0 <= i < |s| && Timestamped(s[i].event) && ev == Display(s[i], kind)
  {
    if s != [] {
      var init := s[..|s| - 1];
      ProjectMembers(init, kind, ev);
      assert forall i :: 0 <= i < |init| ==> init[i] == s[i];
    }
  }

  /** The keys of the timestamped children of `s`. */
  function TimestampedKeys(s: seq<Entry>): set<string> {
    set i | 0 <= i < |s| && Timestamped(s[i].event) :: s[i].key
  }

  lemma TimestampedKeysSnoc(s: seq<Entry>)
    requires s != []
    ensures var last := s[|s| - 1];
      TimestampedKeys(s)
      == TimestampedKeys(s[..|s| - 1]) + (if Timestamped(last.event) then {last.key} else {})
    ensures TimestampedKeys(s[..|s| - 1]) <= KeySet(s[..|s| - 1])
  {
    var init, last := s[..|s| - 1], s[|s| - 1];
    var now, before := TimestampedKeys(s), TimestampedKeys(init);
    var added := if Timestamped(last.event) then {last.key} else {};
    forall k | k in before ensures k in now && k in KeySet(init) {
      var i :| 0 <= i < |init| && Timestamped(init[i].event) && init[i].key == k;
      assert s[i] == init[i];
    }
    forall k | k in now ensures k in before + added {
      var i :| 0 <= i < |s| && Timestamped(s[i].event) && s[i].key == k;
      if i < |init| {
        assert init[i] == s[i];
      }
    }
  }

  /** Every event of the projection carries the key of a child. */
  lemma ProjectIdsAreKeys(s: seq<Entry>, kind: EventKind)
    ensures forall i :: 0 <= i < |Project(s, kind)| ==> Project(s, kind)[i].id in KeySet(s)
  {
    var r := Project(s, kind);
    forall i | 0 <= i < |r| ensures r[i].id in KeySet(s) {
      assert r[i] in r;
      ProjectMembers(s, kind, r[i]);
      var j :| 0 <= j < |s| && Timestamped(s[j].event) && r[i] == Display(s[j], kind);
    }
  }

  /** With distinct keys, no child is listed twice: the listed ids are
      pairwise distinct. */
  lemma {:induction false} ProjectIdsDistinct(s: seq<Entry>, kind: EventKind)
    requires DistinctKeys(s)
    ensures forall i, j :: 0 <= i < j < |Project(s, kind)| ==> Project(s, kind)[i].id != Project(s, kind)[j].id
  {
    if s != [] {
      var init, last := s[..|s| - 1], s[|s| - 1];
      assert DistinctKeys(init) by {
        assert forall i :: 0 <= i < |init| ==> init[i] == s[i];
      }
      ProjectIdsDistinct(init, kind);
      KeyNotInPrefix(s, |s| - 1);
      ProjectIdsAreKeys(init, kind);
      var p, r := Project(init, kind), Project(s, kind);
      assert forall i :: 0 <= i < |p| ==> r[i] == p[i];
      assert |r| == |p| + 1 ==> r[|p|].id == last.key;
    }
  }

  /** With distinct keys, the projection has one event per timestamped key. */
  lemma {:induction false} ProjectCount(s: seq<Entry>, kind: EventKind)
    requires DistinctKeys(s)
    ensures |Project(s, kind)| == |TimestampedKeys(s)|
  {
    if s == [] {
      assert TimestampedKeys(s) == {};
    } else {
      var init := s[..|s| - 1];
      assert DistinctKeys(init) by {
        assert forall i :: 0 <= i < |init| ==> init[i] == s[i];
      }
      ProjectCount(init, kind);
      KeyNotInPrefix(s, |s| - 1);
      TimestampedKeysSnoc(s);
    }
  }

  /** Insert `e` before the first event that is not newer than it. */
  function InsertByTime(e: DisplayEvent, s: seq<DisplayEvent>): (r: seq<DisplayEvent>)
    requires IsNewestFirst(s)
    ensures IsNewestFirst(r)
    ensures multiset(r) == multiset(s) + multiset{e}
  {
    if s == [] || s[0].timestamp <= e.timestamp then [e] + s
    else
      var rest := InsertByTime(e, s[1..]);
      assert s == [s[0]] + s[1..];
      NotNewerThanHead(e, s, rest);
      [s[0]] + rest
  }

  /** Everything inserted behind the head of a newest-first list is no newer
      than that head. */
  lemma NotNewerThanHead(e: DisplayEvent, s: seq<DisplayEvent>, rest: seq<DisplayEvent>)
    requires IsNewestFirst(s) && s != [] && e.timestamp < s[0].timestamp
    requires multiset(rest) == multiset(s[1..]) + multiset{e}
    ensures forall j :: 0 <= j < |rest| ==> rest[j].timestamp <= s[0].timestamp
  {
    forall j | 0 <= j < |rest| ensures rest[j].timestamp <= s[0].timestamp {
      assert rest[j] in multiset(rest);
      if rest[j] != e {
        assert rest[j] in s[1..];
      }
    }
  }

  /** `events.sort((a, b) => b.timestamp - a.timestamp)`, a stable sort. */
  function SortNewestFirst(s: seq<DisplayEvent>): (r: seq<DisplayEvent>)
    ensures IsNewestFirst(r)
    ensures multiset(r) == multiset(s)
  {
    if s == [] then []
    else
      assert s == [s[0]] + s[1..];
      InsertByTime(s[0], SortNewestFirst(s[1..]))
  }

  /** A list already newest first is left as it is. */
  lemma {:induction false} SortKeepsSorted(s: seq<DisplayEvent>)
    requires IsNewestFirst(s)
    ensures SortNewestFirst(s) == s
  {
    if s != [] {
      SortKeepsSorted(s[1..]);
      assert s == [s[0]] + s[1..];
    }
  }

  // ---------------------------------------------------------------------
  // The fetch transaction
  // ---------------------------------------------------------------------

  /** The transaction sees `null`: the database holds nothing. */
  predicate IsEmpty(db: Snapshot)
    ensures IsEmpty(db) ==> KeySet(db.dispenseEvents) == {} && KeySet(db.reminders) == {}
    ensures IsEmpty(db) ==> db.processedEvents.Keys == {} && db.inventory.None?
  {
    db.dispenseEvents == [] && db.reminders == [] && db.processedEvents == map[] && db.inventory.None?
  }

  /** `newDispenseCount`: the dispense events not yet marked processed. */
  function NewDispenseCount(db: Snapshot): (n: nat)
    ensures n <= |db.dispenseEvents|
  {
    CountUnmarked(db.dispenseEvents, db.processedEvents)
  }

  /** The inventory, read as zeros when it is missing. */
  function StoredInventory(inv: Option<Inventory>): (r: Inventory)
    ensures inv.Some? ==> r == inv.value
    ensures inv.None? ==> r.pillsLeft.Some? && r.totalStock.Some? && ReadCount(r.pillsLeft) == 0 && ReadCount(r.totalStock) == 0
  {
    if inv.Some? then inv.value else Inventory(Some(0), Some(0))
  }

  function StoredPills(inv: Option<Inventory>): int {
    ReadCount(StoredInventory(inv).pillsLeft)
  }

  function StoredTotal(inv: Option<Inventory>): int {
    ReadCount(StoredInventory(inv).totalStock)
  }

  function DecrementPills(inv: Inventory, n: nat): (r: Inventory)
    ensures r.totalStock == inv.totalStock
    ensures n == 0 ==> r == inv
    ensures n > 0 ==> r.pillsLeft.Some? && 0 <= r.pillsLeft.value
    ensures n > 0 && ReadCount(inv.pillsLeft) >= n ==> r.pillsLeft.value == ReadCount(inv.pillsLeft) - n
    ensures n > 0 && ReadCount(inv.pillsLeft) < n ==> r.pillsLeft.value == 0
  {
    if n > 0 then inv.(pillsLeft := Some(Max(0, ReadCount(inv.pillsLeft) - n))) else inv
  }

  /** Every timestamped dispense event and reminder, newest first. */
  function DisplayList(db: Snapshot): (r: seq<DisplayEvent>)
    ensures IsNewestFirst(r)
    ensures multiset(r) == multiset(Project(db.dispenseEvents, Dispensed) + Project(db.reminders, Reminder))
  {
    SortNewestFirst(Project(db.dispenseEvents, Dispensed) + Project(db.reminders, Reminder))
  }

  /** The state a transaction writes back and the data it hands out. */
  datatype TxResult = TxResult(next: Snapshot, data: AppData)

  /** The fetch transaction as a function of the state it reads. */
  function Reconciled(db: Snapshot): (r: TxResult)
    ensures r.next.dispenseEvents == db.dispenseEvents && r.next.reminders == db.reminders
    ensures IsEmpty(db) ==> r.next == db && r.data == AppData([], Some(0))
    ensures !IsEmpty(db) ==> r.next.inventory.Some? && r.data.pillsLeft == r.next.inventory.value.pillsLeft
  {
    if IsEmpty(db) then TxResult(db, AppData([], Some(0)))
    else
      var inv := DecrementPills(StoredInventory(db.inventory), NewDispenseCount(db));
      TxResult(
        db.(processedEvents := MarkAll(db.processedEvents, db.dispenseEvents), inventory := Some(inv)),
        AppData(DisplayList(db), inv.pillsLeft))
  }

  /** Every dispense key ends up marked, every earlier marker stays, and no
      other marker changes. */
  lemma ReconcileMarksEveryKey(db: Snapshot)
    ensures var p, p' := db.processedEvents, Reconciled(db).next.processedEvents;
      && (forall k :: k in KeySet(db.dispenseEvents) ==> Marked(p', k))
      && (forall k :: Marked(p, k) ==> Marked(p', k))
      && (forall k :: k !in KeySet(db.dispenseEvents) ==> (k in p' <==> k in p) && (k in p ==> p'[k] == p[k]))
  {
    if IsEmpty(db) {
      assert KeySet(db.dispenseEvents) == {};
    }
  }

  /** The decrement: by the number of keys not yet marked, clamped at 0, with
      a missing counter read as 0; nothing new leaves the counter alone. */
  lemma ReconcilePillsLeft(db: Snapshot)
    requires WellFormed(db) && !IsEmpty(db)
    ensures var r, n := Reconciled(db), NewDispenseCount(db);
      && n == |UnmarkedKeys(db.dispenseEvents, db.processedEvents)|
      && r.next.inventory.Some?
      && r.data.pillsLeft == r.next.inventory.value.pillsLeft
      && (n > 0 ==> r.data.pillsLeft == Some(Max(0, StoredPills(db.inventory) - n)))
      && (n > 0 ==> 0 <= r.data.pillsLeft.value)
      && (n > 0 && StoredPills(db.inventory) >= 0 ==> r.data.pillsLeft.value <= StoredPills(db.inventory))
      && (n == 0 ==> r.next.inventory == Some(StoredInventory(db.inventory)))
  {
    UnmarkedKeysCount(db.dispenseEvents, db.processedEvents);
    var n := NewDispenseCount(db);
    var inv := DecrementPills(StoredInventory(db.inventory), n);
    var next := db.(processedEvents := MarkAll(db.processedEvents, db.dispenseEvents), inventory := Some(inv));
    assert Reconciled(db) == TxResult(next, AppData(DisplayList(db), inv.pillsLeft));
  }

  /** The transaction never touches `totalStock` or the event collections; a
      missing inventory is written back as zeros. */
  lemma ReconcileKeepsTotalStock(db: Snapshot)
    requires !IsEmpty(db)
    ensures var next := Reconciled(db).next;
      && next.inventory.Some?
      && next.inventory.value.totalStock == StoredInventory(db.inventory).totalStock
      && (db.inventory.None? ==> next.inventory == Some(Inventory(Some(0), Some(0))))
      && next.dispenseEvents == db.dispenseEvents
      && next.reminders == db.reminders
  {
  }

  /** Running the transaction on its own result changes nothing and hands
      out the same data. */
  lemma ReconcileIdempotent(db: Snapshot)
    ensures Reconciled(Reconciled(db).next) == Reconciled(db)
  {
    if !IsEmpty(db) {
      var next := Reconciled(db).next;
      assert !IsEmpty(next);
      AllMarkedCountsZero(next.dispenseEvents, next.processedEvents);
      MarkAllIdempotent(db.processedEvents, db.dispenseEvents);
    }
  }

  /** Exactly once: after a fetch, dispense events that arrive with fresh
      keys are counted once each, and nothing fetched before is counted
      again. */
  lemma ArrivalsCountedOnce(db: Snapshot, arrivals: seq<Entry>)
    requires forall i :: 0 <= i < |arrivals| ==>
      arrivals[i].key !in KeySet(db.dispenseEvents) && !Marked(db.processedEvents, arrivals[i].key)
    ensures var next := Reconciled(db).next;
      NewDispenseCount(next.(dispenseEvents := next.dispenseEvents + arrivals)) == |arrivals|
  {
    var next := Reconciled(db).next;
    CountUnmarkedAppend(next.dispenseEvents, arrivals, next.processedEvents);
    if IsEmpty(db) {
      assert KeySet(next.dispenseEvents) == {};
    }
    AllMarkedCountsZero(next.dispenseEvents, next.processedEvents);
    NoneMarkedCountsAll(arrivals, next.processedEvents);
  }

  /** The display list holds exactly the timestamped dispense events and
      reminders, newest first. */
  lemma ReconcileEvents(db: Snapshot)
    ensures var events := Reconciled(db).data.events;
      && IsNewestFirst(events)
      && multiset(events) == multiset(Project(db.dispenseEvents, Dispensed) + Project(db.reminders, Reminder))
      && |events| == |Project(db.dispenseEvents, Dispensed)| + |Project(db.reminders, Reminder)|
  {
    var events := Reconciled(db).data.events;
    assert |events| == |multiset(events)|;
  }

  /** With distinct keys in each collection, the display list holds one
      event per timestamped dispense key and one per timestamped reminder
      key, and no event twice. */
  lemma ReconcileEventsOnce(db: Snapshot)
    requires WellFormed(db)
    ensures var events := Reconciled(db).data.events;
      && |events| == |TimestampedKeys(db.dispenseEvents)| + |TimestampedKeys(db.reminders)|
      && forall ev :: multiset(events)[ev] <= 1
  {
    var events := Reconciled(db).data.events;
    var ds, rs := Project(db.dispenseEvents, Dispensed), Project(db.reminders, Reminder);
    ReconcileEvents(db);
    ProjectCount(db.dispenseEvents, Dispensed);
    ProjectCount(db.reminders, Reminder);
    ProjectIdsDistinct(db.dispenseEvents, Dispensed);
    ProjectIdsDistinct(db.reminders, Reminder);
    DistinctIdsOnce(ds);
    DistinctIdsOnce(rs);
    forall ev: DisplayEvent ensures multiset(events)[ev] <= 1 {
      assert multiset(events)[ev] == multiset(ds)[ev] + multiset(rs)[ev];
      if ev.kind == Dispensed {
        assert ev !in rs;
      } else {
        assert ev !in ds;
      }
    }
  }

  /** A list whose ids are pairwise distinct holds no event twice. */
  lemma {:induction false} DistinctIdsOnce(s: seq<DisplayEvent>)
    requires forall i, j :: 0 <= i < j < |s| ==> s[i].id != s[j].id
    ensures forall ev :: multiset(s)[ev] <= 1
  {
    if s != [] {
      var rest := s[1..];
      assert forall i, j :: 0 <= i < j < |rest| ==> rest[i].id != rest[j].id by {
        assert forall i :: 0 <= i < |rest| ==> rest[i] == s[i + 1];
      }
      DistinctIdsOnce(rest);
      assert s == [s[0]] + rest;
      assert s[0] !in rest by {
        assert forall i :: 0 <= i < |rest| ==> rest[i].id == s[i + 1].id != s[0].id;
      }
    }
  }

  lemma DisplayedEvents(db: Snapshot, ev: DisplayEvent)
    ensures var d, r := db.dispenseEvents, db.reminders;
      ev in Reconciled(db).data.events <==>
        || (exists i :: 0 <= i < |d| && Timestamped(d[i].event) && ev == Display(d[i], Dispensed))
        || (exists i :: 0 <= i < |r| && Timestamped(r[i].event) && ev == Display(r[i], Reminder))
  {
    ReconcileEvents(db);
    var events := Reconciled(db).data.events;
    var both := Project(db.dispenseEvents, Dispensed) + Project(db.reminders, Reminder);
    assert ev in events <==> ev in multiset(both);
    ProjectMembers(db.dispenseEvents, Dispensed, ev);
    ProjectMembers(db.reminders, Reminder, ev);
  }

  /** A dispense event without a timestamp is not shown, yet it is still
      marked and still counted. */
  lemma UntimestampedStillCounted(db: Snapshot, i: nat)
    requires WellFormed(db) && i < |db.dispenseEvents|
    requires !Timestamped(db.dispenseEvents[i].event) && !Marked(db.processedEvents, db.dispenseEvents[i].key)
    ensures var d, key := db.dispenseEvents, db.dispenseEvents[i].key;
      && Marked(Reconciled(db).next.processedEvents, key)
      && (forall ev :: ev in Reconciled(db).data.events ==> !(ev.kind == Dispensed && ev.id == key))
      && NewDispenseCount(db) == CountUnmarked(d[..i] + d[i + 1..], db.processedEvents) + 1
  {
    var d, p, key := db.dispenseEvents, db.processedEvents, db.dispenseEvents[i].key;
    assert d[i].key in KeySet(d);
    ReconcileMarksEveryKey(db);
    forall ev | ev in Reconciled(db).data.events && ev.kind == Dispensed ensures ev.id != key {
      DisplayedEvents(db, ev);
      var j :| 0 <= j < |d| && Timestamped(d[j].event) && ev == Display(d[j], Dispensed);
      assert j != i;
    }
    CountWithout(d, i, p);
  }

  /** Removing one child removes its contribution to the count. */
  lemma CountWithout(s: seq<Entry>, i: nat, p: map<string, bool>)
    requires i < |s|
    ensures CountUnmarked(s, p) == CountUnmarked(s[..i] + s[i + 1..], p) + (if Marked(p, s[i].key) then 0 else 1)
  {
    assert s == s[..i] + [s[i]] + s[i + 1..];
    CountUnmarkedAppend(s[..i] + [s[i]], s[i + 1..], p);
    CountUnmarkedAppend(s[..i], s[i + 1..], p);
    CountStep(s[..i], s[i], p);
  }

  // ---------------------------------------------------------------------
  // Clearing history and restocking
  // ---------------------------------------------------------------------

  /** The three collections removed; the inventory kept. */
  function Cleared(db: Snapshot): (r: Snapshot)
    ensures r.inventory == db.inventory
    ensures |r.dispenseEvents| == 0 && |r.reminders| == 0 && |r.processedEvents| == 0
    ensures IsEmpty(r) <==> db.inventory.None?
  {
    db.(dispenseEvents := [], reminders := [], processedEvents := map[])
  }

  /** The inventory transaction of a restock. */
  function RestockInventory(inv: Option<Inventory>, quantity: int): (r: Inventory)
    ensures r.pillsLeft == Some(StoredPills(inv) + quantity)
    ensures r.totalStock == Some(StoredTotal(inv) + quantity)
  {
    match inv
    case Some(i) => Inventory(Some(ReadCount(i.totalStock) + quantity), Some(ReadCount(i.pillsLeft) + quantity))
    case None => Inventory(Some(quantity), Some(quantity))
  }

  /** The state a maintenance action leaves and what it reports. */
  datatype Committed = Committed(next: Snapshot, outcome: Outcome)

  function Restocked(db: Snapshot, quantity: int): (r: Committed)
    ensures r.outcome == Success <==> quantity > 0
    ensures quantity <= 0 ==> r.next == db && r.outcome == Failure(QuantityError)
    ensures quantity > 0 ==> r.next == Cleared(db).(inventory := Some(RestockInventory(db.inventory, quantity)))
  {
    if quantity <= 0 then Committed(db, Failure(QuantityError))
    else Committed(Cleared(db.(inventory := Some(RestockInventory(db.inventory, quantity)))), Success)
  }

  /** A clear keeps the inventory, and the next fetch shows no events and
      decrements nothing. */
  lemma FetchAfterClear(db: Snapshot)
    ensures Cleared(db).inventory == db.inventory
    ensures var c := Cleared(db); c.dispenseEvents == [] && c.reminders == [] && c.processedEvents == map[]
    ensures Reconciled(Cleared(db)).data
         == AppData([], if db.inventory.Some? then db.inventory.value.pillsLeft else Some(0))
  {
    assert Project([], Dispensed) + Project([], Reminder) == [];
  }

  lemma RestockRejectsNonPositive(db: Snapshot, quantity: int)
    requires quantity <= 0
    ensures Restocked(db, quantity) == Committed(db, Failure(QuantityError))
  {
  }

  /** Both counters grow by the quantity, missing ones read as 0, and the
      history is gone. */
  lemma RestockAddsToBoth(db: Snapshot, quantity: int)
    requires quantity > 0
    ensures var c := Restocked(db, quantity);
      && c.outcome == Success
      && c.next.inventory == Some(Inventory(Some(StoredTotal(db.inventory) + quantity), Some(StoredPills(db.inventory) + quantity)))
      && c.next.dispenseEvents == [] && c.next.reminders == [] && c.next.processedEvents == map[]
  {
  }

  /** After a restock the next fetch hands out the restocked count and no
      events, and decrements nothing. */
  lemma FetchAfterRestock(db: Snapshot, quantity: int)
    requires quantity > 0
    ensures Reconciled(Restocked(db, quantity).next).data == AppData([], Some(StoredPills(db.inventory) + quantity))
    ensures Reconciled(Restocked(db, quantity).next).next == Restocked(db, quantity).next
  {
    var next := Restocked(db, quantity).next;
    assert !IsEmpty(next);
    assert MarkAll(map[], []) == map[];
    assert Project([], Dispensed) + Project([], Reminder) == [];
  }

  // ---------------------------------------------------------------------
  // The intended steady state of the counters
  // ---------------------------------------------------------------------

  predicate StockSane(inv: Inventory) {
    0 <= ReadCount(inv.pillsLeft) <= ReadCount(inv.totalStock)
  }

  lemma ReconcileKeepsStockSane(db: Snapshot)
    requires db.inventory.Some? ==> StockSane(db.inventory.value)
    ensures var inv := Reconciled(db).next.inventory; inv.Some? ==> StockSane(inv.value)
  {
  }

  lemma RestockKeepsStockSane(db: Snapshot, quantity: int)
    requires db.inventory.Some? ==> StockSane(db.inventory.value)
    ensures var inv := Restocked(db, quantity).next.inventory; inv.Some? ==> StockSane(inv.value)
  {
  }
}
