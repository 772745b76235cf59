/** The statistics the dashboard derives from the event list it shows:
    counts per kind, the adherence percentage and the last event. */
module Dashboard {
  import opened Types
  import Actions

  /** `events.filter(e => e.type === kind)` */
  function OfKind(events: seq<DisplayEvent>, kind: EventKind): (r: seq<DisplayEvent>)
    ensures |r| <= |events|
  {
    if events == [] then []
    else (if events[0].kind == kind then [events[0]] else []) + OfKind(events[1..], kind)
  }

  /** An event survives the filter exactly when it is in the list and of
      the kind. */
  lemma {:induction false} OfKindMembers(events: seq<DisplayEvent>, kind: EventKind)
    ensures forall ev :: ev in OfKind(events, kind) <==> ev in events && ev.kind == kind
  {
    if events != [] {
      OfKindMembers(events[1..], kind);
      assert events == [events[0]] + events[1..];
    }
  }

  function PillsDispensed(events: seq<DisplayEvent>): (n: nat)
    ensures n <= |events|
    ensures n == 0 <==> forall ev :: ev in events ==> ev.kind != Dispensed
  {
    var r := OfKind(events, Dispensed);
    OfKindMembers(events, Dispensed);
    assert r != [] ==> r[0] in r;
    |r|
  }

  function LatePickedDoses(events: seq<DisplayEvent>): (n: nat)
    ensures n <= |events|
    ensures n == 0 <==> forall ev :: ev in events ==> ev.kind != Reminder
  {
    var r := OfKind(events, Reminder);
    OfKindMembers(events, Reminder);
    assert r != [] ==> r[0] in r;
    |r|
  }

  function InfoEvents(events: seq<DisplayEvent>): (n: nat)
    ensures n <= |events|
    ensures n == 0 <==> forall ev :: ev in events ==> ev.kind != Info
  {
    var r := OfKind(events, Info);
    OfKindMembers(events, Info);
    assert r != [] ==> r[0] in r;
    |r|
  }

  /** `Math.round(part / whole * 100)` in integers: the result is within one
      half of `100 * part / whole`, rounding halves up. */
  function RoundedPercent(part: nat, whole: nat): (r: int)
    requires whole > 0
    ensures 2 * r * whole - whole <= 200 * part < 2 * r * whole + whole
  {
    var q := (200 * part + whole) / (2 * whole);
    assert q * (2 * whole) <= 200 * part + whole < q * (2 * whole) + 2 * whole;
    q
  }

  /** The adherence percentage; 100 when there are no events or no doses. */
  function Adherence(events: seq<DisplayEvent>): (a: int)
    ensures 0 <= a <= 100
  {
    if |events| > 0 then
      var totalDoses := PillsDispensed(events) + LatePickedDoses(events);
      if totalDoses > 0 then
        AdherenceBounds(PillsDispensed(events), totalDoses);
        RoundedPercent(PillsDispensed(events), totalDoses)
      else 100
    else 100
  }

  /** `events[0]`, undefined for an empty list. */
  function LastEvent(events: seq<DisplayEvent>): (r: Option<DisplayEvent>)
    ensures r.Some? <==> events != []
    ensures r.Some? ==> r.value in events
  {
    if events == [] then None else Some(events[0])
  }

  lemma AdherenceBounds(part: nat, whole: nat)
    requires 0 < whole && part <= whole
    ensures 0 <= RoundedPercent(part, whole) <= 100
  {
    var r := RoundedPercent(part, whole);
    if r < 0 {
      MulMonotone(r, -1, whole);
    } else if r > 100 {
      MulMonotone(101, r, whole);
    }
  }

  lemma MulMonotone(a: int, b: int, c: nat)
    requires a <= b
    ensures a * c <= b * c
  {
  }

  /** The rounding facts behind AdherenceFull and AdherenceZero, on plain
      numbers. */
  lemma RoundingThresholds(p: nat, l: nat, a: int)
    requires p + l > 0 && 0 <= a <= 100
    requires 2 * a * (p + l) - (p + l) <= 200 * p < 2 * a * (p + l) + (p + l)
    ensures a == 100 <==> p >= 199 * l
    ensures a == 0 <==> 199 * p < l
  {
    var t := p + l;
    if a <= 99 {
      MulMonotone(a, 99, t);
    }
    if a >= 1 {
      MulMonotone(1, a, t);
    }
  }

  /** Filtering distributes over concatenation. */
  lemma {:induction false} OfKindAppend(a: seq<DisplayEvent>, b: seq<DisplayEvent>, kind: EventKind)
    ensures OfKind(a + b, kind) == OfKind(a, kind) + OfKind(b, kind)
  {
    if a == [] {
      assert a + b == b;
    } else {
      var x, rest := a[0], a[1..];
      var head := if x.kind == kind then [x] else [];
      assert a == [x] + rest;
      assert a + b == [x] + (rest + b);
      calc {
        OfKind(a + b, kind);
        { OfKindCons(x, rest + b, kind); }
        head + OfKind(rest + b, kind);
        { OfKindAppend(rest, b, kind); }
        head + (OfKind(rest, kind) + OfKind(b, kind));
        (head + OfKind(rest, kind)) + OfKind(b, kind);
        { OfKindCons(x, rest, kind); }
        OfKind(a, kind) + OfKind(b, kind);
      }
    }
  }

  /** Filtering a list with one more event in front. */
  lemma OfKindCons(x: DisplayEvent, s: seq<DisplayEvent>, kind: EventKind)
    ensures OfKind([x] + s, kind) == (if x.kind == kind then [x] else []) + OfKind(s, kind)
  {
    assert ([x] + s)[0] == x && ([x] + s)[1..] == s;
  }

  /** Taking one event out of a list. */
  lemma RemoveOne(b: seq<DisplayEvent>, j: nat, kind: EventKind)
    requires j < |b|
    ensures multiset(b[..j] + b[j + 1..]) == multiset(b) - multiset{b[j]}
    ensures |OfKind(b, kind)| == |OfKind(b[..j] + b[j + 1..], kind)| + (if b[j].kind == kind then 1 else 0)
  {
    var front, tail := b[..j], b[j..];
    assert b == front + tail;
    assert tail[0] == b[j] && tail[1..] == b[j + 1..];
    assert multiset(tail) == multiset{b[j]} + multiset(tail[1..]) by {
      assert tail == [tail[0]] + tail[1..];
    }
    OfKindAppend(front, tail, kind);
    OfKindAppend(front, b[j + 1..], kind);
  }

  /** Reordering the list does not change any count. */
  lemma {:induction false} CountsIgnoreOrder(a: seq<DisplayEvent>, b: seq<DisplayEvent>, kind: EventKind)
    requires multiset(a) == multiset(b)
    ensures |OfKind(a, kind)| == |OfKind(b, kind)|
  {
    if a != [] {
      var x := a[0];
      assert x in multiset(b);
      var j :| 0 <= j < |b| && b[j] == x;
      RemoveOne(b, j, kind);
      assert a == [x] + a[1..];
      assert multiset(a[1..]) == multiset(a) - multiset{x};
      CountsIgnoreOrder(a[1..], b[..j] + b[j + 1..], kind);
    } else {
      assert b == [];
    }
  }

  lemma {:induction false} OfKindAll(s: seq<DisplayEvent>, kind: EventKind)
    requires forall e :: e in s ==> e.kind == kind
    ensures OfKind(s, kind) == s
  {
    if s != [] {
      assert s[0] in s;
      assert forall e :: e in s[1..] ==> e in s;
      OfKindAll(s[1..], kind);
    }
  }

  lemma {:induction false} OfKindNone(s: seq<DisplayEvent>, kind: EventKind)
    requires forall e :: e in s ==> e.kind != kind
    ensures OfKind(s, kind) == []
  {
    if s != [] {
      assert s[0] in s;
      assert forall e :: e in s[1..] ==> e in s;
      OfKindNone(s[1..], kind);
    }
  }

  /** The counts of a fetched list: one dispensed event per timestamped
      dispense record, one reminder per timestamped reminder record, no info
      events. */
  lemma FetchedCounts(db: Snapshot)
    ensures var events := Actions.Reconciled(db).data.events;
      && PillsDispensed(events) == |Actions.Project(db.dispenseEvents, Dispensed)|
      && LatePickedDoses(events) == |Actions.Project(db.reminders, Reminder)|
      && InfoEvents(events) == 0
    ensures var events := Actions.Reconciled(db).data.events;
      WellFormed(db) ==>
        && PillsDispensed(events) == |Actions.TimestampedKeys(db.dispenseEvents)|
        && LatePickedDoses(events) == |Actions.TimestampedKeys(db.reminders)|
  {
    var events := Actions.Reconciled(db).data.events;
    var ds, rs := Actions.Project(db.dispenseEvents, Dispensed), Actions.Project(db.reminders, Reminder);
    Actions.ReconcileEvents(db);
    forall kind | kind in {Dispensed, Reminder, Info}
      ensures |OfKind(events, kind)| == |OfKind(ds, kind)| + |OfKind(rs, kind)|
    {
      CountsIgnoreOrder(events, ds + rs, kind);
      OfKindAppend(ds, rs, kind);
    }
    OfKindAll(ds, Dispensed);
    OfKindNone(rs, Dispensed);
    OfKindAll(rs, Reminder);
    OfKindNone(ds, Reminder);
    OfKindNone(ds, Info);
    OfKindNone(rs, Info);
    if WellFormed(db) {
      Actions.ProjectCount(db.dispenseEvents, Dispensed);
      Actions.ProjectCount(db.reminders, Reminder);
    }
  }

  /** With doses on record, adherence is `Math.round(100 * p / (p + l))`. */
  lemma AdherenceRounds(events: seq<DisplayEvent>)
    requires events != [] && PillsDispensed(events) + LatePickedDoses(events) > 0
    ensures var p, t, a := PillsDispensed(events), PillsDispensed(events) + LatePickedDoses(events), Adherence(events);
      2 * a * t - t <= 200 * p < 2 * a * t + t
  {
  }

  /** Adherence is 100 exactly when dispensed doses outnumber reminders at
      least 199 to 1: so always when there are no reminders or no doses, but
      also for 199 dispensed events and one reminder, since 99.5 rounds up. */
  lemma AdherenceFull(events: seq<DisplayEvent>)
    ensures Adherence(events) == 100 <==> PillsDispensed(events) >= 199 * LatePickedDoses(events)
  {
    var p, l := PillsDispensed(events), LatePickedDoses(events);
    if events != [] && p + l > 0 {
      RoundingThresholds(p, l, Adherence(events));
    } else if events == [] {
      assert OfKind(events, Reminder) == [];
    }
  }

  /** Adherence is 0 exactly when reminders outnumber dispensed doses more
      than 199 to 1. */
  lemma AdherenceZero(events: seq<DisplayEvent>)
    ensures Adherence(events) == 0 <==> 199 * PillsDispensed(events) < LatePickedDoses(events)
  {
    var p, l := PillsDispensed(events), LatePickedDoses(events);
    if events != [] && p + l > 0 {
      RoundingThresholds(p, l, Adherence(events));
    } else if events == [] {
      assert OfKind(events, Reminder) == [];
    }
  }

  /** The last event of a newest-first list is the most recent one. */
  lemma LastEventIsNewest(events: seq<DisplayEvent>)
    requires IsNewestFirst(events) && events != []
    ensures LastEvent(events) == Some(events[0])
    ensures forall i :: 0 <= i < |events| ==> events[i].timestamp <= LastEvent(events).value.timestamp
  {
  }

  /** For a fetched list, the last event is the most recent of the
      timestamped records of either collection. */
  lemma FetchedLastEvent(db: Snapshot)
    ensures var events := Actions.Reconciled(db).data.events;
      LastEvent(events).Some? ==> forall e :: e in events ==> e.timestamp <= LastEvent(events).value.timestamp
  {
    Actions.ReconcileEvents(db);
  }
}
