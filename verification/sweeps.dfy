/** The periodic background passes: numbers whose RTS date has arrived
    become RTS, COCP numbers whose safe-custody date has arrived are flagged
    once, and an administrator's session deletes completed reminders older
    than seven days.  The clock is a parameter. */
module Sweeps {
  import opened Wrappers
  import opened Records
  import opened Inventory
  import Seqs

  /** The current instant and the bounds of the current local day. */
  datatype Clock = Clock(now: Time, dayStart: Time, nextDayStart: Time)

  predicate ClockValid(c: Clock) {
    c.dayStart <= c.now < c.nextDayStart
  }

  /** `isToday(t) || isPast(t)`. */
  predicate Arrived(t: Time, c: Clock) {
    t < c.now || (c.dayStart <= t < c.nextDayStart)
  }

  /** "Today or earlier" is the same as "before tomorrow". */
  lemma ArrivedIffBeforeTomorrow(t: Time, c: Clock)
    requires ClockValid(c)
    ensures Arrived(t, c) <==> t < c.nextDayStart
  {
  }

  /** A sweep's new number list and the ids it changed, in list order. */
  datatype Swept = Swept(state: State, updated: seq<Id>)

  // ----- RTS dates -----

  predicate RtsDue(n: NumberRecord, c: Clock) {
    n.data.status == NonRTS && n.data.rtsDate.Some? && Arrived(n.data.rtsDate.value, c)
  }

  function RtsDueAt(c: Clock): NumberRecord -> bool {
    n => RtsDue(n, c)
  }

  function Promote(c: Clock): NumberRecord -> NumberRecord {
    n => if RtsDue(n, c) then n.(data := n.data.(status := RTS, rtsDate := None)) else n
  }

  /** The RTS check: every Non-RTS number with an arrived RTS date becomes
      RTS with its date cleared; the rest are untouched. */
  function RtsSweep(s: State, c: Clock): (r: Swept)
    ensures r.state == s.(numbers := r.state.numbers)
    ensures |r.state.numbers| == |s.numbers|
    ensures forall i | 0 <= i < |s.numbers| ::
      var n, m := s.numbers[i], r.state.numbers[i];
      && m.id == n.id && m.data.mobile == n.data.mobile
      && (RtsDue(n, c) ==> m.data == n.data.(status := RTS, rtsDate := None))
      && (!RtsDue(n, c) ==> m == n)
    ensures forall x | x in r.updated :: exists i | 0 <= i < |s.numbers| :: s.numbers[i].id == x && RtsDue(s.numbers[i], c)
    ensures forall i | 0 <= i < |s.numbers| && RtsDue(s.numbers[i], c) :: s.numbers[i].id in r.updated
  {
    var ids := Seqs.Map(Seqs.Filter(s.numbers, RtsDueAt(c)), NumberId);
    Seqs.FilterKeys(s.numbers, RtsDueAt(c), NumberId);
    Swept(s.(numbers := Seqs.Map(s.numbers, Promote(c))), ids)
  }

  /** After a sweep nothing is due, so a second sweep in the same instant
      changes nothing. */
  lemma RtsSweepIdempotent(s: State, c: Clock)
    ensures var r := RtsSweep(s, c);
      && (forall i | 0 <= i < |r.state.numbers| :: !RtsDue(r.state.numbers[i], c))
      && RtsSweep(r.state, c) == Swept(r.state, [])
  {
    var r := RtsSweep(s, c);
    var again := RtsSweep(r.state, c);
    assert again.state.numbers == r.state.numbers;
    Seqs.FilterNone(r.state.numbers, RtsDueAt(c));
  }

  /** A sweep keeps the same ids and mobiles, hence the invariant. */
  lemma SameKeysKeepsValid(s: State, ns: seq<NumberRecord>)
    requires Valid(s)
    requires |ns| == |s.numbers|
    requires forall i | 0 <= i < |ns| :: ns[i].id == s.numbers[i].id && ns[i].data.mobile == s.numbers[i].data.mobile
    ensures Valid(s.(numbers := ns))
    ensures AllMobiles(s.(numbers := ns)) == AllMobiles(s)
  {
    var t := s.(numbers := ns);
    assert Seqs.Map(ns, NumberMobile) == Seqs.Map(s.numbers, NumberMobile);
    assert Seqs.Map(ns, NumberId) == Seqs.Map(s.numbers, NumberId);
    assert AllMobiles(t) == AllMobiles(s);
    ValidFromSameMobiles(s, t);
  }

  lemma RtsSweepKeepsValid(s: State, c: Clock)
    requires Valid(s)
    ensures Valid(RtsSweep(s, c).state)
  {
    SameKeysKeepsValid(s, RtsSweep(s, c).state.numbers);
  }

  // ----- Safe-custody dates -----

  predicate CustodyDue(n: NumberRecord, c: Clock) {
    && n.data.numberType == COCP
    && n.data.safeCustodyDate.Some?
    && !n.data.safeCustodyNotificationSent
    && Arrived(n.data.safeCustodyDate.value, c)
  }

  function CustodyDueAt(c: Clock): NumberRecord -> bool {
    n => CustodyDue(n, c)
  }

  function Flag(c: Clock): NumberRecord -> NumberRecord {
    n => if CustodyDue(n, c) then n.(data := n.data.(safeCustodyNotificationSent := true)) else n
  }

  /** The safe-custody check: a COCP number whose date has arrived and that
      has not been notified yet gets its notification flag set. */
  function SafeCustodySweep(s: State, c: Clock): (r: Swept)
    ensures r.state == s.(numbers := r.state.numbers)
    ensures |r.state.numbers| == |s.numbers|
    ensures forall i | 0 <= i < |s.numbers| ::
      var n, m := s.numbers[i], r.state.numbers[i];
      && m.id == n.id && m.data.mobile == n.data.mobile
      && (CustodyDue(n, c) ==> m.data == n.data.(safeCustodyNotificationSent := true))
      && (!CustodyDue(n, c) ==> m == n)
    ensures forall x | x in r.updated :: exists i | 0 <= i < |s.numbers| :: s.numbers[i].id == x && CustodyDue(s.numbers[i], c)
    ensures forall i | 0 <= i < |s.numbers| && CustodyDue(s.numbers[i], c) :: s.numbers[i].id in r.updated
  {
    var ids := Seqs.Map(Seqs.Filter(s.numbers, CustodyDueAt(c)), NumberId);
    Seqs.FilterKeys(s.numbers, CustodyDueAt(c), NumberId);
    Swept(s.(numbers := Seqs.Map(s.numbers, Flag(c))), ids)
  }

  /** Each number is notified at most once: a flagged number is never due
      again, whatever the clock says later. */
  lemma SafeCustodyNotifiesOnce(s: State, c: Clock, later: Clock)
    ensures var r := SafeCustodySweep(s, c);
      forall i | 0 <= i < |s.numbers| && CustodyDue(s.numbers[i], c) :: !CustodyDue(r.state.numbers[i], later)
  {
  }

  lemma SafeCustodySweepIdempotent(s: State, c: Clock)
    ensures var r := SafeCustodySweep(s, c);
      SafeCustodySweep(r.state, c) == Swept(r.state, [])
  {
    var r := SafeCustodySweep(s, c);
    var again := SafeCustodySweep(r.state, c);
    assert again.state.numbers == r.state.numbers;
    Seqs.FilterNone(r.state.numbers, CustodyDueAt(c));
  }

  lemma SafeCustodySweepKeepsValid(s: State, c: Clock)
    requires Valid(s)
    ensures Valid(SafeCustodySweep(s, c).state)
  {
    SameKeysKeepsValid(s, SafeCustodySweep(s, c).state.numbers);
  }

  // ----- Reminder clean-up -----

  datatype Reminder = Reminder(
    id: Id,
    srNo: int,
    taskName: string,
    assignedTo: string,
    status: Progress,
    dueDate: Time,
    createdBy: string,
    completionDate: Option<Time>,
    notes: Option<string>)

  const RetentionDays := 7

  /** Done, with a completion date strictly before seven days ago. */
  predicate Stale(r: Reminder, now: Time) {
    r.status == Done && r.completionDate.Some? && r.completionDate.value < now - RetentionDays * MsPerDay
  }

  function StaleAt(now: Time): Reminder -> bool { r => Stale(r, now) }
  function KeptAt(now: Time): Reminder -> bool { r => !Stale(r, now) }

  datatype Pruned = Pruned(kept: seq<Reminder>, deleted: nat)

  /** The reminder clean-up, run only in an administrator's session. */
  function PruneReminders(rs: seq<Reminder>, now: Time, role: Role): (r: Pruned)
    ensures role != Admin ==> r == Pruned(rs, 0)
    ensures |r.kept| + r.deleted == |rs|
    ensures forall x | x in r.kept :: x in rs
    ensures role == Admin ==> forall x | x in rs :: x in r.kept <==> !Stale(x, now)
    ensures role == Admin ==> r.deleted == |Seqs.Filter(rs, StaleAt(now))|
  {
    if role != Admin then Pruned(rs, 0)
    else
      Seqs.FilterPartition(rs, KeptAt(now), StaleAt(now));
      Pruned(Seqs.Filter(rs, KeptAt(now)), |Seqs.Filter(rs, StaleAt(now))|)
  }

  /** Pruning twice at the same instant deletes nothing the second time. */
  lemma PruneRemindersIdempotent(rs: seq<Reminder>, now: Time, role: Role)
    ensures var r := PruneReminders(rs, now, role);
      PruneReminders(r.kept, now, role) == Pruned(r.kept, 0)
  {
    var r := PruneReminders(rs, now, role);
    if role == Admin {
      Seqs.FilterNone(r.kept, StaleAt(now));
      Seqs.FilterSame(r.kept, KeptAt(now));
    }
  }

  /** A pending reminder, or one without a completion date, is never
      deleted. */
  lemma PruneKeepsUnfinished(rs: seq<Reminder>, now: Time, role: Role, x: Reminder)
    requires x in rs
    requires x.status == Pending || x.completionDate.None?
    ensures x in PruneReminders(rs, now, role).kept
  {
  }
}
