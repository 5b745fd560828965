/** The five collections a mobile number can live in, the invariant the
    lifecycle keeps (every mobile in exactly one place, document ids unique,
    snapshots that agree with their record), fresh document ids, and
    `isMobileNumberDuplicate`. */
module Inventory {
  import opened Wrappers
  import opened Records
  import Seqs

  datatype State = State(
    numbers: seq<NumberRecord>,
    sales: seq<SaleRecord>,
    portOuts: seq<PortOutRecord>,
    dealerPurchases: seq<DealerPurchaseRecord>,
    preBookings: seq<PreBookingRecord>)

  /** What an operation reports besides the new state: its activity-log
      list of mobiles and how many selected records it skipped, or why it
      did nothing. */
  datatype Outcome =
    | Applied(affected: seq<string>, skipped: nat)
    | NotFound
    | MissingSnapshot
    | NoEligible
    | Blocked(count: nat)
    | PermissionDenied
    | Duplicate
    | Ignored

  datatype Step = Step(state: State, outcome: Outcome)

  /** Every mobile held anywhere, collection by collection in the order the
      duplicate check scans them. */
  function AllMobiles(s: State): seq<string> {
    Seqs.Map(s.numbers, NumberMobile) + Seqs.Map(s.sales, SaleMobile)
      + Seqs.Map(s.portOuts, PortOutMobile) + Seqs.Map(s.dealerPurchases, DealerPurchaseMobile)
      + Seqs.Map(s.preBookings, PreBookingMobile)
  }

  predicate IdsUnique(s: State) {
    && Seqs.KeysUnique(s.numbers, NumberId)
    && Seqs.KeysUnique(s.sales, SaleId)
    && Seqs.KeysUnique(s.portOuts, PortOutId)
    && Seqs.KeysUnique(s.dealerPurchases, DealerPurchaseId)
    && Seqs.KeysUnique(s.preBookings, PreBookingId)
  }

  /** A snapshot, when present, is of the same mobile as its record. */
  predicate SnapshotsAgree(s: State) {
    && (forall x | x in s.sales :: x.originalNumberData.Some? ==> x.originalNumberData.value.mobile == x.mobile)
    && (forall x | x in s.portOuts :: x.originalNumberData.Some? ==> x.originalNumberData.value.mobile == x.mobile)
    && (forall x | x in s.preBookings :: x.originalNumberData.Some? ==> x.originalNumberData.value.mobile == x.mobile)
  }

  /** The inventory invariant: a mobile lives in one place only. */
  predicate Valid(s: State) {
    Seqs.NoDuplicates(AllMobiles(s)) && IdsUnique(s) && SnapshotsAgree(s)
  }

  function MaxLength(used: seq<Id>): (m: nat)
    ensures forall i | 0 <= i < |used| :: |used[i]| <= m
  {
    if |used| == 0 then 0
    else
      var m := MaxLength(used[1..]);
      assert forall i | 1 <= i < |used| :: used[i] == used[1..][i - 1];
      if |used[0]| > m then |used[0]| else m
  }

  /** An id no document of the collection has yet: stands in for the ids
      the document store generates. */
  function FreshId(used: seq<Id>): (r: Id)
    ensures r !in used
  {
    var n := MaxLength(used) + 1;
    seq(n, _ => '#')
  }

  /** An id that does not name `currentId`; an absent or empty current id
      excludes nothing. */
  predicate NotExcluded(id: Id, currentId: Option<Id>) {
    currentId.None? || currentId.value == "" || id != currentId.value
  }

  datatype Entry = Entry(id: Id, mobile: string)

  function NumberEntry(x: NumberRecord): Entry { Entry(x.id, x.data.mobile) }
  function SaleEntry(x: SaleRecord): Entry { Entry(x.id, x.mobile) }
  function PortOutEntry(x: PortOutRecord): Entry { Entry(x.id, x.mobile) }
  function DealerPurchaseEntry(x: DealerPurchaseRecord): Entry { Entry(x.id, x.mobile) }
  function PreBookingEntry(x: PreBookingRecord): Entry { Entry(x.id, x.mobile) }

  /** The five collections spread into one list. */
  function Entries(s: State): seq<Entry> {
    Seqs.Map(s.numbers, NumberEntry) + Seqs.Map(s.sales, SaleEntry)
      + Seqs.Map(s.portOuts, PortOutEntry) + Seqs.Map(s.dealerPurchases, DealerPurchaseEntry)
      + Seqs.Map(s.preBookings, PreBookingEntry)
  }

  function EntryMobile(e: Entry): string { e.mobile }

  /** Some entry holds `mobile` under an id other than `currentId`. */
  predicate Holds(es: seq<Entry>, mobile: string, currentId: Option<Id>) {
    exists i | 0 <= i < |es| :: es[i].mobile == mobile && NotExcluded(es[i].id, currentId)
  }

  /** `isMobileNumberDuplicate`: an empty mobile is never a duplicate;
      otherwise some record anywhere holds it, other than `currentId`. */
  function IsMobileNumberDuplicate(s: State, mobile: string, currentId: Option<Id>): (r: bool)
    ensures r ==> mobile != "" && mobile in AllMobiles(s)
  {
    EntriesMobiles(s);
    mobile != "" && Holds(Entries(s), mobile, currentId)
  }

  lemma EntriesMobiles(s: State)
    ensures Seqs.Map(Entries(s), EntryMobile) == AllMobiles(s)
  {
    var es := Entries(s);
    var ms := AllMobiles(s);
    assert |es| == |ms|;
    forall i | 0 <= i < |es| ensures es[i].mobile == ms[i] {
      var a := |s.numbers|;
      var b := a + |s.sales|;
      var c := b + |s.portOuts|;
      var d := c + |s.dealerPurchases|;
      if i < a {
      } else if i < b {
        assert es[i] == SaleEntry(s.sales[i - a]);
      } else if i < c {
        assert es[i] == PortOutEntry(s.portOuts[i - b]);
      } else if i < d {
        assert es[i] == DealerPurchaseEntry(s.dealerPurchases[i - c]);
      } else {
        assert es[i] == PreBookingEntry(s.preBookings[i - d]);
      }
    }
  }

  lemma HoldsAppend(a: seq<Entry>, b: seq<Entry>, mobile: string, currentId: Option<Id>)
    ensures Holds(a + b, mobile, currentId) <==> Holds(a, mobile, currentId) || Holds(b, mobile, currentId)
  {
    var ab := a + b;
    if Holds(ab, mobile, currentId) {
      var i :| 0 <= i < |ab| && ab[i].mobile == mobile && NotExcluded(ab[i].id, currentId);
      if i >= |a| {
        assert ab[i] == b[i - |a|];
      }
    }
    if Holds(b, mobile, currentId) {
      var i :| 0 <= i < |b| && b[i].mobile == mobile && NotExcluded(b[i].id, currentId);
      assert ab[|a| + i] == b[i];
    }
    if Holds(a, mobile, currentId) {
      var i :| 0 <= i < |a| && a[i].mobile == mobile && NotExcluded(a[i].id, currentId);
      assert ab[i] == a[i];
    }
  }

  lemma HoldsMap<T>(xs: seq<T>, entry: T -> Entry, mobile: string, currentId: Option<Id>)
    ensures Holds(Seqs.Map(xs, entry), mobile, currentId) <==>
      exists x | x in xs :: entry(x).mobile == mobile && NotExcluded(entry(x).id, currentId)
  {
    var es := Seqs.Map(xs, entry);
    if x :| x in xs && entry(x).mobile == mobile && NotExcluded(entry(x).id, currentId) {
      var j :| 0 <= j < |xs| && xs[j] == x;
      assert es[j] == entry(x);
    }
  }

  /** The duplicate check, collection by collection. */
  lemma DuplicateIffHeldElsewhere(s: State, mobile: string, currentId: Option<Id>)
    ensures IsMobileNumberDuplicate(s, mobile, currentId) <==>
      mobile != "" &&
      ((exists x | x in s.numbers :: x.data.mobile == mobile && NotExcluded(x.id, currentId))
       || (exists x | x in s.sales :: x.mobile == mobile && NotExcluded(x.id, currentId))
       || (exists x | x in s.portOuts :: x.mobile == mobile && NotExcluded(x.id, currentId))
       || (exists x | x in s.dealerPurchases :: x.mobile == mobile && NotExcluded(x.id, currentId))
       || (exists x | x in s.preBookings :: x.mobile == mobile && NotExcluded(x.id, currentId)))
  {
    var n := Seqs.Map(s.numbers, NumberEntry);
    var sa := Seqs.Map(s.sales, SaleEntry);
    var p := Seqs.Map(s.portOuts, PortOutEntry);
    var d := Seqs.Map(s.dealerPurchases, DealerPurchaseEntry);
    var b := Seqs.Map(s.preBookings, PreBookingEntry);
    HoldsAppend(n, sa, mobile, currentId);
    HoldsAppend(n + sa, p, mobile, currentId);
    HoldsAppend(n + sa + p, d, mobile, currentId);
    HoldsAppend(n + sa + p + d, b, mobile, currentId);
    HoldsMap(s.numbers, NumberEntry, mobile, currentId);
    HoldsMap(s.sales, SaleEntry, mobile, currentId);
    HoldsMap(s.portOuts, PortOutEntry, mobile, currentId);
    HoldsMap(s.dealerPurchases, DealerPurchaseEntry, mobile, currentId);
    HoldsMap(s.preBookings, PreBookingEntry, mobile, currentId);
  }

  /** Without a current id the check is plain membership of a non-empty
      mobile among all mobiles held. */
  lemma DuplicateIffHeld(s: State, mobile: string)
    ensures IsMobileNumberDuplicate(s, mobile, None) <==> mobile != "" && mobile in AllMobiles(s)
  {
    EntriesMobiles(s);
    var es := Entries(s);
    if mobile != "" && mobile in AllMobiles(s) {
      var i :| 0 <= i < |es| && Seqs.Map(es, EntryMobile)[i] == mobile;
      assert es[i].mobile == mobile;
    }
  }

  /** A state holding the same mobiles as a valid one, with unique ids and
      agreeing snapshots, is valid. */
  lemma ValidFromSameMobiles(s: State, t: State)
    requires Valid(s)
    requires multiset(AllMobiles(t)) == multiset(AllMobiles(s))
    requires IdsUnique(t) && SnapshotsAgree(t)
    ensures Valid(t)
  {
    Seqs.NoDuplicatesSubMultiset(AllMobiles(s), AllMobiles(t));
  }

  /** Deleting records keeps the invariant: fewer mobiles cannot collide. */
  lemma ValidFromFewerMobiles(s: State, t: State)
    requires Valid(s)
    requires multiset(AllMobiles(t)) <= multiset(AllMobiles(s))
    requires IdsUnique(t) && SnapshotsAgree(t)
    ensures Valid(t)
  {
    Seqs.NoDuplicatesSubMultiset(AllMobiles(s), AllMobiles(t));
  }

  /** In a valid state no two stock numbers share a mobile. */
  lemma StockMobilesUnique(s: State)
    requires Seqs.NoDuplicates(AllMobiles(s))
    ensures Seqs.KeysUnique(s.numbers, NumberMobile)
  {
    var a := AllMobiles(s);
    var m := Seqs.Map(s.numbers, NumberMobile);
    assert forall i | 0 <= i < |m| :: a[i] == m[i];
  }
}
