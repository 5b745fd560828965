/** The pre-booking list: `markAsPreBooked`, `cancelPreBooking`,
    `sellPreBookedNumber` and `bulkSellPreBookedNumbers`.  A pre-booking
    keeps the whole number (minus its id) as a snapshot, which cancelling
    puts back unchanged and selling carries over to the sale. */
module PreBooking {
  import opened Wrappers
  import opened Records
  import opened Inventory
  import Seqs
  import Serial

  function PreBookingSrNos(s: State): seq<Option<int>> { Seqs.Map(s.preBookings, PreBookingSrNo) }
  function SaleSrNos(s: State): seq<Option<int>> { Seqs.Map(s.sales, SaleSrNo) }

  function PreBooked(id: Id, srNo: int, n: NumberRecord, actor: Actor, now: Time): PreBookingRecord {
    PreBookingRecord(id, Some(srNo), n.data.mobile, n.data.sum, n.data.uploadStatus, now, actor.uid, Some(n.data))
  }

  predicate PreBookedAs(pb: PreBookingRecord, n: NumberRecord, srNo: int, actor: Actor, now: Time) {
    pb == PreBooked(pb.id, srNo, n, actor, now)
  }

  function PreBookOne(s: State, n: NumberRecord, srNo: int, actor: Actor, now: Time): State {
    var pb := PreBooked(FreshId(Seqs.Map(s.preBookings, PreBookingId)), srNo, n, actor, now);
    s.(numbers := Seqs.Without(s.numbers, NumberId, {n.id}), preBookings := s.preBookings + [pb])
  }

  function PreBookAll(s: State, recs: seq<NumberRecord>, srNo: int, actor: Actor, now: Time): State
    decreases |recs|
  {
    if |recs| == 0 then s
    else PreBookAll(PreBookOne(s, recs[0], srNo, actor, now), recs[1..], srNo + 1, actor, now)
  }

  /** The stock records whose id was selected. */
  function Picked(ids: seq<Id>): NumberRecord -> bool {
    (n: NumberRecord) => n.id in ids
  }

  /** `markAsPreBooked`: the selected ids that are in stock, in stock
      order, move to the pre-booking list; unknown ids are ignored. */
  function MarkAsPreBooked(s: State, ids: seq<Id>, actor: Actor, now: Time): (r: Step)
    ensures r.outcome.Applied? && r.outcome.skipped == 0
    ensures forall m | m in r.outcome.affected :: exists n | n in s.numbers :: n.id in ids && n.data.mobile == m
    ensures forall n | n in s.numbers && n.id in ids :: n.data.mobile in r.outcome.affected
  {
    var selected := Seqs.Filter(s.numbers, Picked(ids));
    var affected := Seqs.Map(selected, NumberMobile);
    assert forall m | m in affected :: exists n | n in s.numbers :: n.id in ids && n.data.mobile == m by {
      forall m | m in affected ensures exists n | n in s.numbers :: n.id in ids && n.data.mobile == m {
        var j :| 0 <= j < |affected| && affected[j] == m;
        assert selected[j] in selected;
        assert Picked(ids)(selected[j]);
      }
    }
    assert forall n | n in selected :: n.data.mobile in affected by {
      forall n | n in selected ensures n.data.mobile in affected {
        var j :| 0 <= j < |selected| && selected[j] == n;
        assert affected[j] == n.data.mobile;
      }
    }
    Step(PreBookAll(s, selected, Serial.NextSrNo(PreBookingSrNos(s)), actor, now), Applied(affected, 0))
  }

  /** The pre-booking with this id, when it has a snapshot to work from. */
  function FindPreBooking(pbs: seq<PreBookingRecord>, id: Id): (r: Option<PreBookingRecord>)
    ensures r.Some? ==> r.value in pbs && r.value.id == id && r.value.originalNumberData.Some?
    ensures (forall i | 0 <= i < |pbs| :: pbs[i].id != id) ==> r.None?
  {
    match Seqs.FindIndex(pbs, PreBookingId, id)
    case None => None
    case Some(i) => if pbs[i].originalNumberData.Some? then Some(pbs[i]) else None
  }

  /** `cancelPreBooking`: the snapshot returns to stock exactly as it was. */
  function CancelPreBooking(s: State, preBookingId: Id): (r: Step)
    ensures r.state.sales == s.sales && r.state.portOuts == s.portOuts
    ensures r.state.dealerPurchases == s.dealerPurchases
    ensures FindPreBooking(s.preBookings, preBookingId).None? <==> r == Step(s, NotFound)
    ensures FindPreBooking(s.preBookings, preBookingId).Some? <==> r.outcome.Applied?
    ensures r.outcome.Applied? || r.outcome == NotFound
    ensures r.outcome.Applied? ==>
      var pb := FindPreBooking(s.preBookings, preBookingId).value;
      && r.state.preBookings == Seqs.Without(s.preBookings, PreBookingId, {preBookingId})
      && |r.state.numbers| == |s.numbers| + 1
      && r.state.numbers[..|s.numbers|] == s.numbers
      && r.state.numbers[|s.numbers|].data == pb.originalNumberData.value
      && r.outcome.affected == [pb.mobile]
  {
    match FindPreBooking(s.preBookings, preBookingId)
    case None => Step(s, NotFound)
    case Some(pb) =>
      var restored := NumberRecord(FreshId(Seqs.Map(s.numbers, NumberId)), pb.originalNumberData.value);
      assert (s.numbers + [restored])[..|s.numbers|] == s.numbers;
      Step(s.(numbers := s.numbers + [restored], preBookings := Seqs.Without(s.preBookings, PreBookingId, {preBookingId})),
           Applied([pb.mobile], 0))
  }

  /** The sale a pre-booking becomes: mobile, digit sum, upload status and
      snapshot come from the pre-booking. */
  function SaleOfPreBooking(id: Id, srNo: int, pb: PreBookingRecord, details: SaleDetails, actor: Actor): SaleRecord {
    SaleRecord(
      id, Some(srNo), pb.mobile, pb.sum, details.soldTo, details.salePrice, Pending, details.saleDate,
      UpcPending, Pending, pb.uploadStatus, actor.uid, pb.originalNumberData)
  }

  predicate SoldFrom(sale: SaleRecord, pb: PreBookingRecord, srNo: int, details: SaleDetails, actor: Actor) {
    sale == SaleOfPreBooking(sale.id, srNo, pb, details, actor)
  }

  function SellPreBookedOne(s: State, pb: PreBookingRecord, srNo: int, details: SaleDetails, actor: Actor): State {
    var sale := SaleOfPreBooking(FreshId(Seqs.Map(s.sales, SaleId)), srNo, pb, details, actor);
    s.(preBookings := Seqs.Without(s.preBookings, PreBookingId, {pb.id}), sales := s.sales + [sale])
  }

  /** `sellPreBookedNumber`. */
  function SellPreBookedNumber(s: State, preBookingId: Id, details: SaleDetails, actor: Actor): (r: Step)
    ensures r.state.numbers == s.numbers && r.state.portOuts == s.portOuts
    ensures r.state.dealerPurchases == s.dealerPurchases
    ensures FindPreBooking(s.preBookings, preBookingId).None? <==> r == Step(s, NotFound)
    ensures FindPreBooking(s.preBookings, preBookingId).Some? <==> r.outcome.Applied?
    ensures r.outcome.Applied? || r.outcome == NotFound
    ensures r.outcome.Applied? ==>
      var pb := FindPreBooking(s.preBookings, preBookingId).value;
      && r.state.preBookings == Seqs.Without(s.preBookings, PreBookingId, {preBookingId})
      && |r.state.sales| == |s.sales| + 1
      && r.state.sales[..|s.sales|] == s.sales
      && SoldFrom(r.state.sales[|s.sales|], pb, Serial.NextSrNo(SaleSrNos(s)), details, actor)
      && r.outcome.affected == [pb.mobile]
  {
    match FindPreBooking(s.preBookings, preBookingId)
    case None => Step(s, NotFound)
    case Some(pb) =>
      var t := SellPreBookedOne(s, pb, Serial.NextSrNo(SaleSrNos(s)), details, actor);
      assert t.sales[..|s.sales|] == s.sales;
      Step(t, Applied([pb.mobile], 0))
  }

  /** The batch behind `bulkSellPreBookedNumbers`: every lookup is against
      the pre-bookings as they were when the batch started (`src`); a
      record with no pre-booking (or no snapshot) is skipped and takes no
      serial number. */
  /** The ids of the selected records that have a pre-booking to sell. */
  function SellableIds(src: seq<PreBookingRecord>, recs: seq<NumberRecord>): (r: set<Id>)
    ensures forall id | id in r :: FindPreBooking(src, id).Some? && exists i | 0 <= i < |recs| :: recs[i].id == id
    ensures forall i | 0 <= i < |recs| && FindPreBooking(src, recs[i].id).Some? :: recs[i].id in r
    decreases |recs|
  {
    if |recs| == 0 then {}
    else
      var rest := SellableIds(src, recs[1..]);
      assert forall i | 1 <= i < |recs| :: recs[i] == recs[1..][i - 1];
      (if FindPreBooking(src, recs[0].id).Some? then {recs[0].id} else {}) + rest
  }

  /** The batch deletes exactly the sold pre-bookings. */
  lemma {:induction false} SellPreBookedAllPreBookings(src: seq<PreBookingRecord>, acc: State, recs: seq<NumberRecord>, srNo: int,
                                                       details: SaleDetails, actor: Actor)
    ensures SellPreBookedAll(src, acc, recs, srNo, details, actor).preBookings
         == Seqs.Without(acc.preBookings, PreBookingId, SellableIds(src, recs))
    decreases |recs|
  {
    if |recs| == 0 {
      Seqs.WithoutNothing(acc.preBookings, PreBookingId, {});
    } else {
      var rest := SellableIds(src, recs[1..]);
      match FindPreBooking(src, recs[0].id)
      case None =>
        SellPreBookedAllPreBookings(src, acc, recs[1..], srNo, details, actor);
        assert SellableIds(src, recs) == rest;
      case Some(pb) =>
        var a1 := SellPreBookedOne(acc, pb, srNo, details, actor);
        SellPreBookedAllPreBookings(src, a1, recs[1..], srNo + 1, details, actor);
        Seqs.WithoutWithout(acc.preBookings, PreBookingId, {pb.id}, rest);
        assert SellableIds(src, recs) == {pb.id} + rest;
    }
  }

  function SellPreBookedAll(src: seq<PreBookingRecord>, acc: State, recs: seq<NumberRecord>, srNo: int,
                            details: SaleDetails, actor: Actor): State
    decreases |recs|
  {
    if |recs| == 0 then acc
    else match FindPreBooking(src, recs[0].id)
      case None => SellPreBookedAll(src, acc, recs[1..], srNo, details, actor)
      case Some(pb) => SellPreBookedAll(src, SellPreBookedOne(acc, pb, srNo, details, actor), recs[1..], srNo + 1, details, actor)
  }

  /** How many of `recs` name a pre-booking of `src` that can be sold. */
  function CountSellable(src: seq<PreBookingRecord>, recs: seq<NumberRecord>): (c: nat)
    ensures c <= |recs|
    decreases |recs|
  {
    if |recs| == 0 then 0
    else (if FindPreBooking(src, recs[0].id).Some? then 1 else 0) + CountSellable(src, recs[1..])
  }

  /** `bulkSellPreBookedNumbers`: the activity lists every selected mobile,
      sold or skipped. */
  function BulkSellPreBookedNumbers(s: State, recs: seq<NumberRecord>, details: SaleDetails, actor: Actor): (r: Step)
    ensures |recs| == 0 ==> r == Step(s, Ignored)
    ensures |recs| > 0 ==> r.outcome == Applied(Seqs.Map(recs, NumberMobile), 0)
    ensures r.state.numbers == s.numbers
  {
    if |recs| == 0 then Step(s, Ignored)
    else
      SellPreBookedAllShape(s.preBookings, s, recs, Serial.NextSrNo(SaleSrNos(s)), details, actor);
      Step(SellPreBookedAll(s.preBookings, s, recs, Serial.NextSrNo(SaleSrNos(s)), details, actor),
           Applied(Seqs.Map(recs, NumberMobile), 0))
  }

  // ----- Shape of the batches -----

  lemma {:induction false} PreBookAllNumbers(s: State, recs: seq<NumberRecord>, srNo: int, actor: Actor, now: Time)
    ensures PreBookAll(s, recs, srNo, actor, now).numbers == Seqs.Without(s.numbers, NumberId, Seqs.KeySet(recs, NumberId))
    decreases |recs|
  {
    if |recs| == 0 {
      assert Seqs.KeySet(recs, NumberId) == {};
      Seqs.WithoutNothing(s.numbers, NumberId, {});
    } else {
      var s1 := PreBookOne(s, recs[0], srNo, actor, now);
      PreBookAllNumbers(s1, recs[1..], srNo + 1, actor, now);
      Seqs.KeySetCons(recs, NumberId);
      Seqs.WithoutWithout(s.numbers, NumberId, {recs[0].id}, Seqs.KeySet(recs[1..], NumberId));
    }
  }

  /** `pbs` are the pre-bookings of `recs`, in order, numbered from `srNo`. */
  predicate PreBookedInOrder(pbs: seq<PreBookingRecord>, recs: seq<NumberRecord>, srNo: int, actor: Actor, now: Time)
    decreases |recs|
  {
    && |pbs| == |recs|
    && (|recs| > 0 ==>
          && PreBookedAs(pbs[0], recs[0], srNo, actor, now)
          && PreBookedInOrder(pbs[1..], recs[1..], srNo + 1, actor, now))
  }

  lemma {:induction false} PreBookedInOrderIndex(pbs: seq<PreBookingRecord>, recs: seq<NumberRecord>, srNo: int,
                                                 actor: Actor, now: Time)
    requires PreBookedInOrder(pbs, recs, srNo, actor, now)
    ensures forall i | 0 <= i < |recs| :: PreBookedAs(pbs[i], recs[i], srNo + i, actor, now)
    decreases |recs|
  {
    if |recs| > 0 {
      PreBookedInOrderIndex(pbs[1..], recs[1..], srNo + 1, actor, now);
      forall i | 0 < i < |recs| ensures PreBookedAs(pbs[i], recs[i], srNo + i, actor, now) {
        assert pbs[i] == pbs[1..][i - 1] && recs[i] == recs[1..][i - 1];
      }
    }
  }

  /** Pre-booking a batch appends one pre-booking per record, in order,
      with consecutive serial numbers, and touches no other list but stock. */
  lemma {:induction false} PreBookAllPreBookings(s: State, recs: seq<NumberRecord>, srNo: int, actor: Actor, now: Time)
    ensures var t := PreBookAll(s, recs, srNo, actor, now);
      && |t.preBookings| == |s.preBookings| + |recs|
      && t.preBookings[..|s.preBookings|] == s.preBookings
      && PreBookedInOrder(t.preBookings[|s.preBookings|..], recs, srNo, actor, now)
      && t.sales == s.sales && t.portOuts == s.portOuts && t.dealerPurchases == s.dealerPurchases
    decreases |recs|
  {
    if |recs| > 0 {
      var s1 := PreBookOne(s, recs[0], srNo, actor, now);
      var t := PreBookAll(s1, recs[1..], srNo + 1, actor, now);
      assert t == PreBookAll(s, recs, srNo, actor, now);
      PreBookAllPreBookings(s1, recs[1..], srNo + 1, actor, now);
      var pb := s1.preBookings[|s.preBookings|];
      assert PreBookedAs(pb, recs[0], srNo, actor, now);
      assert t.preBookings[..|s1.preBookings|] == s1.preBookings;
      assert t.preBookings[..|s.preBookings|] == s.preBookings by {
        assert s1.preBookings[..|s.preBookings|] == s.preBookings;
      }
      var tail := t.preBookings[|s.preBookings|..];
      assert tail[0] == pb;
      assert tail[1..] == t.preBookings[|s1.preBookings|..];
    } else {
      assert s.preBookings[|s.preBookings|..] == [];
    }
  }

  /** `markAsPreBooked` deletes from stock every number whose id was
      selected and appends their pre-bookings, in stock order, numbered from
      the next serial; sales, port-outs and dealer purchases are untouched. */
  lemma MarkAsPreBookedShape(s: State, ids: seq<Id>, actor: Actor, now: Time)
    ensures var r := MarkAsPreBooked(s, ids, actor, now);
      var picked := Seqs.Filter(s.numbers, Picked(ids));
      && r.outcome.affected == Seqs.Map(picked, NumberMobile)
      && r.state.numbers == Seqs.Without(s.numbers, NumberId, set id | id in ids)
      && |r.state.preBookings| == |s.preBookings| + |picked|
      && r.state.preBookings[..|s.preBookings|] == s.preBookings
      && PreBookedInOrder(r.state.preBookings[|s.preBookings|..], picked, Serial.NextSrNo(PreBookingSrNos(s)), actor, now)
      && r.state.sales == s.sales && r.state.portOuts == s.portOuts && r.state.dealerPurchases == s.dealerPurchases
  {
    var picked := Seqs.Filter(s.numbers, Picked(ids));
    var start := Serial.NextSrNo(PreBookingSrNos(s));
    PreBookAllNumbers(s, picked, start, actor, now);
    PreBookAllPreBookings(s, picked, start, actor, now);
    Seqs.WithoutSelected(s.numbers, NumberId, Picked(ids), set id | id in ids);
  }

  /** `sales` are, in order, the sales of the pre-bookings (looked up in
      `src`) of those `recs` that have one, numbered from `srNo`. */
  predicate SoldPreBookedInOrder(sales: seq<SaleRecord>, src: seq<PreBookingRecord>, recs: seq<NumberRecord>, srNo: int,
                                 details: SaleDetails, actor: Actor)
    decreases |recs|
  {
    if |recs| == 0 then |sales| == 0
    else match FindPreBooking(src, recs[0].id)
      case None => SoldPreBookedInOrder(sales, src, recs[1..], srNo, details, actor)
      case Some(pb) =>
        && |sales| > 0
        && SoldFrom(sales[0], pb, srNo, details, actor)
        && SoldPreBookedInOrder(sales[1..], src, recs[1..], srNo + 1, details, actor)
  }

  /** The first pre-booking with the id is found exactly when it has a
      snapshot. */
  lemma FindPreBookingFirst(pbs: seq<PreBookingRecord>, id: Id, i: nat)
    requires Seqs.FirstWith(pbs, PreBookingId, id, i)
    ensures FindPreBooking(pbs, id) == if pbs[i].originalNumberData.Some? then Some(pbs[i]) else None
  {
    Seqs.FindIndexFirst(pbs, PreBookingId, id);
  }

  /** One sale per sellable record, numbered consecutively. */
  lemma {:induction false} SoldPreBookedSerials(sales: seq<SaleRecord>, src: seq<PreBookingRecord>, recs: seq<NumberRecord>,
                                                srNo: int, details: SaleDetails, actor: Actor)
    requires SoldPreBookedInOrder(sales, src, recs, srNo, details, actor)
    ensures |sales| == CountSellable(src, recs)
    ensures forall i | 0 <= i < |sales| :: sales[i].srNo == Some(srNo + i)
    decreases |recs|
  {
    if |recs| > 0 {
      if FindPreBooking(src, recs[0].id).Some? {
        SoldFirst(sales, src, recs, srNo, details, actor);
        SoldPreBookedSerials(sales[1..], src, recs[1..], srNo + 1, details, actor);
        SerialsShift(sales, srNo);
      } else {
        SkippedFirst(sales, src, recs, srNo, details, actor);
        SoldPreBookedSerials(sales, src, recs[1..], srNo, details, actor);
      }
    }
  }

  /** A selected record with a pre-booking takes the first sale and the
      serial `srNo`. */
  lemma SoldFirst(sales: seq<SaleRecord>, src: seq<PreBookingRecord>, recs: seq<NumberRecord>,
                  srNo: int, details: SaleDetails, actor: Actor)
    requires |recs| > 0 && FindPreBooking(src, recs[0].id).Some?
    requires SoldPreBookedInOrder(sales, src, recs, srNo, details, actor)
    ensures |sales| > 0 && sales[0].srNo == Some(srNo)
    ensures SoldPreBookedInOrder(sales[1..], src, recs[1..], srNo + 1, details, actor)
    ensures CountSellable(src, recs) == 1 + CountSellable(src, recs[1..])
  {
  }

  /** A selected record without a pre-booking takes no sale. */
  lemma SkippedFirst(sales: seq<SaleRecord>, src: seq<PreBookingRecord>, recs: seq<NumberRecord>,
                     srNo: int, details: SaleDetails, actor: Actor)
    requires |recs| > 0 && FindPreBooking(src, recs[0].id).None?
    requires SoldPreBookedInOrder(sales, src, recs, srNo, details, actor)
    ensures SoldPreBookedInOrder(sales, src, recs[1..], srNo, details, actor)
    ensures CountSellable(src, recs) == CountSellable(src, recs[1..])
  {
  }

  /** Serials running from `srNo + 1` after a first sale numbered `srNo` run
      from `srNo`. */
  lemma SerialsShift(sales: seq<SaleRecord>, srNo: int)
    requires |sales| > 0 && sales[0].srNo == Some(srNo)
    requires forall i | 0 <= i < |sales| - 1 :: sales[1..][i].srNo == Some(srNo + 1 + i)
    ensures forall i | 0 <= i < |sales| :: sales[i].srNo == Some(srNo + i)
  {
    forall i | 0 < i < |sales| ensures sales[i].srNo == Some(srNo + i) {
      assert sales[i] == sales[1..][i - 1];
    }
  }

  /** The sales after the first `n` carry serial numbers `srNo`, `srNo + 1`, ... */
  predicate NumberedFrom(sales: seq<SaleRecord>, n: nat, srNo: int) {
    forall i | n <= i < |sales| :: sales[i].srNo == Some(srNo + (i - n))
  }

  /** `SoldPreBookedSerials` for sales appended after the first `n`. */
  lemma SoldPreBookedSerialsFrom(sales: seq<SaleRecord>, n: nat, src: seq<PreBookingRecord>, recs: seq<NumberRecord>,
                                 srNo: int, details: SaleDetails, actor: Actor)
    requires n <= |sales|
    requires SoldPreBookedInOrder(sales[n..], src, recs, srNo, details, actor)
    ensures |sales| == n + CountSellable(src, recs)
    ensures NumberedFrom(sales, n, srNo)
  {
    var tail := sales[n..];
    SoldPreBookedSerials(tail, src, recs, srNo, details, actor);
    forall i | n <= i < |sales| ensures sales[i].srNo == Some(srNo + (i - n)) {
      assert sales[i] == tail[i - n];
    }
  }

  /** The bulk sale appends the sales of the sellable records, in order,
      and never touches stock, port-outs or dealer purchases. */
  lemma {:induction false} SellPreBookedAllShape(src: seq<PreBookingRecord>, acc: State, recs: seq<NumberRecord>, srNo: int,
                                                 details: SaleDetails, actor: Actor)
    ensures var t := SellPreBookedAll(src, acc, recs, srNo, details, actor);
      && |t.sales| >= |acc.sales|
      && t.sales[..|acc.sales|] == acc.sales
      && SoldPreBookedInOrder(t.sales[|acc.sales|..], src, recs, srNo, details, actor)
      && t.numbers == acc.numbers && t.portOuts == acc.portOuts && t.dealerPurchases == acc.dealerPurchases
    decreases |recs|
  {
    if |recs| == 0 {
      assert acc.sales[|acc.sales|..] == [];
    } else {
      match FindPreBooking(src, recs[0].id)
      case None =>
        SellPreBookedAllShape(src, acc, recs[1..], srNo, details, actor);
      case Some(pb) =>
        var a1 := SellPreBookedOne(acc, pb, srNo, details, actor);
        var t := SellPreBookedAll(src, a1, recs[1..], srNo + 1, details, actor);
        assert t == SellPreBookedAll(src, acc, recs, srNo, details, actor);
        SellPreBookedAllShape(src, a1, recs[1..], srNo + 1, details, actor);
        assert SoldFrom(a1.sales[|acc.sales|], pb, srNo, details, actor);
        assert t.sales[..|a1.sales|] == a1.sales;
        assert t.sales[..|acc.sales|] == acc.sales by {
          assert a1.sales[..|acc.sales|] == acc.sales;
        }
        var tail := t.sales[|acc.sales|..];
        assert tail[0] == a1.sales[|acc.sales|];
        assert tail[1..] == t.sales[|a1.sales|..];
    }
  }

  /** `bulkSellPreBookedNumbers` sells only the selected records that have a
      pre-booking: one sale each, in order, carrying that pre-booking's
      data and numbered consecutively from the next serial; skipped records
      use up no serial number. */
  lemma BulkSellPreBookedSerials(s: State, recs: seq<NumberRecord>, details: SaleDetails, actor: Actor)
    ensures var t := BulkSellPreBookedNumbers(s, recs, details, actor).state;
      && |t.sales| == |s.sales| + CountSellable(s.preBookings, recs)
      && t.sales[..|s.sales|] == s.sales
      && SoldPreBookedInOrder(t.sales[|s.sales|..], s.preBookings, recs, Serial.NextSrNo(SaleSrNos(s)), details, actor)
      && NumberedFrom(t.sales, |s.sales|, Serial.NextSrNo(SaleSrNos(s)))
      && t.preBookings == Seqs.Without(s.preBookings, PreBookingId, SellableIds(s.preBookings, recs))
      && t.numbers == s.numbers && t.portOuts == s.portOuts && t.dealerPurchases == s.dealerPurchases
  {
    var start := Serial.NextSrNo(SaleSrNos(s));
    var t := BulkSellPreBookedNumbers(s, recs, details, actor).state;
    if |recs| > 0 {
      assert t == SellPreBookedAll(s.preBookings, s, recs, start, details, actor);
      SellPreBookedAllShape(s.preBookings, s, recs, start, details, actor);
      SellPreBookedAllPreBookings(s.preBookings, s, recs, start, details, actor);
      SoldPreBookedSerialsFrom(t.sales, |s.sales|, s.preBookings, recs, start, details, actor);
    } else {
      assert t.sales[|s.sales|..] == [];
      Seqs.WithoutNothing(s.preBookings, PreBookingId, {});
    }
  }

  // ----- The inventory invariant -----

  lemma PreBookOneKeepsValid(s: State, k: nat, srNo: int, actor: Actor, now: Time)
    requires Valid(s)
    requires k < |s.numbers|
    ensures var t := PreBookOne(s, s.numbers[k], srNo, actor, now);
      Valid(t) && multiset(AllMobiles(t)) == multiset(AllMobiles(s))
  {
    var n := s.numbers[k];
    var pb := PreBooked(FreshId(Seqs.Map(s.preBookings, PreBookingId)), srNo, n, actor, now);
    var t := s.(numbers := Seqs.Without(s.numbers, NumberId, {n.id}), preBookings := s.preBookings + [pb]);
    assert t == PreBookOne(s, n, srNo, actor, now);
    Seqs.WithoutOne(s.numbers, NumberId, k, NumberMobile);
    Seqs.MapMultisetAppend(s.preBookings, pb, PreBookingMobile);
    assert multiset(AllMobiles(t)) == multiset(AllMobiles(s));
    Seqs.WithoutKeysUnique(s.numbers, NumberId, {n.id});
    Seqs.WithoutMembers(s.numbers, NumberId, {n.id});
    Seqs.AppendFreshKey(s.preBookings, pb, PreBookingId);
    assert IdsUnique(t);
    assert SnapshotsAgree(t);
    ValidFromSameMobiles(s, t);
  }

  lemma {:induction false} PreBookAllKeepsValid(s: State, recs: seq<NumberRecord>, srNo: int, actor: Actor, now: Time)
    requires Valid(s)
    requires forall r | r in recs :: r in s.numbers
    requires Seqs.KeysUnique(recs, NumberId)
    ensures var t := PreBookAll(s, recs, srNo, actor, now);
      Valid(t) && multiset(AllMobiles(t)) == multiset(AllMobiles(s))
    decreases |recs|
  {
    if |recs| > 0 {
      assert recs[0] in recs;
      var k :| 0 <= k < |s.numbers| && s.numbers[k] == recs[0];
      PreBookOneKeepsValid(s, k, srNo, actor, now);
      var s1 := PreBookOne(s, recs[0], srNo, actor, now);
      Seqs.KeysUniqueTail(recs, NumberId);
      Seqs.WithoutMembers(s.numbers, NumberId, {recs[0].id});
      assert forall r | r in recs[1..] :: r in s1.numbers;
      PreBookAllKeepsValid(s1, recs[1..], srNo + 1, actor, now);
    }
  }

  lemma MarkAsPreBookedKeepsValid(s: State, ids: seq<Id>, actor: Actor, now: Time)
    requires Valid(s)
    ensures var t := MarkAsPreBooked(s, ids, actor, now).state;
      Valid(t) && multiset(AllMobiles(t)) == multiset(AllMobiles(s))
  {
    var selected := Seqs.Filter(s.numbers, Picked(ids));
    Seqs.FilterSubMultiset(s.numbers, Picked(ids), NumberId);
    Seqs.NoDuplicatesSubMultiset(Seqs.Map(s.numbers, NumberId), Seqs.Map(selected, NumberId));
    PreBookAllKeepsValid(s, selected, Serial.NextSrNo(PreBookingSrNos(s)), actor, now);
  }

  /** Moving pre-booking `i` back to stock as `restored` keeps the
      invariant. */
  lemma RestoreKeepsValid(s: State, i: nat, restored: NumberRecord)
    requires Valid(s)
    requires i < |s.preBookings|
    requires restored.id == FreshId(Seqs.Map(s.numbers, NumberId))
    requires restored.data.mobile == s.preBookings[i].mobile
    ensures var t := s.(numbers := s.numbers + [restored],
                        preBookings := Seqs.Without(s.preBookings, PreBookingId, {s.preBookings[i].id}));
      Valid(t) && multiset(AllMobiles(t)) == multiset(AllMobiles(s))
  {
    var id := s.preBookings[i].id;
    var t := s.(numbers := s.numbers + [restored], preBookings := Seqs.Without(s.preBookings, PreBookingId, {id}));
    Seqs.WithoutOne(s.preBookings, PreBookingId, i, PreBookingMobile);
    Seqs.MapMultisetAppend(s.numbers, restored, NumberMobile);
    assert multiset(AllMobiles(t)) == multiset(AllMobiles(s));
    Seqs.WithoutKeysUnique(s.preBookings, PreBookingId, {id});
    Seqs.WithoutMembers(s.preBookings, PreBookingId, {id});
    Seqs.AppendFreshKey(s.numbers, restored, NumberId);
    assert IdsUnique(t);
    assert SnapshotsAgree(t);
    ValidFromSameMobiles(s, t);
  }

  lemma CancelPreBookingKeepsValid(s: State, preBookingId: Id)
    requires Valid(s)
    ensures var t := CancelPreBooking(s, preBookingId).state;
      Valid(t) && multiset(AllMobiles(t)) == multiset(AllMobiles(s))
  {
    var r := Seqs.FindIndex(s.preBookings, PreBookingId, preBookingId);
    if r.Some? && s.preBookings[r.value].originalNumberData.Some? {
      var pb := s.preBookings[r.value];
      var restored := NumberRecord(FreshId(Seqs.Map(s.numbers, NumberId)), pb.originalNumberData.value);
      assert restored.data.mobile == pb.mobile;
      RestoreKeepsValid(s, r.value, restored);
    }
  }

  lemma SellPreBookedOneKeepsValid(s: State, k: nat, srNo: int, details: SaleDetails, actor: Actor)
    requires Valid(s)
    requires k < |s.preBookings|
    ensures var t := SellPreBookedOne(s, s.preBookings[k], srNo, details, actor);
      Valid(t) && multiset(AllMobiles(t)) == multiset(AllMobiles(s))
  {
    var pb := s.preBookings[k];
    var sale := SaleOfPreBooking(FreshId(Seqs.Map(s.sales, SaleId)), srNo, pb, details, actor);
    var t := s.(preBookings := Seqs.Without(s.preBookings, PreBookingId, {pb.id}), sales := s.sales + [sale]);
    assert t == SellPreBookedOne(s, pb, srNo, details, actor);
    Seqs.WithoutOne(s.preBookings, PreBookingId, k, PreBookingMobile);
    Seqs.MapMultisetAppend(s.sales, sale, SaleMobile);
    assert multiset(AllMobiles(t)) == multiset(AllMobiles(s));
    Seqs.WithoutKeysUnique(s.preBookings, PreBookingId, {pb.id});
    Seqs.WithoutMembers(s.preBookings, PreBookingId, {pb.id});
    Seqs.AppendFreshKey(s.sales, sale, SaleId);
    assert IdsUnique(t);
    assert SnapshotsAgree(t);
    ValidFromSameMobiles(s, t);
  }

  lemma SellPreBookedNumberKeepsValid(s: State, preBookingId: Id, details: SaleDetails, actor: Actor)
    requires Valid(s)
    ensures var t := SellPreBookedNumber(s, preBookingId, details, actor).state;
      Valid(t) && multiset(AllMobiles(t)) == multiset(AllMobiles(s))
  {
    var r := Seqs.FindIndex(s.preBookings, PreBookingId, preBookingId);
    if r.Some? && s.preBookings[r.value].originalNumberData.Some? {
      assert SellPreBookedNumber(s, preBookingId, details, actor).state
        == SellPreBookedOne(s, s.preBookings[r.value], Serial.NextSrNo(SaleSrNos(s)), details, actor);
      SellPreBookedOneKeepsValid(s, r.value, Serial.NextSrNo(SaleSrNos(s)), details, actor);
    }
  }

  lemma {:induction false} SellPreBookedAllKeepsValid(src: seq<PreBookingRecord>, acc: State, recs: seq<NumberRecord>,
                                                      srNo: int, details: SaleDetails, actor: Actor)
    requires Valid(acc)
    requires Seqs.KeysUnique(recs, NumberId)
    requires forall r | r in recs :: FindPreBooking(src, r.id).Some? ==> FindPreBooking(src, r.id).value in acc.preBookings
    ensures var t := SellPreBookedAll(src, acc, recs, srNo, details, actor);
      Valid(t) && multiset(AllMobiles(t)) == multiset(AllMobiles(acc))
    decreases |recs|
  {
    if |recs| > 0 {
      Seqs.KeysUniqueTail(recs, NumberId);
      assert recs[0] in recs;
      match FindPreBooking(src, recs[0].id)
      case None =>
        SellPreBookedAllKeepsValid(src, acc, recs[1..], srNo, details, actor);
      case Some(pb) =>
        var k :| 0 <= k < |acc.preBookings| && acc.preBookings[k] == pb;
        SellPreBookedOneKeepsValid(acc, k, srNo, details, actor);
        var a1 := SellPreBookedOne(acc, pb, srNo, details, actor);
        Seqs.WithoutMembers(acc.preBookings, PreBookingId, {pb.id});
        forall r | r in recs[1..] && FindPreBooking(src, r.id).Some?
          ensures FindPreBooking(src, r.id).value in a1.preBookings
        {
          var j :| 1 <= j < |recs| && recs[j] == r;
          assert r.id != recs[0].id;
        }
        SellPreBookedAllKeepsValid(src, a1, recs[1..], srNo + 1, details, actor);
    }
  }

  /** Selling pre-booked numbers with distinct ids keeps the inventory
      invariant, whichever of them turn out to have no pre-booking. */
  lemma BulkSellPreBookedKeepsValid(s: State, recs: seq<NumberRecord>, details: SaleDetails, actor: Actor)
    requires Valid(s)
    requires Seqs.KeysUnique(recs, NumberId)
    ensures var t := BulkSellPreBookedNumbers(s, recs, details, actor).state;
      Valid(t) && multiset(AllMobiles(t)) == multiset(AllMobiles(s))
  {
    if |recs| > 0 {
      SellPreBookedAllKeepsValid(s.preBookings, s, recs, Serial.NextSrNo(SaleSrNos(s)), details, actor);
    }
  }

  /** Pre-booking one stock number by its id is a single move. */
  lemma MarkOneAsPreBooked(s: State, k: nat, actor: Actor, now: Time)
    requires Seqs.KeysUnique(s.numbers, NumberId)
    requires k < |s.numbers|
    ensures MarkAsPreBooked(s, [s.numbers[k].id], actor, now).state
      == PreBookOne(s, s.numbers[k], Serial.NextSrNo(PreBookingSrNos(s)), actor, now)
  {
    var n := s.numbers[k];
    forall i | 0 <= i < |s.numbers| && i != k ensures !Picked([n.id])(s.numbers[i]) {
      assert Seqs.Map(s.numbers, NumberId)[i] != Seqs.Map(s.numbers, NumberId)[k];
    }
    Seqs.FilterSingle(s.numbers, Picked([n.id]), k);
    var srNo := Serial.NextSrNo(PreBookingSrNos(s));
    assert PreBookOne(s, n, srNo, actor, now) == PreBookAll(s, [n], srNo, actor, now);
  }

  /** Pre-booking a single stock number and then cancelling that
      pre-booking puts the number's data back exactly, serial and all. */
  lemma PreBookThenCancel(s: State, k: nat, actor: Actor, now: Time)
    requires Seqs.KeysUnique(s.numbers, NumberId)
    requires k < |s.numbers|
    ensures var t := MarkAsPreBooked(s, [s.numbers[k].id], actor, now).state;
      && |t.preBookings| == |s.preBookings| + 1
      && var u := CancelPreBooking(t, t.preBookings[|s.preBookings|].id);
      && u.outcome == Applied([s.numbers[k].data.mobile], 0)
      && u.state.preBookings == s.preBookings
      && |u.state.numbers| > 0
      && u.state.numbers[..|u.state.numbers| - 1] == Seqs.Without(s.numbers, NumberId, {s.numbers[k].id})
      && u.state.numbers[|u.state.numbers| - 1].data == s.numbers[k].data
      && u.state.sales == s.sales && u.state.portOuts == s.portOuts && u.state.dealerPurchases == s.dealerPurchases
  {
    var n := s.numbers[k];
    MarkOneAsPreBooked(s, k, actor, now);
    var t := PreBookOne(s, n, Serial.NextSrNo(PreBookingSrNos(s)), actor, now);
    var pb := t.preBookings[|s.preBookings|];
    assert t.preBookings == s.preBookings + [pb];
    forall j | 0 <= j < |s.preBookings| ensures s.preBookings[j].id != pb.id {
      assert Seqs.Map(s.preBookings, PreBookingId)[j] == s.preBookings[j].id;
    }
    CancelLastPreBooking(t, s.preBookings, pb);
  }

  /** Cancelling the most recent pre-booking, when its id is new, undoes its
      append and restores its snapshot. */
  lemma CancelLastPreBooking(t: State, base: seq<PreBookingRecord>, pb: PreBookingRecord)
    requires t.preBookings == base + [pb]
    requires forall j | 0 <= j < |base| :: base[j].id != pb.id
    requires pb.originalNumberData.Some?
    ensures var u := CancelPreBooking(t, pb.id);
      && u.outcome == Applied([pb.mobile], 0)
      && u.state.preBookings == base
      && |u.state.numbers| == |t.numbers| + 1
      && u.state.numbers[..|t.numbers|] == t.numbers
      && u.state.numbers[|t.numbers|].data == pb.originalNumberData.value
      && u.state.sales == t.sales && u.state.portOuts == t.portOuts
      && u.state.dealerPurchases == t.dealerPurchases
  {
    assert PreBookingId(t.preBookings[|base|]) == pb.id;
    assert forall j | 0 <= j < |base| :: t.preBookings[j] == base[j];
    assert Seqs.FindIndex(t.preBookings, PreBookingId, pb.id) == Some(|base|);
    assert FindPreBooking(t.preBookings, pb.id) == Some(pb);
    Seqs.WithoutAppend(base, pb, PreBookingId, {pb.id});
    forall x | x in base ensures PreBookingId(x) !in {pb.id} {
      var j :| 0 <= j < |base| && base[j] == x;
    }
    Seqs.WithoutNothing(base, PreBookingId, {pb.id});
  }
}
