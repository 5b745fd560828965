/** Selling numbers out of stock and cancelling a sale: `sellNumber`,
    `bulkSellNumbers` and `cancelSale`.  Each sale is written together
    with the delete of its source record, so a committed batch moves the
    mobile rather than copying it. */
module Sales {
  import opened Wrappers
  import opened Records
  import opened Inventory
  import Seqs
  import Serial
  import DigitalRoot

  function SaleSrNos(s: State): seq<Option<int>> { Seqs.Map(s.sales, SaleSrNo) }

  /** The sale record a sold number becomes; the number minus its id is
      kept as the snapshot. */
  function NewSale(id: Id, srNo: int, n: NumberRecord, details: SaleDetails, actor: Actor): SaleRecord {
    SaleRecord(
      id, Some(srNo), n.data.mobile, DigitalRoot.CalculateDigitalRoot(n.data.mobile),
      details.soldTo, details.salePrice, Pending, details.saleDate,
      UpcPending, Pending, n.data.uploadStatus, actor.uid, Some(n.data))
  }

  /** `sale` is the sale of `n` under serial `srNo`, whatever its id. */
  predicate SoldAs(sale: SaleRecord, n: NumberRecord, srNo: int, details: SaleDetails, actor: Actor) {
    sale == NewSale(sale.id, srNo, n, details, actor)
  }

  /** One sale plus the delete of the number it came from. */
  function SellOne(s: State, n: NumberRecord, srNo: int, details: SaleDetails, actor: Actor): State {
    var sale := NewSale(FreshId(Seqs.Map(s.sales, SaleId)), srNo, n, details, actor);
    s.(numbers := Seqs.Without(s.numbers, NumberId, {n.id}), sales := s.sales + [sale])
  }

  /** `sellNumber`: an unknown id is ignored. */
  function SellNumber(s: State, id: Id, details: SaleDetails, actor: Actor): (r: Step)
    ensures r.state.portOuts == s.portOuts && r.state.dealerPurchases == s.dealerPurchases
    ensures r.state.preBookings == s.preBookings
    ensures r.outcome.Applied? <==> exists i | 0 <= i < |s.numbers| :: s.numbers[i].id == id
    ensures !r.outcome.Applied? ==> r == Step(s, Ignored)
    ensures r.outcome.Applied? ==>
      && |r.state.sales| == |s.sales| + 1
      && r.state.sales[..|s.sales|] == s.sales
      && (exists i | 0 <= i < |s.numbers| :: s.numbers[i].id == id
            && SoldAs(r.state.sales[|s.sales|], s.numbers[i], Serial.NextSrNo(SaleSrNos(s)), details, actor)
            && r.outcome.affected == [s.numbers[i].data.mobile])
      && r.state.numbers == Seqs.Without(s.numbers, NumberId, {id})
      && (forall x | x in r.state.numbers :: x.id != id)
  {
    match Seqs.FindIndex(s.numbers, NumberId, id)
    case None => Step(s, Ignored)
    case Some(i) =>
      var n := s.numbers[i];
      Seqs.WithoutMembers(s.numbers, NumberId, {n.id});
      Step(SellOne(s, n, Serial.NextSrNo(SaleSrNos(s)), details, actor), Applied([n.data.mobile], 0))
  }

  /** The batch behind `bulkSellNumbers`, one number at a time with
      consecutive serial numbers. */
  function SellAll(s: State, recs: seq<NumberRecord>, srNo: int, details: SaleDetails, actor: Actor): State
    decreases |recs|
  {
    if |recs| == 0 then s
    else SellAll(SellOne(s, recs[0], srNo, details, actor), recs[1..], srNo + 1, details, actor)
  }

  /** `bulkSellNumbers`: an empty selection does nothing. */
  function BulkSellNumbers(s: State, recs: seq<NumberRecord>, details: SaleDetails, actor: Actor): (r: Step)
    ensures |recs| == 0 ==> r == Step(s, Ignored)
    ensures |recs| > 0 ==> r.outcome == Applied(Seqs.Map(recs, NumberMobile), 0)
  {
    if |recs| == 0 then Step(s, Ignored)
    else Step(SellAll(s, recs, Serial.NextSrNo(SaleSrNos(s)), details, actor), Applied(Seqs.Map(recs, NumberMobile), 0))
  }

  /** `cancelSale`: the snapshot goes back to stock, unassigned. */
  function CancelSale(s: State, saleId: Id): (r: Step)
    ensures r.state.portOuts == s.portOuts && r.state.dealerPurchases == s.dealerPurchases
    ensures r.state.preBookings == s.preBookings
    ensures (forall i | 0 <= i < |s.sales| :: s.sales[i].id != saleId) <==> r == Step(s, NotFound)
    ensures r.outcome == MissingSnapshot <==>
      exists i | Seqs.FirstWith(s.sales, SaleId, saleId, i) :: s.sales[i].originalNumberData.None?
    ensures r.outcome.Applied? <==>
      exists i | Seqs.FirstWith(s.sales, SaleId, saleId, i) :: s.sales[i].originalNumberData.Some?
    ensures r.outcome.Applied? || r.outcome == NotFound || r.outcome == MissingSnapshot
    ensures !r.outcome.Applied? ==> r.state == s
    ensures r.outcome.Applied? ==>
      && r.state.sales == Seqs.Without(s.sales, SaleId, {saleId})
      && |r.state.numbers| == |s.numbers| + 1
      && r.state.numbers[..|s.numbers|] == s.numbers
      && (exists i | Seqs.FirstWith(s.sales, SaleId, saleId, i) :: s.sales[i].originalNumberData.Some?
            && r.state.numbers[|s.numbers|].data == Unassign(s.sales[i].originalNumberData.value)
            && r.outcome.affected == [s.sales[i].mobile])
  {
    Seqs.FindIndexFirst(s.sales, SaleId, saleId);
    match Seqs.FindIndex(s.sales, SaleId, saleId)
    case None => Step(s, NotFound)
    case Some(i) =>
      var sale := s.sales[i];
      if sale.originalNumberData.None? then Step(s, MissingSnapshot)
      else
        var restored := NumberRecord(FreshId(Seqs.Map(s.numbers, NumberId)), Unassign(sale.originalNumberData.value));
        assert (s.numbers + [restored])[..|s.numbers|] == s.numbers;
        Step(s.(numbers := s.numbers + [restored], sales := Seqs.Without(s.sales, SaleId, {saleId})), Applied([sale.mobile], 0))
  }

  function Unassign(d: NumberData): NumberData {
    d.(assignedTo := "Unassigned", name := "Unassigned")
  }

  lemma SellOneKeepsValid(s: State, k: nat, srNo: int, details: SaleDetails, actor: Actor)
    requires Valid(s)
    requires k < |s.numbers|
    ensures var t := SellOne(s, s.numbers[k], srNo, details, actor);
      Valid(t) && multiset(AllMobiles(t)) == multiset(AllMobiles(s))
  {
    var n := s.numbers[k];
    var t := SellOne(s, n, srNo, details, actor);
    var sale := t.sales[|s.sales|];
    assert t.sales == s.sales + [sale];
    Seqs.WithoutOne(s.numbers, NumberId, k, NumberMobile);
    Seqs.MapMultisetAppend(s.sales, sale, SaleMobile);
    Seqs.WithoutKeysUnique(s.numbers, NumberId, {n.id});
    Seqs.WithoutMembers(s.numbers, NumberId, {n.id});
    Seqs.AppendFreshKey(s.sales, sale, SaleId);
    ValidFromSameMobiles(s, t);
  }

  /** Selling numbers that are in stock moves their mobiles and keeps the
      inventory invariant. */
  lemma {:induction false} SellAllKeepsValid(s: State, recs: seq<NumberRecord>, srNo: int, details: SaleDetails, actor: Actor)
    requires Valid(s)
    requires forall r | r in recs :: r in s.numbers
    requires Seqs.KeysUnique(recs, NumberId)
    ensures var t := SellAll(s, recs, srNo, details, actor);
      Valid(t) && multiset(AllMobiles(t)) == multiset(AllMobiles(s))
    decreases |recs|
  {
    if |recs| > 0 {
      assert recs[0] in recs;
      var k :| 0 <= k < |s.numbers| && s.numbers[k] == recs[0];
      SellOneKeepsValid(s, k, srNo, details, actor);
      var s1 := SellOne(s, recs[0], srNo, details, actor);
      Seqs.KeysUniqueTail(recs, NumberId);
      Seqs.WithoutMembers(s.numbers, NumberId, {recs[0].id});
      assert forall r | r in recs[1..] :: r in s1.numbers;
      SellAllKeepsValid(s1, recs[1..], srNo + 1, details, actor);
    }
  }

  /** The batch deletes exactly the selected ids from stock. */
  lemma {:induction false} SellAllNumbers(s: State, recs: seq<NumberRecord>, srNo: int, details: SaleDetails, actor: Actor)
    ensures SellAll(s, recs, srNo, details, actor).numbers == Seqs.Without(s.numbers, NumberId, Seqs.KeySet(recs, NumberId))
    decreases |recs|
  {
    if |recs| == 0 {
      assert Seqs.KeySet(recs, NumberId) == {};
      Seqs.WithoutNothing(s.numbers, NumberId, {});
    } else {
      var s1 := SellOne(s, recs[0], srNo, details, actor);
      SellAllNumbers(s1, recs[1..], srNo + 1, details, actor);
      Seqs.KeySetCons(recs, NumberId);
      Seqs.WithoutWithout(s.numbers, NumberId, {recs[0].id}, Seqs.KeySet(recs[1..], NumberId));
    }
  }

  /** `sales` are the sales of `recs`, in order, with consecutive serial
      numbers from `srNo`. */
  predicate SoldInOrder(sales: seq<SaleRecord>, recs: seq<NumberRecord>, srNo: int, details: SaleDetails, actor: Actor)
    decreases |recs|
  {
    && |sales| == |recs|
    && (|recs| > 0 ==>
          && SoldAs(sales[0], recs[0], srNo, details, actor)
          && SoldInOrder(sales[1..], recs[1..], srNo + 1, details, actor))
  }

  lemma {:induction false} SoldInOrderIndex(sales: seq<SaleRecord>, recs: seq<NumberRecord>, srNo: int,
                                         details: SaleDetails, actor: Actor)
    requires SoldInOrder(sales, recs, srNo, details, actor)
    ensures forall i | 0 <= i < |recs| :: SoldAs(sales[i], recs[i], srNo + i, details, actor)
    decreases |recs|
  {
    if |recs| > 0 {
      SoldInOrderIndex(sales[1..], recs[1..], srNo + 1, details, actor);
      forall i | 0 < i < |recs| ensures SoldAs(sales[i], recs[i], srNo + i, details, actor) {
        assert sales[i] == sales[1..][i - 1] && recs[i] == recs[1..][i - 1];
      }
    }
  }

  /** The batch appends one sale per record, in order, with consecutive
      serial numbers, and touches no other collection. */
  lemma {:induction false} SellAllSales(s: State, recs: seq<NumberRecord>, srNo: int, details: SaleDetails, actor: Actor)
    ensures var t := SellAll(s, recs, srNo, details, actor);
      && |t.sales| == |s.sales| + |recs|
      && t.sales[..|s.sales|] == s.sales
      && SoldInOrder(t.sales[|s.sales|..], recs, srNo, details, actor)
      && t.portOuts == s.portOuts && t.dealerPurchases == s.dealerPurchases && t.preBookings == s.preBookings
    decreases |recs|
  {
    if |recs| > 0 {
      var s1 := SellOne(s, recs[0], srNo, details, actor);
      var t := SellAll(s1, recs[1..], srNo + 1, details, actor);
      assert t == SellAll(s, recs, srNo, details, actor);
      SellAllSales(s1, recs[1..], srNo + 1, details, actor);
      var sale := s1.sales[|s.sales|];
      assert SoldAs(sale, recs[0], srNo, details, actor);
      assert t.sales[..|s1.sales|] == s1.sales;
      assert t.sales[..|s.sales|] == s.sales by {
        assert s1.sales[..|s.sales|] == s.sales;
      }
      var tail := t.sales[|s.sales|..];
      assert tail[0] == sale;
      assert tail[1..] == t.sales[|s1.sales|..];
    } else {
      assert s.sales[|s.sales|..] == [];
    }
  }

  /** `bulkSellNumbers` keeps the existing sales and appends one sale per
      selected record, in order, numbered consecutively from the next
      serial; by `Serial.NextSrNo` each is above every existing sale's. */
  lemma BulkSellNumbersShape(s: State, recs: seq<NumberRecord>, details: SaleDetails, actor: Actor)
    ensures var t := BulkSellNumbers(s, recs, details, actor).state;
      && |t.sales| == |s.sales| + |recs|
      && t.sales[..|s.sales|] == s.sales
      && SoldInOrder(t.sales[|s.sales|..], recs, Serial.NextSrNo(SaleSrNos(s)), details, actor)
      && t.numbers == Seqs.Without(s.numbers, NumberId, Seqs.KeySet(recs, NumberId))
      && t.portOuts == s.portOuts && t.dealerPurchases == s.dealerPurchases && t.preBookings == s.preBookings
  {
    var start := Serial.NextSrNo(SaleSrNos(s));
    var t := BulkSellNumbers(s, recs, details, actor).state;
    if |recs| > 0 {
      assert t == SellAll(s, recs, start, details, actor);
      SellAllSales(s, recs, start, details, actor);
      SellAllNumbers(s, recs, start, details, actor);
    } else {
      assert t.sales[..|s.sales|] == s.sales;
      assert t.sales[|s.sales|..] == [];
      assert Seqs.KeySet(recs, NumberId) == {};
      Seqs.WithoutNothing(s.numbers, NumberId, {});
    }
  }

  /** Selling a number keeps the inventory invariant and moves its mobile
      from stock to the sales. */
  lemma SellNumberKeepsValid(s: State, id: Id, details: SaleDetails, actor: Actor)
    requires Valid(s)
    ensures var t := SellNumber(s, id, details, actor).state;
      Valid(t) && multiset(AllMobiles(t)) == multiset(AllMobiles(s))
  {
    var r := Seqs.FindIndex(s.numbers, NumberId, id);
    if r.Some? {
      SellOneKeepsValid(s, r.value, Serial.NextSrNo(SaleSrNos(s)), details, actor);
    }
  }

  /** Selling records that are in stock, each once, keeps the invariant. */
  lemma BulkSellNumbersKeepsValid(s: State, recs: seq<NumberRecord>, details: SaleDetails, actor: Actor)
    requires Valid(s)
    requires forall r | r in recs :: r in s.numbers
    requires Seqs.KeysUnique(recs, NumberId)
    ensures var t := BulkSellNumbers(s, recs, details, actor).state;
      Valid(t) && multiset(AllMobiles(t)) == multiset(AllMobiles(s))
  {
    if |recs| > 0 {
      SellAllKeepsValid(s, recs, Serial.NextSrNo(SaleSrNos(s)), details, actor);
    }
  }

  /** Cancelling the sale just made returns the number to stock with the
      same data, unassigned, and leaves the sales as they were. */
  lemma SellThenCancel(s: State, k: nat, details: SaleDetails, actor: Actor)
    requires Seqs.KeysUnique(s.numbers, NumberId)
    requires k < |s.numbers|
    ensures var t := SellNumber(s, s.numbers[k].id, details, actor).state;
      && |t.sales| == |s.sales| + 1
      && var u := CancelSale(t, t.sales[|s.sales|].id);
      && u.outcome == Applied([s.numbers[k].data.mobile], 0)
      && u.state.sales == s.sales
      && |u.state.numbers| > 0
      && u.state.numbers[..|u.state.numbers| - 1] == Seqs.Without(s.numbers, NumberId, {s.numbers[k].id})
      && u.state.numbers[|u.state.numbers| - 1].data == Unassign(s.numbers[k].data)
      && u.state.portOuts == s.portOuts && u.state.dealerPurchases == s.dealerPurchases
      && u.state.preBookings == s.preBookings
  {
    var n := s.numbers[k];
    Seqs.FindIndexUnique(s.numbers, NumberId, k);
    var t := SellOne(s, n, Serial.NextSrNo(SaleSrNos(s)), details, actor);
    assert t == SellNumber(s, n.id, details, actor).state;
    var sale := t.sales[|s.sales|];
    assert t.sales == s.sales + [sale];
    forall j | 0 <= j < |s.sales| ensures s.sales[j].id != sale.id {
      assert Seqs.Map(s.sales, SaleId)[j] == s.sales[j].id;
    }
    CancelLastSale(t, s.sales, sale);
  }

  /** Cancelling the most recent sale, when its id is new, undoes its
      append and restores its snapshot. */
  lemma CancelLastSale(t: State, base: seq<SaleRecord>, sale: SaleRecord)
    requires t.sales == base + [sale]
    requires forall j | 0 <= j < |base| :: base[j].id != sale.id
    requires sale.originalNumberData.Some?
    ensures var u := CancelSale(t, sale.id);
      && u.outcome == Applied([sale.mobile], 0)
      && u.state.sales == base
      && |u.state.numbers| == |t.numbers| + 1
      && u.state.numbers[..|t.numbers|] == t.numbers
      && u.state.numbers[|t.numbers|].data == Unassign(sale.originalNumberData.value)
      && u.state.portOuts == t.portOuts && u.state.dealerPurchases == t.dealerPurchases
      && u.state.preBookings == t.preBookings
  {
    var r := Seqs.FindIndex(t.sales, SaleId, sale.id);
    assert SaleId(t.sales[|base|]) == sale.id;
    assert forall j | 0 <= j < |base| :: t.sales[j] == base[j];
    assert r == Some(|base|);
    Seqs.WithoutAppend(base, sale, SaleId, {sale.id});
    Seqs.WithoutNothing(base, SaleId, {sale.id});
  }


  /** Moving sale `i` back to stock as `restored` keeps the invariant. */
  lemma RestoreKeepsValid(s: State, i: nat, restored: NumberRecord)
    requires Valid(s)
    requires i < |s.sales|
    requires restored.id == FreshId(Seqs.Map(s.numbers, NumberId))
    requires restored.data.mobile == s.sales[i].mobile
    ensures var t := s.(numbers := s.numbers + [restored], sales := Seqs.Without(s.sales, SaleId, {s.sales[i].id}));
      Valid(t) && multiset(AllMobiles(t)) == multiset(AllMobiles(s))
  {
    var saleId := s.sales[i].id;
    var t := s.(numbers := s.numbers + [restored], sales := Seqs.Without(s.sales, SaleId, {saleId}));
    Seqs.WithoutOne(s.sales, SaleId, i, SaleMobile);
    Seqs.MapMultisetAppend(s.numbers, restored, NumberMobile);
    assert multiset(AllMobiles(t)) == multiset(AllMobiles(s));
    Seqs.WithoutKeysUnique(s.sales, SaleId, {saleId});
    Seqs.WithoutMembers(s.sales, SaleId, {saleId});
    Seqs.AppendFreshKey(s.numbers, restored, NumberId);
    assert IdsUnique(t);
    assert SnapshotsAgree(t);
    ValidFromSameMobiles(s, t);
  }

  lemma CancelSaleKeepsValid(s: State, saleId: Id)
    requires Valid(s)
    ensures var t := CancelSale(s, saleId).state;
      Valid(t) && multiset(AllMobiles(t)) == multiset(AllMobiles(s))
  {
    var r := Seqs.FindIndex(s.sales, SaleId, saleId);
    if r.Some? && s.sales[r.value].originalNumberData.Some? {
      var sale := s.sales[r.value];
      var restored := NumberRecord(FreshId(Seqs.Map(s.numbers, NumberId)), Unassign(sale.originalNumberData.value));
      assert restored.data.mobile == sale.mobile;
      RestoreKeepsValid(s, r.value, restored);
    }
  }
}
