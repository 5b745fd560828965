/** Adding stock: `addNumber`, `addMultipleNumbers` and
    `addDealerPurchase`.  The single adds refuse a mobile already held
    anywhere; `addMultipleNumbers` relies on the caller having filtered its
    list. */
module Additions {
  import opened Wrappers
  import opened Records
  import opened Inventory
  import Seqs
  import Serial
  import DigitalRoot

  /** What the add-number form submits. */
  datatype NewNumberData = NewNumberData(
    mobile: string,
    status: RtsStatus,
    uploadStatus: Progress,
    numberType: NumberType,
    purchaseFrom: string,
    purchasePrice: real,
    salePrice: real,
    rtsDate: Option<Time>,
    name: string,
    currentLocation: string,
    locationType: LocationType,
    assignedTo: string,
    purchaseDate: Time,
    notes: Option<string>,
    accountName: Option<string>,
    ownershipType: OwnershipType,
    partnerName: Option<string>,
    safeCustodyDate: Option<Time>)

  datatype NewDealerPurchaseData = NewDealerPurchaseData(mobile: string, dealerName: string, price: real)

  function NumberSrNos(s: State): seq<Option<int>> { Seqs.Map(s.numbers, NumberSrNo) }
  function DealerPurchaseSrNos(s: State): seq<Option<int>> { Seqs.Map(s.dealerPurchases, DealerPurchaseSrNo) }

  /** The stored number built from the form for one mobile. */
  function NewNumber(d: NewNumberData, mobile: string, srNo: int, actor: Actor): (r: NumberData)
    ensures r.mobile == mobile && r.srNo == Some(srNo)
    ensures r.sum == DigitalRoot.CalculateDigitalRoot(mobile) && 0 <= r.sum <= 9
    ensures r.name == ActorName(actor) && r.assignedTo == ActorName(actor) && r.createdBy == actor.uid
    ensures r.upcStatus == UpcPending && r.checkInDate.None? && !r.safeCustodyNotificationSent
    ensures r.rtsDate.Some? <==> d.status == NonRTS && d.rtsDate.Some?
    ensures r.safeCustodyDate.Some? <==> d.numberType == COCP && d.safeCustodyDate.Some?
    ensures d.numberType != COCP ==> r.accountName.None?
    ensures d.ownershipType != Partnership ==> r.partnerName == Some("")
    ensures d.ownershipType == Partnership ==> r.partnerName == d.partnerName
  {
    var owner := ActorName(actor);
    NumberData(
      srNo := Some(srNo),
      mobile := mobile,
      sum := DigitalRoot.CalculateDigitalRoot(mobile),
      status := d.status,
      uploadStatus := d.uploadStatus,
      numberType := d.numberType,
      purchaseFrom := d.purchaseFrom,
      purchasePrice := d.purchasePrice,
      salePrice := d.salePrice,
      rtsDate := if d.status == NonRTS then d.rtsDate else None,
      name := owner,
      upcStatus := UpcPending,
      currentLocation := d.currentLocation,
      locationType := d.locationType,
      assignedTo := owner,
      purchaseDate := d.purchaseDate,
      notes := d.notes,
      checkInDate := None,
      safeCustodyDate := if d.numberType == COCP then d.safeCustodyDate else None,
      safeCustodyNotificationSent := false,
      createdBy := actor.uid,
      accountName := if d.numberType == COCP then d.accountName else None,
      ownershipType := d.ownershipType,
      partnerName := if d.ownershipType != Partnership then Some("") else d.partnerName)
  }

  function AddOne(s: State, data: NumberData): State {
    s.(numbers := s.numbers + [NumberRecord(FreshId(Seqs.Map(s.numbers, NumberId)), data)])
  }

  /** `addNumber`. */
  function AddNumber(s: State, d: NewNumberData, actor: Actor): (r: Step)
    ensures r.state.sales == s.sales && r.state.portOuts == s.portOuts
    ensures r.state.dealerPurchases == s.dealerPurchases && r.state.preBookings == s.preBookings
    ensures IsMobileNumberDuplicate(s, d.mobile, None) <==> r == Step(s, Duplicate)
    ensures r.outcome.Applied? ==>
      && |r.state.numbers| == |s.numbers| + 1
      && r.state.numbers[..|s.numbers|] == s.numbers
      && r.state.numbers[|s.numbers|].data == NewNumber(d, d.mobile, Serial.NextSrNo(NumberSrNos(s)), actor)
    ensures r.outcome.Applied? || r.outcome == Duplicate
  {
    if IsMobileNumberDuplicate(s, d.mobile, None) then Step(s, Duplicate)
    else
      var t := AddOne(s, NewNumber(d, d.mobile, Serial.NextSrNo(NumberSrNos(s)), actor));
      assert t.numbers[..|s.numbers|] == s.numbers;
      Step(t, Applied([d.mobile], 0))
  }

  function AddAll(s: State, d: NewNumberData, mobiles: seq<string>, srNo: int, actor: Actor): State
    decreases |mobiles|
  {
    if |mobiles| == 0 then s
    else AddAll(AddOne(s, NewNumber(d, mobiles[0], srNo, actor)), d, mobiles[1..], srNo + 1, actor)
  }

  /** `addMultipleNumbers`: one number per mobile, same form data,
      consecutive serial numbers; an empty list does nothing. */
  function AddMultipleNumbers(s: State, d: NewNumberData, mobiles: seq<string>, actor: Actor): (r: Step)
    ensures |mobiles| == 0 ==> r == Step(s, Ignored)
    ensures |mobiles| > 0 ==> r.outcome == Applied(mobiles, 0)
  {
    if |mobiles| == 0 then Step(s, Ignored)
    else Step(AddAll(s, d, mobiles, Serial.NextSrNo(NumberSrNos(s)), actor), Applied(mobiles, 0))
  }

  /** `addDealerPurchase`: new purchases start with every status pending. */
  function AddDealerPurchase(s: State, d: NewDealerPurchaseData, actor: Actor): (r: Step)
    ensures r.state.numbers == s.numbers && r.state.sales == s.sales
    ensures r.state.portOuts == s.portOuts && r.state.preBookings == s.preBookings
    ensures IsMobileNumberDuplicate(s, d.mobile, None) <==> r == Step(s, Duplicate)
    ensures r.outcome.Applied? ==>
      && |r.state.dealerPurchases| == |s.dealerPurchases| + 1
      && r.state.dealerPurchases[..|s.dealerPurchases|] == s.dealerPurchases
      && var p := r.state.dealerPurchases[|s.dealerPurchases|];
      && p.mobile == d.mobile && p.dealerName == d.dealerName && p.price == d.price
      && p.sum == DigitalRoot.CalculateDigitalRoot(d.mobile)
      && p.paymentStatus == Pending && p.portOutStatus == Pending && p.upcStatus == UpcPending
      && p.createdBy == actor.uid
      && p.srNo == Some(Serial.NextSrNo(DealerPurchaseSrNos(s)))
      && p.id !in Seqs.Map(s.dealerPurchases, DealerPurchaseId)
      && forall i | 0 <= i < |s.dealerPurchases| :: Serial.OrZero(s.dealerPurchases[i].srNo) < Serial.OrZero(p.srNo)
    ensures r.outcome.Applied? || r.outcome == Duplicate
  {
    if IsMobileNumberDuplicate(s, d.mobile, None) then Step(s, Duplicate)
    else
      var srNo := Serial.NextSrNo(DealerPurchaseSrNos(s));
      assert forall i | 0 <= i < |s.dealerPurchases| :: Serial.OrZero(s.dealerPurchases[i].srNo) < srNo by {
        forall i | 0 <= i < |s.dealerPurchases| ensures Serial.OrZero(s.dealerPurchases[i].srNo) < srNo {
          assert DealerPurchaseSrNos(s)[i] == s.dealerPurchases[i].srNo;
        }
      }
      var p := DealerPurchaseRecord(
        FreshId(Seqs.Map(s.dealerPurchases, DealerPurchaseId)), Some(srNo), d.mobile,
        DigitalRoot.CalculateDigitalRoot(d.mobile), d.dealerName, d.price, Pending, Pending, UpcPending, actor.uid);
      assert (s.dealerPurchases + [p])[..|s.dealerPurchases|] == s.dealerPurchases;
      Step(s.(dealerPurchases := s.dealerPurchases + [p]), Applied([d.mobile], 0))
  }

  // ----- The inventory invariant -----

  lemma AddOneKeepsValid(s: State, data: NumberData)
    requires Valid(s)
    requires data.mobile !in AllMobiles(s)
    ensures var t := AddOne(s, data);
      Valid(t) && multiset(AllMobiles(t)) == multiset(AllMobiles(s)) + multiset{data.mobile}
  {
    var n := NumberRecord(FreshId(Seqs.Map(s.numbers, NumberId)), data);
    var t := s.(numbers := s.numbers + [n]);
    assert t == AddOne(s, data);
    Seqs.MapMultisetAppend(s.numbers, n, NumberMobile);
    assert multiset(AllMobiles(t)) == multiset(AllMobiles(s)) + multiset{data.mobile};
    Seqs.NoDuplicatesAddFresh(AllMobiles(s), [data.mobile], AllMobiles(t));
    Seqs.AppendFreshKey(s.numbers, n, NumberId);
    assert IdsUnique(t);
  }

  /** A non-empty mobile the duplicate check accepts is new, so adding it
      keeps every mobile in one place. */
  lemma AddNumberKeepsValid(s: State, d: NewNumberData, actor: Actor)
    requires Valid(s)
    requires d.mobile != ""
    ensures var r := AddNumber(s, d, actor);
      && Valid(r.state)
      && multiset(AllMobiles(r.state)) == multiset(AllMobiles(s)) + (if r.outcome.Applied? then multiset{d.mobile} else multiset{})
  {
    DuplicateIffHeld(s, d.mobile);
    if !IsMobileNumberDuplicate(s, d.mobile, None) {
      AddOneKeepsValid(s, NewNumber(d, d.mobile, Serial.NextSrNo(NumberSrNos(s)), actor));
    }
  }

  /** Appending a purchase with a new mobile and a fresh id keeps the
      invariant. */
  lemma AppendPurchaseKeepsValid(s: State, p: DealerPurchaseRecord)
    requires Valid(s)
    requires p.mobile !in AllMobiles(s)
    requires p.id == FreshId(Seqs.Map(s.dealerPurchases, DealerPurchaseId))
    ensures var t := s.(dealerPurchases := s.dealerPurchases + [p]);
      Valid(t) && multiset(AllMobiles(t)) == multiset(AllMobiles(s)) + multiset{p.mobile}
  {
    var t := s.(dealerPurchases := s.dealerPurchases + [p]);
    Seqs.MapMultisetAppend(s.dealerPurchases, p, DealerPurchaseMobile);
    assert multiset(AllMobiles(t)) == multiset(AllMobiles(s)) + multiset{p.mobile};
    Seqs.NoDuplicatesAddFresh(AllMobiles(s), [p.mobile], AllMobiles(t));
    Seqs.AppendFreshKey(s.dealerPurchases, p, DealerPurchaseId);
    assert IdsUnique(t);
  }

  lemma AddDealerPurchaseKeepsValid(s: State, d: NewDealerPurchaseData, actor: Actor)
    requires Valid(s)
    requires d.mobile != ""
    ensures var r := AddDealerPurchase(s, d, actor);
      && Valid(r.state)
      && multiset(AllMobiles(r.state)) == multiset(AllMobiles(s)) + (if r.outcome.Applied? then multiset{d.mobile} else multiset{})
  {
    DuplicateIffHeld(s, d.mobile);
    if !IsMobileNumberDuplicate(s, d.mobile, None) {
      var p := DealerPurchaseRecord(
        FreshId(Seqs.Map(s.dealerPurchases, DealerPurchaseId)), Some(Serial.NextSrNo(DealerPurchaseSrNos(s))), d.mobile,
        DigitalRoot.CalculateDigitalRoot(d.mobile), d.dealerName, d.price, Pending, Pending, UpcPending, actor.uid);
      AppendPurchaseKeepsValid(s, p);
    }
  }

  /** Adding one new mobile ahead of further distinct new ones keeps the
      invariant and leaves the others new. */
  lemma AddOneFresh(s: State, data: NumberData, rest: seq<string>)
    requires Valid(s)
    requires data.mobile !in AllMobiles(s)
    requires data.mobile !in rest
    requires forall m | m in rest :: m !in AllMobiles(s)
    ensures var s1 := AddOne(s, data);
      && Valid(s1)
      && multiset(AllMobiles(s1)) == multiset(AllMobiles(s)) + multiset{data.mobile}
      && (forall m | m in rest :: m !in AllMobiles(s1))
  {
    var s1 := AddOne(s, data);
    AddOneKeepsValid(s, data);
    var ms0, ms1 := multiset(AllMobiles(s)), multiset(AllMobiles(s1));
    assert ms1 == ms0 + multiset{data.mobile};
    forall m | m in rest ensures m !in AllMobiles(s1) {
      assert m != data.mobile;
      assert m !in ms0;
      assert m !in ms1;
    }
  }

  /** Adding a list of distinct new mobiles keeps the invariant and adds
      exactly those mobiles. */
  lemma {:induction false} AddAllKeepsValid(s: State, d: NewNumberData, mobiles: seq<string>, srNo: int, actor: Actor)
    requires Valid(s)
    requires Seqs.NoDuplicates(mobiles)
    requires forall m | m in mobiles :: m !in AllMobiles(s)
    ensures var t := AddAll(s, d, mobiles, srNo, actor);
      Valid(t) && multiset(AllMobiles(t)) == multiset(AllMobiles(s)) + multiset(mobiles)
    decreases |mobiles|
  {
    if |mobiles| > 0 {
      var s1 := AddOne(s, NewNumber(d, mobiles[0], srNo, actor));
      var rest := mobiles[1..];
      assert mobiles == [mobiles[0]] + rest;
      Seqs.NoDuplicatesCons(mobiles[0], rest);
      assert mobiles[0] in mobiles;
      assert forall m | m in rest :: m in mobiles;
      AddOneFresh(s, NewNumber(d, mobiles[0], srNo, actor), rest);
      AddAllKeepsValid(s1, d, rest, srNo + 1, actor);
      assert AddAll(s, d, mobiles, srNo, actor) == AddAll(s1, d, rest, srNo + 1, actor);
      assert multiset(mobiles) == multiset{mobiles[0]} + multiset(rest);
    }
  }

  lemma AddMultipleNumbersKeepsValid(s: State, d: NewNumberData, mobiles: seq<string>, actor: Actor)
    requires Valid(s)
    requires Seqs.NoDuplicates(mobiles)
    requires forall m | m in mobiles :: m !in AllMobiles(s)
    ensures var t := AddMultipleNumbers(s, d, mobiles, actor).state;
      Valid(t) && multiset(AllMobiles(t)) == multiset(AllMobiles(s)) + multiset(mobiles)
  {
    if |mobiles| > 0 {
      AddAllKeepsValid(s, d, mobiles, Serial.NextSrNo(NumberSrNos(s)), actor);
    }
  }

  /** `ns` are the records added for `mobiles`, in order, numbered
      consecutively from `srNo`. */
  predicate AddedFrom(ns: seq<NumberRecord>, d: NewNumberData, mobiles: seq<string>, srNo: int, actor: Actor)
    decreases |mobiles|
  {
    && |ns| == |mobiles|
    && (|mobiles| > 0 ==>
          && ns[0].data == NewNumber(d, mobiles[0], srNo, actor)
          && AddedFrom(ns[1..], d, mobiles[1..], srNo + 1, actor))
  }

  lemma {:induction false} AddedFromIndex(ns: seq<NumberRecord>, d: NewNumberData, mobiles: seq<string>, srNo: int, actor: Actor)
    requires AddedFrom(ns, d, mobiles, srNo, actor)
    ensures forall i | 0 <= i < |mobiles| :: ns[i].data == NewNumber(d, mobiles[i], srNo + i, actor)
    decreases |mobiles|
  {
    if |mobiles| > 0 {
      AddedFromIndex(ns[1..], d, mobiles[1..], srNo + 1, actor);
      forall i | 0 < i < |mobiles| ensures ns[i].data == NewNumber(d, mobiles[i], srNo + i, actor) {
        assert ns[i] == ns[1..][i - 1] && mobiles[i] == mobiles[1..][i - 1];
      }
    }
  }

  /** One stock record per mobile, in order, numbered consecutively. */
  lemma {:induction false} AddAllShape(s: State, d: NewNumberData, mobiles: seq<string>, srNo: int, actor: Actor)
    ensures var t := AddAll(s, d, mobiles, srNo, actor);
      && |t.numbers| == |s.numbers| + |mobiles|
      && t.numbers[..|s.numbers|] == s.numbers
      && AddedFrom(t.numbers[|s.numbers|..], d, mobiles, srNo, actor)
      && t.sales == s.sales && t.portOuts == s.portOuts && t.dealerPurchases == s.dealerPurchases
      && t.preBookings == s.preBookings
    decreases |mobiles|
  {
    if |mobiles| > 0 {
      var s1 := AddOne(s, NewNumber(d, mobiles[0], srNo, actor));
      var t := AddAll(s1, d, mobiles[1..], srNo + 1, actor);
      assert t == AddAll(s, d, mobiles, srNo, actor);
      AddAllShape(s1, d, mobiles[1..], srNo + 1, actor);
      assert t.numbers[..|s1.numbers|] == s1.numbers;
      assert t.numbers[..|s.numbers|] == s.numbers by {
        assert s1.numbers[..|s.numbers|] == s.numbers;
      }
      var tail := t.numbers[|s.numbers|..];
      assert tail[0] == s1.numbers[|s.numbers|];
      assert tail[1..] == t.numbers[|s1.numbers|..];
    } else {
      assert s.numbers[|s.numbers|..] == [];
    }
  }

  /** `addMultipleNumbers` keeps the existing stock and appends one record
      per mobile, in order, numbered consecutively after the largest
      existing serial, and touches no other collection. */
  lemma AddMultipleNumbersShape(s: State, d: NewNumberData, mobiles: seq<string>, actor: Actor)
    ensures var t := AddMultipleNumbers(s, d, mobiles, actor).state;
      && |t.numbers| == |s.numbers| + |mobiles|
      && t.numbers[..|s.numbers|] == s.numbers
      && AddedFrom(t.numbers[|s.numbers|..], d, mobiles, Serial.NextSrNo(NumberSrNos(s)), actor)
      && t.sales == s.sales && t.portOuts == s.portOuts && t.dealerPurchases == s.dealerPurchases
      && t.preBookings == s.preBookings
  {
    var start := Serial.NextSrNo(NumberSrNos(s));
    var t := AddMultipleNumbers(s, d, mobiles, actor).state;
    if |mobiles| > 0 {
      assert t == AddAll(s, d, mobiles, start, actor);
      AddAllShape(s, d, mobiles, start, actor);
    } else {
      assert t.numbers[..|s.numbers|] == s.numbers;
      assert t.numbers[|s.numbers|..] == [];
    }
  }
}
