/** The two review dialogs in front of the bulk operations.  Both split a
    pasted list (commas or newlines) into trimmed, non-empty entries, keep
    the first occurrence of each, and report the entries typed more than
    once.  The add dialog sorts the unique entries into valid, badly
    formatted and already held; the delete dialog into found in stock and
    not found.  Confirming hands the valid (found) entries to
    `addMultipleNumbers` (`deleteNumbers`). */
module Review {
  import opened Wrappers
  import opened Records
  import opened Inventory
  import Seqs
  import Text
  import Additions
  import Deletions
  import Serial

  /** Each entry once, at its first occurrence (`[...new Set(xs)]`). */
  function Unique(es: seq<string>): (r: seq<string>)
    ensures Seqs.NoDuplicates(r)
    ensures forall m | m in r :: m in es
    ensures forall m | m in es :: m in r
  {
    Seqs.Dedupe(es)
  }

  /** The entries typed more than once, each listed once. */
  function InputDuplicates(es: seq<string>): (r: seq<string>)
    ensures Seqs.NoDuplicates(r)
    ensures forall m :: m in r <==> multiset(es)[m] >= 2
  {
    var rep := Seqs.SeenBefore(es);
    forall m ensures m in Seqs.Dedupe(rep) <==> multiset(es)[m] >= 2 {
      Seqs.SeenBeforeIffRepeated(es, m);
    }
    Seqs.Dedupe(rep)
  }

  // ----- Adding -----

  datatype AddReview = AddReview(valid: seq<string>, invalid: seq<string>, duplicates: seq<string>, inputDuplicates: seq<string>)

  function Addable(s: State): string -> bool {
    m => Text.IsTenDigits(m) && !IsMobileNumberDuplicate(s, m, None)
  }

  function Malformed(): string -> bool {
    m => !Text.IsTenDigits(m)
  }

  function AlreadyHeld(s: State): string -> bool {
    m => Text.IsTenDigits(m) && IsMobileNumberDuplicate(s, m, None)
  }

  /** The add dialog's review of the entries `es` against the inventory. */
  function ReviewAdd(s: State, es: seq<string>): (r: AddReview)
    ensures forall m :: m in r.valid <==> m in es && Text.IsTenDigits(m) && m !in AllMobiles(s)
    ensures forall m :: m in r.invalid <==> m in es && !Text.IsTenDigits(m)
    ensures forall m :: m in r.duplicates <==> m in es && Text.IsTenDigits(m) && m in AllMobiles(s)
    ensures forall m :: m in r.inputDuplicates <==> multiset(es)[m] >= 2
    ensures Seqs.NoDuplicates(r.valid) && Seqs.NoDuplicates(r.invalid) && Seqs.NoDuplicates(r.duplicates)
    ensures Seqs.InFirstOrder(es, r.valid) && Seqs.InFirstOrder(es, r.invalid) && Seqs.InFirstOrder(es, r.duplicates)
  {
    var u := Unique(es);
    Seqs.FilterKeepsFirstOrder(es, u, Addable(s));
    Seqs.FilterKeepsFirstOrder(es, u, Malformed());
    Seqs.FilterKeepsFirstOrder(es, u, AlreadyHeld(s));
    forall m | Text.IsTenDigits(m) ensures IsMobileNumberDuplicate(s, m, None) <==> m in AllMobiles(s) {
      DuplicateIffHeld(s, m);
    }
    Seqs.FilterNoDuplicates(u, Addable(s));
    Seqs.FilterNoDuplicates(u, Malformed());
    Seqs.FilterNoDuplicates(u, AlreadyHeld(s));
    AddReview(Seqs.Filter(u, Addable(s)), Seqs.Filter(u, Malformed()), Seqs.Filter(u, AlreadyHeld(s)), InputDuplicates(es))
  }

  /** Every distinct entry lands in exactly one of the three lists. */
  lemma ReviewAddPartition(s: State, es: seq<string>)
    ensures var r := ReviewAdd(s, es);
      |r.valid| + |r.invalid| + |r.duplicates| == |Unique(es)|
  {
    Seqs.FilterPartition3(Unique(es), Addable(s), Malformed(), AlreadyHeld(s));
  }

  /** "Add": nothing happens when no entry is valid. */
  function ConfirmAdd(s: State, d: Additions.NewNumberData, review: AddReview, actor: Actor): (r: Step)
    ensures |review.valid| == 0 ==> r == Step(s, Ignored)
    ensures |review.valid| > 0 ==> r.outcome == Applied(review.valid, 0)
    ensures |review.valid| > 0 ==> r == Additions.AddMultipleNumbers(s, d, review.valid, actor)
  {
    if |review.valid| == 0 then Step(s, Ignored)
    else Additions.AddMultipleNumbers(s, d, review.valid, actor)
  }

  /** Saving appends one stock number per valid entry, in order, with
      consecutive serials, and touches nothing else. */
  lemma ConfirmAddShape(s: State, d: Additions.NewNumberData, review: AddReview, actor: Actor)
    ensures var t := ConfirmAdd(s, d, review, actor).state;
      && |t.numbers| == |s.numbers| + |review.valid|
      && t.numbers[..|s.numbers|] == s.numbers
      && Additions.AddedFrom(t.numbers[|s.numbers|..], d, review.valid, Serial.NextSrNo(Additions.NumberSrNos(s)), actor)
      && t.sales == s.sales && t.portOuts == s.portOuts && t.dealerPurchases == s.dealerPurchases
      && t.preBookings == s.preBookings
  {
    Additions.AddMultipleNumbersShape(s, d, review.valid, actor);
    if |review.valid| == 0 {
      assert s.numbers[..|s.numbers|] == s.numbers;
      assert s.numbers[|s.numbers|..] == [];
    }
  }

  /** Reviewing then adding keeps every mobile in one place and adds exactly
      the valid entries, which is what makes the unchecked bulk add safe. */
  lemma ReviewThenAddKeepsValid(s: State, es: seq<string>, d: Additions.NewNumberData, actor: Actor)
    requires Valid(s)
    ensures var review := ReviewAdd(s, es);
      var t := ConfirmAdd(s, d, review, actor).state;
      Valid(t) && multiset(AllMobiles(t)) == multiset(AllMobiles(s)) + multiset(review.valid)
  {
    var review := ReviewAdd(s, es);
    if |review.valid| > 0 {
      assert forall m | m in review.valid :: m !in AllMobiles(s);
      Additions.AddMultipleNumbersKeepsValid(s, d, review.valid, actor);
    }
  }

  // ----- Deleting -----

  /** A stock number picked for deletion. */
  datatype Match = Match(mobile: string, id: Id)

  function MatchId(f: Match): Id { f.id }

  /** The id the dialog's mobile-to-id map gives `m`: that of the last stock
      number with that mobile. */
  function StockIndex(ns: seq<NumberRecord>, m: string): Option<nat> {
    Seqs.LastIndex(ns, NumberMobile, m)
  }

  function Missing(ns: seq<NumberRecord>): string -> bool {
    m => StockIndex(ns, m).None?
  }

  function Present(ns: seq<NumberRecord>): string -> bool {
    m => StockIndex(ns, m).Some?
  }

  /** The entries found in stock, each with its id, in entry order. */
  function Matches(ns: seq<NumberRecord>, ms: seq<string>): (r: seq<Match>)
    ensures |r| == |Seqs.Filter(ms, Present(ns))|
    ensures forall f | f in r :: f.mobile in ms && StockIndex(ns, f.mobile).Some? && ns[StockIndex(ns, f.mobile).value].id == f.id
    ensures forall m | m in ms && StockIndex(ns, m).Some? :: Match(m, ns[StockIndex(ns, m).value].id) in r
    decreases |ms|
  {
    if |ms| == 0 then []
    else
      var rest := Matches(ns, ms[1..]);
      assert forall m | m in ms[1..] :: m in ms;
      assert forall m | m in ms :: m == ms[0] || m in ms[1..];
      match StockIndex(ns, ms[0])
      case Some(i) => [Match(ms[0], ns[i].id)] + rest
      case None => rest
  }

  datatype DeleteReview = DeleteReview(found: seq<Match>, notFound: seq<string>, duplicates: seq<string>)

  /** Every match names a stock number with that mobile and id. */
  lemma FoundInStock(ns: seq<NumberRecord>, ms: seq<string>)
    ensures forall f | f in Matches(ns, ms) :: exists x | x in ns :: x.data.mobile == f.mobile && x.id == f.id
  {
    forall f | f in Matches(ns, ms) ensures exists x | x in ns :: x.data.mobile == f.mobile && x.id == f.id {
      var i := StockIndex(ns, f.mobile).value;
      assert ns[i] in ns;
    }
  }

  /** An entry is reported missing exactly when no stock number has it. */
  lemma MissingIffAbsent(ns: seq<NumberRecord>, ms: seq<string>)
    ensures forall m :: m in Seqs.Filter(ms, Missing(ns)) <==> m in ms && forall x | x in ns :: x.data.mobile != m
  {
    forall m ensures m in Seqs.Filter(ms, Missing(ns)) <==> m in ms && forall x | x in ns :: x.data.mobile != m {
      if m in ms && StockIndex(ns, m).Some? {
        var i := StockIndex(ns, m).value;
        assert ns[i] in ns;
      }
      if m in ms && StockIndex(ns, m).None? {
        forall x | x in ns ensures x.data.mobile != m {
          var j :| 0 <= j < |ns| && ns[j] == x;
        }
      }
    }
  }

  /** The delete dialog's review of the entries `es` against the stock list. */
  function ReviewDelete(s: State, es: seq<string>): (r: DeleteReview)
    ensures forall m :: m in r.notFound <==> m in es && forall x | x in s.numbers :: x.data.mobile != m
    ensures forall f | f in r.found :: f.mobile in es && exists x | x in s.numbers :: x.data.mobile == f.mobile && x.id == f.id
    ensures forall m :: m in r.duplicates <==> multiset(es)[m] >= 2
    ensures forall m | m in es && StockIndex(s.numbers, m).Some? :: Match(m, s.numbers[StockIndex(s.numbers, m).value].id) in r.found
    ensures |r.found| + |r.notFound| == |Unique(es)|
    ensures Seqs.NoDuplicates(r.notFound) && Seqs.InFirstOrder(es, r.notFound)
  {
    var u := Unique(es);
    var found := Matches(s.numbers, u);
    Seqs.FilterNoDuplicates(u, Missing(s.numbers));
    Seqs.FilterKeepsFirstOrder(es, u, Missing(s.numbers));
    Seqs.FilterPartition(u, Present(s.numbers), Missing(s.numbers));
    FoundInStock(s.numbers, u);
    MissingIffAbsent(s.numbers, u);
    DeleteReview(found, Seqs.Filter(u, Missing(s.numbers)), InputDuplicates(es))
  }

  /** "Delete": nothing happens when nothing was found. */
  function ConfirmDelete(s: State, review: DeleteReview, role: Role): (r: Step)
    ensures |review.found| == 0 ==> r == Step(s, Ignored)
    ensures |review.found| > 0 ==> r == Deletions.DeleteNumbers(s, Seqs.Map(review.found, MatchId), role)
  {
    if |review.found| == 0 then Step(s, Ignored)
    else Deletions.DeleteNumbers(s, Seqs.Map(review.found, MatchId), role)
  }

  /** With mobiles and ids unique in stock, a stock number's id is picked
      exactly when its mobile was entered. */
  lemma PickedIffEntered(ns: seq<NumberRecord>, es: seq<string>, x: NumberRecord)
    requires Seqs.KeysUnique(ns, NumberMobile) && Seqs.KeysUnique(ns, NumberId)
    requires x in ns
    ensures x.id in Seqs.Map(Matches(ns, Unique(es)), MatchId) <==> x.data.mobile in es
  {
    var k :| 0 <= k < |ns| && ns[k] == x;
    if x.data.mobile in es {
      EnteredPicked(ns, Unique(es), k);
    }
    if x.id in Seqs.Map(Matches(ns, Unique(es)), MatchId) {
      PickedEntered(ns, Unique(es), k);
    }
  }

  /** An entered stock mobile has its number's id picked. */
  lemma EnteredPicked(ns: seq<NumberRecord>, ms: seq<string>, k: nat)
    requires Seqs.KeysUnique(ns, NumberMobile)
    requires k < |ns| && ns[k].data.mobile in ms
    ensures ns[k].id in Seqs.Map(Matches(ns, ms), MatchId)
  {
    var found := Matches(ns, ms);
    Seqs.LastIndexUnique(ns, NumberMobile, k);
    assert StockIndex(ns, ns[k].data.mobile) == Some(k);
    assert Match(ns[k].data.mobile, ns[k].id) in found;
    var j :| 0 <= j < |found| && found[j] == Match(ns[k].data.mobile, ns[k].id);
    assert Seqs.Map(found, MatchId)[j] == ns[k].id;
  }

  /** A picked id belongs to a stock number whose mobile was entered. */
  lemma PickedEntered(ns: seq<NumberRecord>, ms: seq<string>, k: nat)
    requires Seqs.KeysUnique(ns, NumberMobile) && Seqs.KeysUnique(ns, NumberId)
    requires k < |ns| && ns[k].id in Seqs.Map(Matches(ns, ms), MatchId)
    ensures ns[k].data.mobile in ms
  {
    var found := Matches(ns, ms);
    var ids := Seqs.Map(found, MatchId);
    var j :| 0 <= j < |ids| && ids[j] == ns[k].id;
    var f := found[j];
    assert f in found;
    var i := StockIndex(ns, f.mobile).value;
    assert ns[i].id == ns[k].id;
    Seqs.OtherKeysDiffer(ns, NumberId, k);
    assert i == k;
  }

  /** In a valid inventory, an administrator's review-then-delete removes
      exactly the stock numbers whose mobile was entered, and nothing else. */
  lemma ReviewThenDelete(s: State, es: seq<string>)
    requires Valid(s)
    ensures var t := ConfirmDelete(s, ReviewDelete(s, es), Admin).state;
      && (forall x | x in t.numbers :: x in s.numbers)
      && (forall x | x in s.numbers :: x in t.numbers <==> x.data.mobile !in es)
      && t.sales == s.sales && t.portOuts == s.portOuts && t.preBookings == s.preBookings
      && t.dealerPurchases == s.dealerPurchases
  {
    var found := Matches(s.numbers, Unique(es));
    assert ReviewDelete(s, es).found == found;
    StockMobilesUnique(s);
    forall x | x in s.numbers ensures x.id in Seqs.Map(found, MatchId) <==> x.data.mobile in es {
      PickedIffEntered(s.numbers, es, x);
    }
  }
}
