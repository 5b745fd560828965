/** `bulkAddNumbers`: spreadsheet rows are checked one by one, in order,
    against a fixed sequence of checks; the first failing check names the
    reason a row is rejected.  Accepted mobiles join the set of known
    mobiles, so a later row repeating one is a duplicate.  Every accepted
    row is then written in one batch with consecutive serial numbers. */
module BulkImport {
  import opened Wrappers
  import opened Records
  import opened Inventory
  import Seqs
  import Text
  import Serial
  import DigitalRoot
  import Additions
  import Screen

  /** One spreadsheet row, one text cell per column; an absent or empty
      cell is "". */
  datatype RawRow = RawRow(
    mobile: string,
    status: string,
    uploadStatus: string,
    numberType: string,
    ownershipType: string,
    partnerName: string,
    safeCustodyDate: string,
    accountName: string,
    rtsDate: string,
    purchaseDate: string,
    purchasePrice: string,
    salePrice: string,
    purchaseFrom: string,
    currentLocation: string,
    locationType: string,
    notes: string)

  /** A row as the checks read it: the mobile cell and the partner-name
      cell trimmed, the raw row kept for the failure report. */
  datatype Row = Row(raw: RawRow, mobile: string, partnerName: string)

  function Read(raw: RawRow): (r: Row)
    ensures r.raw == raw
    ensures r.mobile == Text.Trim(raw.mobile) && r.partnerName == Text.Trim(raw.partnerName)
  {
    Row(raw, Text.Trim(raw.mobile), Text.Trim(raw.partnerName))
  }

  /** The date parser (any of the accepted formats) and `parseFloat`,
      which the import delegates to; `None` is an invalid date or NaN. */
  datatype Parsers = Parsers(date: string -> Option<Time>, number: string -> Option<real>)

  /** An absent cell never parses. */
  function ParseDate(p: Parsers, raw: string): Option<Time> {
    if raw == "" then None else p.date(raw)
  }

  function ParseNumber(p: Parsers, raw: string): Option<real> {
    if raw == "" then None else p.number(raw)
  }

  /** The rejection reasons, in the order the checks run, and the reason
      given when the batch write fails. */
  datatype Reason =
    | InvalidMobile
    | DuplicateMobile
    | InvalidStatus
    | MissingPartnerName
    | InvalidSafeCustodyDate
    | MissingAccountName
    | InvalidRtsDate
    | InvalidPurchaseDate
    | InvalidPurchasePrice
    | WriteDenied

  const CheckOrder: seq<Reason> := [
    InvalidMobile, DuplicateMobile, InvalidStatus, MissingPartnerName, InvalidSafeCustodyDate,
    MissingAccountName, InvalidRtsDate, InvalidPurchaseDate, InvalidPurchasePrice]

  function Rank(x: Reason): (k: nat)
    ensures x != WriteDenied ==> k < |CheckOrder| && CheckOrder[k] == x
  {
    match x
    case InvalidMobile => 0
    case DuplicateMobile => 1
    case InvalidStatus => 2
    case MissingPartnerName => 3
    case InvalidSafeCustodyDate => 4
    case MissingAccountName => 5
    case InvalidRtsDate => 6
    case InvalidPurchaseDate => 7
    case InvalidPurchasePrice => 8
    case WriteDenied => 9
  }

  // ----- Reading the cells -----

  function RowMobile(row: Row): string { row.mobile }

  function RowStatus(row: Row): Option<RtsStatus> {
    if row.raw.status == "RTS" then Some(RTS) else if row.raw.status == "Non-RTS" then Some(NonRTS) else None
  }

  /** Unrecognised values fall back to a default rather than failing. */
  function RowUploadStatus(row: Row): Progress {
    if row.raw.uploadStatus == "Done" then Done else Pending
  }

  function RowNumberType(row: Row): NumberType {
    if row.raw.numberType == "Postpaid" then Postpaid else if row.raw.numberType == "COCP" then COCP else Prepaid
  }

  function RowOwnership(row: Row): OwnershipType {
    if row.raw.ownershipType == "Partnership" then Partnership else Individual
  }

  function RowLocationType(row: Row): LocationType {
    if row.raw.locationType == "Employee" then Employee else if row.raw.locationType == "Dealer" then Dealer else Store
  }

  function RowPartnerName(row: Row): string { row.partnerName }

  function OrDefault(raw: string, default: string): string {
    if raw == "" then default else raw
  }

  /** `parseFloat` of the sale price, 0 when absent or NaN. */
  function RowSalePrice(row: Row, p: Parsers): real {
    if row.raw.salePrice == "" then 0.0 else p.number(row.raw.salePrice).GetOr(0.0)
  }

  /** Only a Non-RTS row keeps its RTS date. */
  function RowRtsDate(row: Row, p: Parsers): (r: Option<Time>)
    ensures r.Some? ==> RowStatus(row) == Some(NonRTS)
    ensures RowStatus(row) == Some(NonRTS) ==> r == ParseDate(p, row.raw.rtsDate)
  {
    if RowStatus(row) == Some(NonRTS) then ParseDate(p, row.raw.rtsDate) else None
  }

  /** The safe-custody date and account name are stored for COCP only. */
  function RowSafeCustodyDate(row: Row, p: Parsers): (r: Option<Time>)
    ensures r.Some? ==> RowNumberType(row) == COCP
    ensures RowNumberType(row) == COCP ==> r == ParseDate(p, row.raw.safeCustodyDate)
  {
    if RowNumberType(row) == COCP then ParseDate(p, row.raw.safeCustodyDate) else None
  }

  function RowAccountName(row: Row): (r: Option<string>)
    ensures r.Some? <==> RowNumberType(row) == COCP
    ensures r.Some? ==> r.value == row.raw.accountName
  {
    if RowNumberType(row) == COCP then Some(row.raw.accountName) else None
  }

  /** The partner name is stored for partnerships only. */
  function RowPartner(row: Row): (r: Option<string>)
    ensures r.Some? <==> RowOwnership(row) == Partnership
    ensures r.Some? ==> r.value == RowPartnerName(row)
  {
    if RowOwnership(row) == Partnership then Some(RowPartnerName(row)) else None
  }

  /** Whether the check named `x` rejects `row`, given the mobiles already
      known (`seen`). */
  predicate Fails(row: Row, seen: set<string>, p: Parsers, x: Reason) {
    match x
    case InvalidMobile => !Text.IsTenDigits(RowMobile(row))
    case DuplicateMobile => RowMobile(row) in seen
    case InvalidStatus => RowStatus(row).None?
    case MissingPartnerName => RowOwnership(row) == Partnership && RowPartnerName(row) == ""
    case InvalidSafeCustodyDate => RowNumberType(row) == COCP && ParseDate(p, row.raw.safeCustodyDate).None?
    case MissingAccountName => RowNumberType(row) == COCP && row.raw.accountName == ""
    case InvalidRtsDate => RowStatus(row) == Some(NonRTS) && ParseDate(p, row.raw.rtsDate).None?
    case InvalidPurchaseDate => ParseDate(p, row.raw.purchaseDate).None?
    case InvalidPurchasePrice => ParseNumber(p, row.raw.purchasePrice).None?
    case WriteDenied => false
  }

  /** No check rejects the row. */
  predicate Passes(row: Row, seen: set<string>, p: Parsers) {
    && !Fails(row, seen, p, InvalidMobile)
    && !Fails(row, seen, p, DuplicateMobile)
    && !Fails(row, seen, p, InvalidStatus)
    && !Fails(row, seen, p, MissingPartnerName)
    && !Fails(row, seen, p, InvalidSafeCustodyDate)
    && !Fails(row, seen, p, MissingAccountName)
    && !Fails(row, seen, p, InvalidRtsDate)
    && !Fails(row, seen, p, InvalidPurchaseDate)
    && !Fails(row, seen, p, InvalidPurchasePrice)
  }

  lemma PassesIffNoCheckFails(row: Row, seen: set<string>, p: Parsers)
    ensures Passes(row, seen, p) <==> forall x: Reason :: !Fails(row, seen, p, x)
  {
    if Passes(row, seen, p) {
      forall x: Reason ensures !Fails(row, seen, p, x) {
        match x
        case WriteDenied =>
        case _ =>
      }
    }
  }

  datatype Checked = Accept(data: NumberData) | Reject(reason: Reason)

  /** The record built from a row that passes every check; the serial
      number is given when the batch is written. */
  function Build(row: Row, p: Parsers, actor: Actor): (d: NumberData)
    requires RowStatus(row).Some?
    requires ParseDate(p, row.raw.purchaseDate).Some? && ParseNumber(p, row.raw.purchasePrice).Some?
    requires RowStatus(row) == Some(NonRTS) ==> ParseDate(p, row.raw.rtsDate).Some?
    requires RowNumberType(row) == COCP ==> ParseDate(p, row.raw.safeCustodyDate).Some? && row.raw.accountName != ""
    requires RowOwnership(row) == Partnership ==> RowPartnerName(row) != ""
    ensures d.mobile == RowMobile(row) && d.srNo.None?
    ensures Some(d.status) == RowStatus(row)
    ensures d.sum == DigitalRoot.CalculateDigitalRoot(d.mobile)
    ensures d.rtsDate.Some? <==> d.status == NonRTS
    ensures d.safeCustodyDate.Some? <==> d.numberType == COCP
    ensures d.accountName.Some? <==> d.numberType == COCP
    ensures d.accountName.Some? ==> d.accountName.value != ""
    ensures d.partnerName.Some? <==> d.ownershipType == Partnership
    ensures d.partnerName.Some? ==> d.partnerName.value != ""
    ensures d.name == ActorName(actor) && d.assignedTo == ActorName(actor) && d.createdBy == actor.uid
    ensures d.purchaseFrom != "" && d.currentLocation != ""
  {
    var status := RowStatus(row).value;
    var numberType := RowNumberType(row);
    var ownership := RowOwnership(row);
    var owner := ActorName(actor);
    var mobile := RowMobile(row);
    NumberData(
      srNo := None,
      mobile := mobile,
      sum := DigitalRoot.CalculateDigitalRoot(mobile),
      status := status,
      uploadStatus := RowUploadStatus(row),
      numberType := numberType,
      purchaseFrom := OrDefault(row.raw.purchaseFrom, "N/A"),
      purchasePrice := ParseNumber(p, row.raw.purchasePrice).value,
      salePrice := RowSalePrice(row, p),
      rtsDate := RowRtsDate(row, p),
      name := owner,
      upcStatus := UpcPending,
      currentLocation := OrDefault(row.raw.currentLocation, "N/A"),
      locationType := RowLocationType(row),
      assignedTo := owner,
      purchaseDate := ParseDate(p, row.raw.purchaseDate).value,
      notes := Some(row.raw.notes),
      checkInDate := None,
      safeCustodyDate := RowSafeCustodyDate(row, p),
      safeCustodyNotificationSent := false,
      createdBy := actor.uid,
      accountName := RowAccountName(row),
      ownershipType := ownership,
      partnerName := RowPartner(row))
  }

  /** What a passing row guarantees about its cells. */
  lemma PassesParses(row: Row, seen: set<string>, p: Parsers)
    requires Passes(row, seen, p)
    ensures RowStatus(row).Some?
    ensures ParseDate(p, row.raw.purchaseDate).Some? && ParseNumber(p, row.raw.purchasePrice).Some?
    ensures RowStatus(row) == Some(NonRTS) ==> ParseDate(p, row.raw.rtsDate).Some?
    ensures RowNumberType(row) == COCP ==> ParseDate(p, row.raw.safeCustodyDate).Some? && row.raw.accountName != ""
    ensures RowOwnership(row) == Partnership ==> RowPartnerName(row) != ""
  {
  }

  /** The checks of one row, run in order, stopping at the first failure. */
  function FirstFailure(row: Row, seen: set<string>, p: Parsers): (r: Option<Reason>)
    ensures r.None? ==> Text.IsTenDigits(RowMobile(row)) && RowMobile(row) !in seen
    ensures r.None? ==> RowStatus(row).Some?
    ensures r.None? ==> ParseDate(p, row.raw.purchaseDate).Some? && ParseNumber(p, row.raw.purchasePrice).Some?
    ensures r.None? ==> (RowStatus(row) == Some(NonRTS) ==> ParseDate(p, row.raw.rtsDate).Some?)
    ensures r.None? ==> (RowNumberType(row) == COCP ==> ParseDate(p, row.raw.safeCustodyDate).Some? && row.raw.accountName != "")
    ensures r.None? ==> (RowOwnership(row) == Partnership ==> RowPartnerName(row) != "")
    ensures r.Some? ==> r.value != WriteDenied
  {
    var mobile := RowMobile(row);
    var numberType := RowNumberType(row);
    if !Text.IsTenDigits(mobile) then Some(InvalidMobile)
    else if mobile in seen then Some(DuplicateMobile)
    else if RowStatus(row).None? then Some(InvalidStatus)
    else if RowOwnership(row) == Partnership && RowPartnerName(row) == "" then Some(MissingPartnerName)
    else if numberType == COCP && ParseDate(p, row.raw.safeCustodyDate).None? then Some(InvalidSafeCustodyDate)
    else if numberType == COCP && row.raw.accountName == "" then Some(MissingAccountName)
    else if RowStatus(row) == Some(NonRTS) && ParseDate(p, row.raw.rtsDate).None? then Some(InvalidRtsDate)
    else if ParseDate(p, row.raw.purchaseDate).None? then Some(InvalidPurchaseDate)
    else if ParseNumber(p, row.raw.purchasePrice).None? then Some(InvalidPurchasePrice)
    else None
  }

  /** The row passes exactly when no check fails, and otherwise the reported
      reason is a failing check with no failing check before it. */
  lemma FirstFailureIsFirst(row: Row, seen: set<string>, p: Parsers)
    ensures var r := FirstFailure(row, seen, p);
      && (r.None? <==> Passes(row, seen, p))
      && (r.Some? ==> Fails(row, seen, p, r.value))
      && (r.Some? ==> forall x: Reason | Rank(x) < Rank(r.value) :: !Fails(row, seen, p, x))
  {
    var r := FirstFailure(row, seen, p);
    if r.Some? {
      forall x: Reason | Rank(x) < Rank(r.value) ensures !Fails(row, seen, p, x) {
        match x
        case InvalidMobile =>
        case DuplicateMobile =>
        case InvalidStatus =>
        case MissingPartnerName =>
        case InvalidSafeCustodyDate =>
        case MissingAccountName =>
        case InvalidRtsDate =>
        case InvalidPurchaseDate =>
        case InvalidPurchasePrice =>
        case WriteDenied =>
      }
    }
  }

  /** `FirstFailure`, building the record when there is none. */
  function Validate(row: Row, seen: set<string>, p: Parsers, actor: Actor): (r: Checked)
    ensures r.Accept? <==> FirstFailure(row, seen, p).None?
    ensures r.Reject? ==> Some(r.reason) == FirstFailure(row, seen, p)
    ensures r.Accept? ==> r.data.mobile == RowMobile(row) && r.data.mobile !in seen && Text.IsTenDigits(r.data.mobile)
    ensures r.Accept? ==> r.data.srNo.None?
    ensures r.Reject? ==> r.reason != WriteDenied
  {
    match FirstFailure(row, seen, p)
    case None => Accept(Build(row, p, actor))
    case Some(x) => Reject(x)
  }

  /** A rejected row, or an accepted record the batch write failed to store. */
  datatype Failed = Rejected(row: RawRow, reason: Reason) | NotWritten(record: NumberData)

  function DataMobile(d: NumberData): string { d.mobile }

  datatype Scanned = Scanned(valid: seq<NumberData>, failed: seq<Failed>)

  /** The loop over the rows: accepted mobiles are added to `seen`. */
  function Scan(rows: seq<Row>, seen: set<string>, p: Parsers, actor: Actor): (r: Scanned)
    ensures |r.valid| + |r.failed| == |rows|
    ensures forall d | d in r.valid :: d.mobile !in seen && Text.IsTenDigits(d.mobile) && d.srNo.None?
    ensures forall f | f in r.failed :: f.Rejected? && f.reason != WriteDenied
    decreases |rows|
  {
    if |rows| == 0 then Scanned([], [])
    else
      var row := rows[0];
      var rest := rows[1..];
      match Validate(row, seen, p, actor)
      case Accept(d) =>
        var tail := Scan(rest, seen + {d.mobile}, p, actor);
        Scanned([d] + tail.valid, tail.failed)
      case Reject(x) =>
        var tail := Scan(rest, seen, p, actor);
        Scanned(tail.valid, [Rejected(row.raw, x)] + tail.failed)
  }

  /** A record whose mobile none of `tail` has keeps the mobiles distinct. */
  lemma ConsDistinct(d: NumberData, tail: seq<NumberData>)
    requires Seqs.NoDuplicates(Seqs.Map(tail, DataMobile))
    requires forall x | x in tail :: x.mobile != d.mobile
    ensures Seqs.NoDuplicates(Seqs.Map([d] + tail, DataMobile))
  {
    var tm := Seqs.Map(tail, DataMobile);
    assert Seqs.Map([d] + tail, DataMobile) == [d.mobile] + tm;
    assert d.mobile !in tm by {
      forall i | 0 <= i < |tail| ensures tm[i] != d.mobile {
        assert tail[i] in tail;
      }
    }
    Seqs.NoDuplicatesCons(d.mobile, tm);
  }

  /** No two accepted rows share a mobile. */
  lemma {:induction false} ScanDistinct(rows: seq<Row>, seen: set<string>, p: Parsers, actor: Actor)
    ensures Seqs.NoDuplicates(Seqs.Map(Scan(rows, seen, p, actor).valid, DataMobile))
    decreases |rows|
  {
    if |rows| > 0 {
      match Validate(rows[0], seen, p, actor)
      case Accept(d) =>
        ScanDistinct(rows[1..], seen + {d.mobile}, p, actor);
        ConsDistinct(d, Scan(rows[1..], seen + {d.mobile}, p, actor).valid);
      case Reject(_) =>
        ScanDistinct(rows[1..], seen, p, actor);
    }
  }

  // ----- The loop, row by row -----

  function RejectRow(row: Row, x: Reason): Failed { Rejected(row.raw, x) }

  function ToVerdict(c: Checked): Screen.Verdict<NumberData, Reason> {
    match c
    case Accept(d) => Screen.Keep(d)
    case Reject(x) => Screen.Drop(x)
  }

  /** The checks of one row as a screening step. */
  function Checker(p: Parsers, actor: Actor): (Row, set<string>) -> Screen.Verdict<NumberData, Reason> {
    (row: Row, seen: set<string>) => ToVerdict(Validate(row, seen, p, actor))
  }

  /** `Scan` is the generic screening loop run with the row checks. */
  lemma {:induction false} ScanIsRun(rows: seq<Row>, seen: set<string>, p: Parsers, actor: Actor)
    ensures var r := Screen.Run(rows, seen, Checker(p, actor), DataMobile, RejectRow);
      Scan(rows, seen, p, actor) == Scanned(r.kept, r.dropped)
    decreases |rows|
  {
    if |rows| > 0 {
      match Validate(rows[0], seen, p, actor)
      case Accept(d) =>
        ScanIsRun(rows[1..], seen + {d.mobile}, p, actor);
      case Reject(_) =>
        ScanIsRun(rows[1..], seen, p, actor);
    }
  }

  /** The mobiles known when row `i` is checked: those known at the start
      and those of the rows accepted before it. */
  function Known(rows: seq<Row>, seen: set<string>, p: Parsers, actor: Actor, i: nat): (r: set<string>)
    requires i <= |rows|
    ensures seen <= r
  {
    seen + Screen.Keys(Scan(rows[..i], seen, p, actor).valid, DataMobile)
  }

  lemma KnownIsScreenKnown(rows: seq<Row>, seen: set<string>, p: Parsers, actor: Actor, i: nat)
    requires i <= |rows|
    ensures Known(rows, seen, p, actor, i) == Screen.Known(rows, seen, Checker(p, actor), DataMobile, RejectRow, i)
  {
    ScanIsRun(rows[..i], seen, p, actor);
  }

  /** Row `i` checked against the mobiles known at that point. */
  function Verdict(rows: seq<Row>, seen: set<string>, p: Parsers, actor: Actor, i: nat): Checked
    requires i < |rows|
  {
    Validate(rows[i], Known(rows, seen, p, actor, i), p, actor)
  }

  /** The loop read row by row, as written: row `i` appends its record to
      the valid list when no check fails against the mobiles known so far,
      and otherwise appends the row with its first failing reason to the
      failed list. */
  lemma ScanRow(rows: seq<Row>, seen: set<string>, p: Parsers, actor: Actor, i: nat)
    requires i < |rows|
    ensures var before := Scan(rows[..i], seen, p, actor);
      var after := Scan(rows[..i + 1], seen, p, actor);
      var v := Verdict(rows, seen, p, actor, i);
      && (v.Accept? <==> FirstFailure(rows[i], Known(rows, seen, p, actor, i), p).None?)
      && after.valid == before.valid + (if v.Accept? then [v.data] else [])
      && after.failed == before.failed + (if v.Accept? then [] else [Rejected(rows[i].raw, v.reason)])
  {
    ScanIsRun(rows[..i], seen, p, actor);
    ScanIsRun(rows[..i + 1], seen, p, actor);
    KnownIsScreenKnown(rows, seen, p, actor, i);
    Screen.RunRow(rows, seen, Checker(p, actor), DataMobile, RejectRow, i);
  }

  /** A mobile accepted at row `j` makes every later row with the same
      mobile a duplicate. */
  lemma LaterRepeatRejected(rows: seq<Row>, seen: set<string>, p: Parsers, actor: Actor, j: nat, i: nat)
    requires j < i < |rows|
    requires Verdict(rows, seen, p, actor, j).Accept?
    requires RowMobile(rows[i]) == RowMobile(rows[j])
    ensures Verdict(rows, seen, p, actor, i) == Reject(DuplicateMobile)
  {
    KnownIsScreenKnown(rows, seen, p, actor, j);
    KnownIsScreenKnown(rows, seen, p, actor, i);
    Screen.KeptStaysKnown(rows, seen, Checker(p, actor), DataMobile, RejectRow, j, i);
  }

  // ----- The batch -----

  /** Writes the records with serial numbers `srNo`, `srNo + 1`, ... */
  function Commit(s: State, valid: seq<NumberData>, srNo: int): State
    decreases |valid|
  {
    if |valid| == 0 then s
    else Commit(Additions.AddOne(s, valid[0].(srNo := Some(srNo))), valid[1..], srNo + 1)
  }

  datatype BulkAdd = BulkAdd(state: State, validRecords: seq<NumberData>, failedRecords: seq<Failed>)

  function NotWrittenAll(valid: seq<NumberData>): (r: seq<Failed>)
    ensures |r| == |valid|
    ensures forall i | 0 <= i < |valid| :: r[i] == NotWritten(valid[i])
  {
    seq(|valid|, i requires 0 <= i < |valid| => NotWritten(valid[i]))
  }

  function KnownMobiles(s: State): (r: set<string>)
    ensures forall m :: m in r <==> m in AllMobiles(s)
  {
    set m | m in AllMobiles(s)
  }

  /** `bulkAddNumbers`.  `committed` is whether the batch write succeeds.
      When it fails, nothing is stored and each accepted record is also
      reported as failed, yet the accepted records are still returned as
      valid. */
  function BulkAddRows(s: State, rows: seq<Row>, p: Parsers, actor: Actor, committed: bool): (r: BulkAdd)
    ensures r.validRecords == Scan(rows, KnownMobiles(s), p, actor).valid
    ensures committed ==> r.failedRecords == Scan(rows, KnownMobiles(s), p, actor).failed
    ensures !committed ==> r.failedRecords == Scan(rows, KnownMobiles(s), p, actor).failed + NotWrittenAll(r.validRecords)
    ensures (!committed || |r.validRecords| == 0) ==> r.state == s
    ensures committed ==> r.state == Commit(s, r.validRecords, Serial.NextSrNo(Additions.NumberSrNos(s)))
    ensures forall d | d in r.validRecords :: d.mobile !in AllMobiles(s) && Text.IsTenDigits(d.mobile)
    ensures Seqs.NoDuplicates(Seqs.Map(r.validRecords, DataMobile))
    ensures committed ==> |r.validRecords| + |r.failedRecords| == |rows|
    ensures !committed ==>
      && |r.failedRecords| == |rows|
      && forall d | d in r.validRecords :: NotWritten(d) in r.failedRecords
  {
    var scan := Scan(rows, KnownMobiles(s), p, actor);
    ScanDistinct(rows, KnownMobiles(s), p, actor);
    if |scan.valid| == 0 then BulkAdd(s, [], scan.failed)
    else if committed then BulkAdd(Commit(s, scan.valid, Serial.NextSrNo(Additions.NumberSrNos(s))), scan.valid, scan.failed)
    else
      var lost := NotWrittenAll(scan.valid);
      assert forall d | d in scan.valid :: NotWritten(d) in lost by {
        forall d | d in scan.valid ensures NotWritten(d) in lost {
          var i :| 0 <= i < |scan.valid| && scan.valid[i] == d;
          assert lost[i] == NotWritten(d);
        }
      }
      BulkAdd(s, scan.valid, scan.failed + lost)
  }

  /** `ns` hold the accepted rows `valid`, in order, numbered consecutively
      from `srNo`. */
  predicate Committed(ns: seq<NumberRecord>, valid: seq<NumberData>, srNo: int)
    decreases |valid|
  {
    && |ns| == |valid|
    && (|valid| > 0 ==>
          && ns[0].data == valid[0].(srNo := Some(srNo))
          && Committed(ns[1..], valid[1..], srNo + 1))
  }

  lemma {:induction false} CommittedIndex(ns: seq<NumberRecord>, valid: seq<NumberData>, srNo: int)
    requires Committed(ns, valid, srNo)
    ensures forall i | 0 <= i < |valid| :: ns[i].data == valid[i].(srNo := Some(srNo + i))
    decreases |valid|
  {
    if |valid| > 0 {
      CommittedIndex(ns[1..], valid[1..], srNo + 1);
      forall i | 0 < i < |valid| ensures ns[i].data == valid[i].(srNo := Some(srNo + i)) {
        assert ns[i] == ns[1..][i - 1] && valid[i] == valid[1..][i - 1];
      }
    }
  }

  /** One stock record per accepted row, in order, numbered consecutively. */
  lemma {:induction false} CommitShape(s: State, valid: seq<NumberData>, srNo: int)
    ensures var t := Commit(s, valid, srNo);
      && |t.numbers| == |s.numbers| + |valid|
      && t.numbers[..|s.numbers|] == s.numbers
      && Committed(t.numbers[|s.numbers|..], valid, srNo)
      && t == s.(numbers := t.numbers)
    decreases |valid|
  {
    if |valid| > 0 {
      var s1 := Additions.AddOne(s, valid[0].(srNo := Some(srNo)));
      var t := Commit(s1, valid[1..], srNo + 1);
      assert t == Commit(s, valid, srNo);
      CommitShape(s1, valid[1..], srNo + 1);
      assert t.numbers[..|s.numbers|] == s.numbers by {
        assert t.numbers[..|s1.numbers|] == s1.numbers;
        assert s1.numbers[..|s.numbers|] == s.numbers;
      }
      var tail := t.numbers[|s.numbers|..];
      assert tail[0] == s1.numbers[|s.numbers|];
      assert tail[1..] == t.numbers[|s1.numbers|..];
    } else {
      assert s.numbers[|s.numbers|..] == [];
    }
  }

  /** Adding the first accepted row keeps the invariant and leaves the rest
      distinct and new. */
  lemma CommitStep(s: State, valid: seq<NumberData>, srNo: int)
    requires Valid(s)
    requires |valid| > 0
    requires Seqs.NoDuplicates(Seqs.Map(valid, DataMobile))
    requires forall d | d in valid :: d.mobile !in AllMobiles(s)
    ensures var s1 := Additions.AddOne(s, valid[0].(srNo := Some(srNo)));
      && Valid(s1)
      && multiset(AllMobiles(s1)) == multiset(AllMobiles(s)) + multiset{valid[0].mobile}
      && Seqs.NoDuplicates(Seqs.Map(valid[1..], DataMobile))
      && (forall d | d in valid[1..] :: d.mobile !in AllMobiles(s1))
      && multiset(Seqs.Map(valid, DataMobile)) == multiset{valid[0].mobile} + multiset(Seqs.Map(valid[1..], DataMobile))
  {
    var d0, rest := valid[0], valid[1..];
    assert d0 in valid;
    var data := d0.(srNo := Some(srNo));
    var s1 := Additions.AddOne(s, data);
    Additions.AddOneKeepsValid(s, data);
    var ms, mr := Seqs.Map(valid, DataMobile), Seqs.Map(rest, DataMobile);
    assert ms == [d0.mobile] + mr;
    Seqs.NoDuplicatesCons(d0.mobile, mr);
    var m0, m1 := multiset(AllMobiles(s)), multiset(AllMobiles(s1));
    assert m1 == m0 + multiset{d0.mobile};
    forall d | d in rest ensures d.mobile !in AllMobiles(s1) {
      var i :| 0 <= i < |rest| && rest[i] == d;
      assert valid[i + 1] == d;
      assert mr[i] == d.mobile;
      assert d.mobile != d0.mobile;
      assert d.mobile !in m0;
      assert d.mobile !in m1;
    }
  }

  /** Writing distinct new mobiles keeps the inventory invariant. */
  lemma {:induction false} CommitKeepsValid(s: State, valid: seq<NumberData>, srNo: int)
    requires Valid(s)
    requires Seqs.NoDuplicates(Seqs.Map(valid, DataMobile))
    requires forall d | d in valid :: d.mobile !in AllMobiles(s)
    ensures var t := Commit(s, valid, srNo);
      Valid(t) && multiset(AllMobiles(t)) == multiset(AllMobiles(s)) + multiset(Seqs.Map(valid, DataMobile))
    decreases |valid|
  {
    if |valid| > 0 {
      var s1 := Additions.AddOne(s, valid[0].(srNo := Some(srNo)));
      CommitStep(s, valid, srNo);
      CommitKeepsValid(s1, valid[1..], srNo + 1);
      assert Commit(s, valid, srNo) == Commit(s1, valid[1..], srNo + 1);
    } else {
      assert Seqs.Map(valid, DataMobile) == [];
    }
  }

  /** The import keeps every mobile in one place and adds exactly the
      accepted mobiles, each under a new serial number. */
  lemma BulkAddRowsKeepsValid(s: State, rows: seq<Row>, p: Parsers, actor: Actor, committed: bool)
    requires Valid(s)
    ensures var r := BulkAddRows(s, rows, p, actor, committed);
      && Valid(r.state)
      && (committed ==> multiset(AllMobiles(r.state)) == multiset(AllMobiles(s)) + multiset(Seqs.Map(r.validRecords, DataMobile)))
  {
    var r := BulkAddRows(s, rows, p, actor, committed);
    if committed && |r.validRecords| > 0 {
      CommitKeepsValid(s, r.validRecords, Serial.NextSrNo(Additions.NumberSrNos(s)));
    }
  }

  /** The stored serial numbers continue after the largest existing one. */
  lemma BulkAddRowsSerials(s: State, rows: seq<Row>, p: Parsers, actor: Actor)
    ensures var r := BulkAddRows(s, rows, p, actor, true);
      var start := Serial.NextSrNo(Additions.NumberSrNos(s));
      && |r.state.numbers| == |s.numbers| + |r.validRecords|
      && r.state.numbers[..|s.numbers|] == s.numbers
      && Committed(r.state.numbers[|s.numbers|..], r.validRecords, start)
  {
    var r := BulkAddRows(s, rows, p, actor, true);
    var start := Serial.NextSrNo(Additions.NumberSrNos(s));
    assert r.state == Commit(s, r.validRecords, start);
    CommitShape(s, r.validRecords, start);
  }

  /** `bulkAddNumbers`: the rows are read (trimmed) and then checked and
      written as above. */
  function BulkAddNumbers(s: State, raws: seq<RawRow>, p: Parsers, actor: Actor, committed: bool): (r: BulkAdd)
    ensures r.validRecords == Scan(Seqs.Map(raws, Read), KnownMobiles(s), p, actor).valid
    ensures committed ==> r.failedRecords == Scan(Seqs.Map(raws, Read), KnownMobiles(s), p, actor).failed
    ensures !committed ==>
      r.failedRecords == Scan(Seqs.Map(raws, Read), KnownMobiles(s), p, actor).failed + NotWrittenAll(r.validRecords)
    ensures (!committed || |r.validRecords| == 0) ==> r.state == s
    ensures forall d | d in r.validRecords :: d.mobile !in AllMobiles(s) && Text.IsTenDigits(d.mobile)
    ensures Seqs.NoDuplicates(Seqs.Map(r.validRecords, DataMobile))
    ensures committed ==> |r.validRecords| + |r.failedRecords| == |raws|
    ensures !committed ==>
      && |r.failedRecords| == |raws|
      && forall d | d in r.validRecords :: NotWritten(d) in r.failedRecords
  {
    BulkAddRows(s, Seqs.Map(raws, Read), p, actor, committed)
  }

  /** The import keeps every mobile in one place and, when the write
      succeeds, adds exactly the accepted mobiles. */
  lemma BulkAddNumbersKeepsValid(s: State, raws: seq<RawRow>, p: Parsers, actor: Actor, committed: bool)
    requires Valid(s)
    ensures var r := BulkAddNumbers(s, raws, p, actor, committed);
      && Valid(r.state)
      && (committed ==> multiset(AllMobiles(r.state)) == multiset(AllMobiles(s)) + multiset(Seqs.Map(r.validRecords, DataMobile)))
  {
    BulkAddRowsKeepsValid(s, Seqs.Map(raws, Read), p, actor, committed);
  }

  /** The stored records are the accepted ones, in row order, with serial
      numbers continuing after the largest existing one. */
  lemma BulkAddNumbersSerials(s: State, raws: seq<RawRow>, p: Parsers, actor: Actor)
    ensures var r := BulkAddNumbers(s, raws, p, actor, true);
      var start := Serial.NextSrNo(Additions.NumberSrNos(s));
      && |r.state.numbers| == |s.numbers| + |r.validRecords|
      && r.state.numbers[..|s.numbers|] == s.numbers
      && Committed(r.state.numbers[|s.numbers|..], r.validRecords, start)
  {
    BulkAddRowsSerials(s, Seqs.Map(raws, Read), p, actor);
  }
}
