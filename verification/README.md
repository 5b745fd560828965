# Phone-number inventory lifecycle — a Dafny model

This project models the lifecycle core of a phone-number ("SIM") inventory tracker.

- **The lifecycle.** A mobile number is bought into stock, or recorded as a dealer purchase. It can be pre-booked, sold, and finally ported out. A sale or pre-booking can be cancelled back into stock.
- **The invariant.** Every move keeps each mobile number in at most one of the five collections: numbers, sales, port-outs, dealer purchases and pre-bookings.
- **The shared state.** The application state layer (`src/context/app-context.tsx`) holds the collections and the transitions between them. It also holds:
  - the serial-number allocator;
  - the duplicate check;
  - the snapshot sanitiser;
  - the activity-description builder;
  - the three background sweeps: RTS promotion, safe-custody flagging and reminder pruning;
  - the bulk spreadsheet import with its row validation.
- **The digit sum.** `calculateDigitalRoot` (`src/lib/utils.ts`) computes the "sum" shown next to every number.
- **The review dialogs.** Two dialogs partition a pasted list of mobiles before any change:
  - `add-numbers-review-modal.tsx` sorts them into valid, invalid, already held and repeated;
  - `bulk-delete-numbers-modal.tsx` sorts them into found, not found and repeated.

## How the model is built

- **State.** The store's collections are an immutable `Inventory.State` of five sequences. These mirror the live, ordered snapshots the code iterates over.
- **Operations.** Every operation is a pure function. It returns a `Step`, which is the new state plus an `Outcome`:
  - the mobiles the activity log would list, and how many selected records were skipped; or
  - why nothing happened: not found, missing snapshot, nothing eligible, blocked by N records, permission denied, duplicate, or nothing to do.
- **The invariant.** `Inventory.Valid` holds when:
  - the mobiles across all five collections are pairwise distinct;
  - document ids are unique within each collection;
  - every stored snapshot agrees with the record that holds it.

  Each transition has a `…KeepsValid` lemma. For the moves between collections, that lemma also proves the multiset of held mobiles is unchanged.
- **Document ids.** Ids the store would mint are modelled by `Inventory.FreshId`, which picks an id not used in the collection.
- **Parameters.** The actor, the clock (`now`, the start of today, the start of tomorrow), the date and number parsers, and whether the batch write succeeds are all passed in as parameters.

Module layout, in dependency order:

- **Support modules:**
  - `wrappers.dfy` holds `Option`.
  - `seqs.dfy` holds generic sequence functions: map, filter, remove-by-key, deduplicate, and first and last index.
  - `records.dfy` holds the record types.
  - `digital_root.dfy` computes the digit sum.
  - `serial.dfy` allocates serial numbers.
  - `text.dfy` handles trimming, tokenizing, joining and decimal strings.
  - `screen.dfy` states, once for any check, a loop that screens items one at a time against the keys kept so far.
- **The state:** `inventory.dfy` defines the state, the invariant and the duplicate check.
- **Helpers:** `sanitize.dfy` holds the snapshot sanitiser, and `description.dfy` builds activity descriptions.
- **Lifecycle operations:**
  - `additions.dfy`
  - `deletions.dfy`
  - `review.dfy` (the two dialogs)
  - `bulk_import.dfy`
  - `sales.dfy`
  - `port_out.dfy`
  - `pre_booking.dfy`
  - `sweeps.dfy`

## Model

| member | source | states |
|---|---|---|
| DigitalRoot.Settle | src/lib/utils.ts:14-20 | the repeated digit-summing loop ends at a value of at most 9 that has the same residue modulo 9 as its start, and is at least 1 for a positive start |
| DigitalRoot.LoopStep | src/lib/utils.ts:14-20 | one pass of the loop strictly decreases a sum above 9, keeps it positive and keeps its residue modulo 9 (why the loop terminates) |
| DigitalRoot.DecimalDigitSumMod9 | src/lib/utils.ts:15-19 | summing the decimal digits of a number preserves its residue modulo 9 |
| DigitalRoot.CalculateDigitalRoot | src/lib/utils.ts:8-23 | the result is at most 9, equals the first-pass sum when that is at most 9, and is at least 1 whenever some digit is non-zero |
| DigitalRoot.DigitalRootClosedForm | src/lib/utils.ts:8-23 | for a positive first-pass sum s the result is 1 + (s - 1) mod 9 |
| DigitalRoot.SettleClosedForm | src/lib/utils.ts:14-20 | the loop's result in closed form |
| DigitalRoot.AllZerosGiveZero | src/lib/utils.ts:8-23 | a mobile made only of zeros, or an empty one, has digit sum 0 |
| DigitalRoot.TenNines | src/lib/utils.ts:8-23 | "9999999999" sums to 90 and then to 9 |
| Serial.Max | src/context/app-context.tsx:51-57 | the maximum is an element of the list and bounds every element |
| Serial.NextSrNo | src/context/app-context.tsx:51-57 | the next serial is 1 for an empty collection, exceeds every existing serial (missing ones count as 0), and is exactly one more than the largest |
| Serial.NextSrNoGrows | src/context/app-context.tsx:51-57 | after a record takes the next serial, the following allocation is one higher |
| Sanitize.Sanitize | src/context/app-context.tsx:68-88 | the result holds no undefined value at any depth and, at every depth, keeps the input's shape: undefined and null become null, primitives and instants are unchanged, arrays keep their length and objects their keys in order, element by element |
| Sanitize.SanitizeKeepsDefined | src/context/app-context.tsx:68-88 | a value without undefined parts is returned unchanged |
| Sanitize.SanitizeIdempotent | src/context/app-context.tsx:68-88 | sanitising twice is the same as sanitising once |
| Sanitize.SanitizeFixedPoints | src/context/app-context.tsx:68-88 | a value is left unchanged exactly when it holds no undefined part |
| Description.CreateDetailedDescription | src/context/app-context.tsx:90-95 | the description starts with the base text and the count, ends with a full stop, and for no numbers is the base text plus " 0 numbers." |
| Description.DescriptionListsEveryNumber | src/context/app-context.tsx:90-95 | every affected mobile appears verbatim in the description |
| Text.NatToStringValue | src/context/app-context.tsx:94 | the decimal rendering of the count reads back as the same number |
| Inventory.IsMobileNumberDuplicate | src/context/app-context.tsx:369-382 | a reported duplicate is a non-empty mobile that is held somewhere |
| Inventory.DuplicateIffHeldElsewhere | src/context/app-context.tsx:369-382 | the check reports a duplicate exactly when the mobile is non-empty and some record in one of the five collections, other than the one being edited, holds it |
| Inventory.DuplicateIffHeld | src/context/app-context.tsx:369-382 | with no record being edited, a mobile is a duplicate exactly when it is non-empty and held anywhere |
| Inventory.HoldsAppend | src/context/app-context.tsx:372-380 | scanning the five collections in turn finds a holder exactly when one of them holds it |
| Inventory.StockMobilesUnique | src/context/app-context.tsx:369-382 | under global uniqueness no two stock records share a mobile |
| Text.Trim | src/components/add-numbers-review-modal.tsx:43 | the result has no white space at either end and is `s[lo..hi]` for some `lo <= hi` with only white space before `lo` and after `hi` |
| Text.TrimUnique | src/components/add-numbers-review-modal.tsx:43 | any trimmed piece of the text with only white space around it is the trimmed text, so the two facts above pin the result down |
| Text.TrimOfTrimmed | src/components/add-numbers-review-modal.tsx:43 | trimming already-trimmed text changes nothing |
| Text.Fields | src/components/add-numbers-review-modal.tsx:42 | splitting on single commas and newlines gives one more field than there are separators, no field holds a separator, and weaving the fields back together with the separators in order gives the input again |
| Text.SplitRuns | src/components/add-numbers-review-modal.tsx:42 | splitting on maximal runs of separators gives fields free of separators, of which only the first and the last can be empty, and the first is non-empty when the text starts with a non-separator |
| Text.SplitRunsAgree | src/components/add-numbers-review-modal.tsx:42-44 | splitting on runs and on single separators give the same first field and, once trimmed and filtered, the same remaining tokens |
| Text.TokenizeByFields | src/components/add-numbers-review-modal.tsx:41-45 | tokenizing, which splits on runs, equals trimming and filtering the single-separator fields |
| Text.FieldsSplit | src/components/add-numbers-review-modal.tsx:42 | a separator splits the fields into the fields before it followed by the fields after it |
| Text.TokenizeSplit | src/components/add-numbers-review-modal.tsx:41-45 | a comma or newline splits the tokens into the tokens before it followed by the tokens after it |
| Text.TokenizePiece | src/components/add-numbers-review-modal.tsx:41-45 | text without a separator gives exactly one token, its trimmed self, unless that is empty, when it gives none |
| Text.NonEmptyAppend | src/components/add-numbers-review-modal.tsx:44 | filtering a concatenation is concatenating the filtered parts |
| Text.NonEmpty | src/components/add-numbers-review-modal.tsx:44 | the filter keeps exactly the non-empty entries |
| Text.Tokenize | src/components/add-numbers-review-modal.tsx:41-45 | every token is non-empty, trimmed and free of separators |
| Text.TokenizeJoin | src/components/add-numbers-review-modal.tsx:41-45 | joining clean tokens with commas and tokenizing the result gives the tokens back |
| Text.FieldsOfJoin | src/components/bulk-delete-numbers-modal.tsx:34 | splitting a comma-joined list of separator-free pieces gives the pieces back |
| Text.JoinedElementsAppear | src/context/app-context.tsx:94 | every element of a joined list appears in the joined text |
| Review.Unique | src/components/add-numbers-review-modal.tsx:47 | the de-duplicated list holds exactly the entered mobiles, once each |
| Review.InputDuplicates | src/components/add-numbers-review-modal.tsx:49-65 | the repeated-entries list holds, once each, exactly the mobiles entered at least twice |
| Review.ReviewAdd | src/components/add-numbers-review-modal.tsx:51-65 | a mobile is valid iff it was entered, has ten digits and is held nowhere; invalid iff entered without ten digits; already held iff entered with ten digits and held; each list has no repeats and lists its mobiles in the order of their first entry |
| Review.ReviewAddPartition | src/components/add-numbers-review-modal.tsx:51-63 | the three lists together are a permutation of the distinct entries |
| Review.ConfirmAdd | src/components/add-numbers-review-modal.tsx:70-79 | saving does nothing for an empty valid list; otherwise it is exactly the batch add of the valid list, and the outcome lists the valid mobiles |
| Review.ConfirmAddShape | src/components/add-numbers-review-modal.tsx:70-79 | saving keeps the stock as a prefix and appends one number per valid entry, in order, with serials from the next free one; the other collections are unchanged |
| Review.ReviewThenAddKeepsValid | src/components/add-numbers-review-modal.tsx:51-79 | reviewing then saving keeps the inventory invariant and adds exactly the valid mobiles to the held multiset |
| Review.Matches | src/components/bulk-delete-numbers-modal.tsx:44-52 | one match per entered mobile held in stock, each naming the id the mobile-to-id map gives it (the last stock record with that mobile) |
| Review.FoundInStock | src/components/bulk-delete-numbers-modal.tsx:44-52 | every match names a stock record with that mobile and that id |
| Review.MissingIffAbsent | src/components/bulk-delete-numbers-modal.tsx:46-51 | a mobile is reported not found exactly when it was entered and no stock record holds it |
| Review.ReviewDelete | src/components/bulk-delete-numbers-modal.tsx:32-55 | every entered mobile held in stock is found, paired with its stock id; every found entry is an entered mobile with its stock id; not found holds exactly the entered mobiles absent from stock, once each, in the order of their first entry; repeats are exactly those entered twice; found and not found together cover the distinct entries |
| Review.ConfirmDelete | src/components/bulk-delete-numbers-modal.tsx:57-64 | deleting does nothing when nothing was found, and otherwise deletes the found ids |
| Review.PickedIffEntered | src/components/bulk-delete-numbers-modal.tsx:38-64 | when stock mobiles and ids are unique, a stock record's id is picked for deletion exactly when its mobile was entered |
| Review.EnteredPicked | src/components/bulk-delete-numbers-modal.tsx:44-52 | an entered mobile held in stock has its record's id among the picked ids |
| Review.PickedEntered | src/components/bulk-delete-numbers-modal.tsx:44-52 | a picked stock id belongs to a record whose mobile was entered |
| Review.ReviewThenDelete | src/components/bulk-delete-numbers-modal.tsx:57-64 | an administrator's review-then-delete keeps the invariant and leaves exactly the stock records whose mobile was not entered |
| Additions.NewNumber | src/context/app-context.tsx:1002-1058 | a new number gets its mobile, serial and digit sum, is named and created by the actor, starts with UPC pending and no check-in date, and keeps the RTS date only when Non-RTS, the safe-custody date only for COCP, and the partner name only for a partnership |
| Additions.AddNumber | src/context/app-context.tsx:1002-1058 | a mobile already held anywhere is refused with no change; otherwise one record with the next serial is appended and nothing else changes |
| Additions.AddNumberKeepsValid | src/context/app-context.tsx:1002-1058 | adding a number keeps the invariant and adds its mobile once to the held multiset |
| Additions.AddOneKeepsValid | src/context/app-context.tsx:1043-1044 | appending a record whose mobile is held nowhere keeps the invariant |
| Additions.AddOneFresh | src/context/app-context.tsx:1068-1091 | after one mobile of a batch is added, the rest of the batch is still held nowhere |
| Additions.AddMultipleNumbers | src/context/app-context.tsx:1060-1112 | an empty list does nothing; otherwise the outcome lists exactly the given mobiles |
| Additions.AddAllKeepsValid | src/context/app-context.tsx:1068-1091 | adding distinct, unheld mobiles one after another keeps the invariant and adds exactly those mobiles |
| Additions.AddMultipleNumbersKeepsValid | src/context/app-context.tsx:1060-1112 | the batch add keeps the invariant and adds exactly the given mobiles to the held multiset |
| Additions.AddedFromIndex | src/context/app-context.tsx:1068-1091 | the i-th appended record is the i-th mobile's record with serial start + i |
| Additions.AddAllShape | src/context/app-context.tsx:1068-1091 | the batch keeps the existing stock as a prefix, appends one record per mobile in order, and changes no other collection |
| Additions.AddMultipleNumbersShape | src/context/app-context.tsx:1060-1112 | the batch's serials run consecutively from the next free serial, in the order given |
| Additions.AddDealerPurchase | src/context/app-context.tsx:1114-1150 | a dealer purchase for a held mobile is refused with no change; otherwise exactly one purchase record is appended, under an id no purchase has, with the next purchase serial, the given mobile, price and dealer, and pending statuses, and nothing else changes |
| Additions.AppendPurchaseKeepsValid | src/context/app-context.tsx:1114-1150 | appending a purchase whose mobile is held nowhere keeps the invariant |
| Additions.AddDealerPurchaseKeepsValid | src/context/app-context.tsx:1114-1150 | recording a dealer purchase keeps the invariant |
| Deletions.DeletePortOuts | src/context/app-context.tsx:1174-1210 | any selected port-out with payment pending blocks the whole batch with no change, and the blocked count is exactly the number of selected records with payment pending; otherwise exactly the selected port-outs are removed |
| Deletions.DeletePortOutsKeepsValid | src/context/app-context.tsx:1174-1210 | deleting port-outs keeps the invariant |
| Deletions.DeleteDealerPurchases | src/context/app-context.tsx:1212-1260 | incomplete purchases are skipped and counted; if none is complete nothing changes and the whole selection is reported blocked; otherwise only the complete ones are removed |
| Deletions.DeleteDealerPurchasesExact | src/context/app-context.tsx:1212-1260 | a stored purchase disappears exactly when it was selected and is complete in payment, port-out and UPC |
| Deletions.DeleteDealerPurchasesKeepsValid | src/context/app-context.tsx:1212-1260 | deleting dealer purchases keeps the invariant |
| Deletions.DeleteNumbers | src/context/app-context.tsx:1399-1431 | a non-administrator is refused with no change; for an administrator exactly the stock records with a selected id are removed |
| Deletions.DeleteNumbersKeepsValid | src/context/app-context.tsx:1399-1431 | deleting numbers keeps the invariant |
| Sales.SellNumber | src/context/app-context.tsx:863-904 | applied exactly when some stock record has the id, otherwise nothing changes; the stock becomes the old stock without that id, and one sale is appended carrying that record's data, the next sale serial, pending payment, UPC and port-out, and a snapshot of the number |
| Sales.SellOneKeepsValid | src/context/app-context.tsx:863-904 | moving one stock record to sales keeps the invariant and the held multiset |
| Sales.SellNumberKeepsValid | src/context/app-context.tsx:863-904 | selling one number keeps the invariant and the held multiset |
| Sales.BulkSellNumbers | src/context/app-context.tsx:906-951 | an empty selection does nothing; otherwise the outcome lists the selected mobiles |
| Sales.SellAllKeepsValid | src/context/app-context.tsx:914-934 | selling distinct stock records one after another keeps the invariant and the held multiset |
| Sales.SellAllNumbers | src/context/app-context.tsx:914-934 | after a bulk sale the stock is the old stock without the selected ids |
| Sales.SoldInOrderIndex | src/context/app-context.tsx:914-934 | the i-th new sale is the i-th selected record sold with serial start + i |
| Sales.SellAllSales | src/context/app-context.tsx:914-934 | a bulk sale keeps the old sales as a prefix and appends one sale per selected record, in order |
| Sales.BulkSellNumbersShape | src/context/app-context.tsx:906-951 | the bulk sale removes exactly the selected ids from stock and appends one sale per selected record, in order, with serials from the next free sale serial |
| Sales.BulkSellNumbersKeepsValid | src/context/app-context.tsx:906-951 | selling distinct stock records in bulk keeps the invariant and the held multiset |
| Sales.CancelSale | src/context/app-context.tsx:953-1000 | not found exactly when no sale has the id; missing snapshot exactly when the first sale with the id has no snapshot; applied exactly when it has one, and nothing else can happen; when applied the sale is removed, its snapshot is appended to stock unassigned, and only its mobile is listed |
| Sales.RestoreKeepsValid | src/context/app-context.tsx:953-1000 | returning a sale's mobile to stock under a fresh id keeps the invariant and the held multiset |
| Sales.CancelSaleKeepsValid | src/context/app-context.tsx:953-1000 | cancelling a sale keeps the invariant and the held multiset |
| Sales.SellThenCancel | src/context/app-context.tsx:863-1000 | selling a stock number and then cancelling that sale restores the sales list and returns the number's snapshot to stock, unassigned |
| Sales.CancelLastSale | src/context/app-context.tsx:953-1000 | cancelling the newest sale restores the earlier sales list exactly |
| PortOut.MarkSaleAsPortedOut | src/context/app-context.tsx:658-715 | not found exactly when no sale has the id; missing snapshot exactly when the first sale with the id has no snapshot; applied exactly when it has one; when applied the sale is removed and a port-out with the next port-out serial, the port-out date and the sale's fields is appended |
| PortOut.MarkSaleAsPortedOutKeepsValid | src/context/app-context.tsx:658-715 | porting out one sale keeps the invariant and the held multiset |
| PortOut.BulkMarkAsPortedOut | src/context/app-context.tsx:717-779 | an empty selection does nothing; if no selected sale has its UPC generated, nothing changes; otherwise the skipped count is the number without a generated UPC, and every listed mobile is a selected sale's with a generated UPC |
| PortOut.PortOneKeepsValid | src/context/app-context.tsx:658-715 | moving one sale to port-outs keeps the invariant and the held multiset |
| PortOut.PortAllKeepsValid | src/context/app-context.tsx:732-752 | porting out distinct sales one after another keeps the invariant and the held multiset |
| PortOut.BulkMarkAsPortedOutKeepsValid | src/context/app-context.tsx:717-779 | bulk port-out keeps the invariant and the held multiset |
| PortOut.PortAllSales | src/context/app-context.tsx:732-752 | after bulk port-out the sales are the old sales without the ported ids |
| PortOut.PortAllPortOuts | src/context/app-context.tsx:732-752 | bulk port-out keeps the old port-outs as a prefix and appends, in order, one port-out per sale, the k-th carrying the k-th sale's fields with serial start + k and the port-out date |
| PortOut.PortedInOrderIndex | src/context/app-context.tsx:732-752 | the i-th appended port-out is the i-th selected sale ported with serial start + i |
| PortOut.BulkMarkAsPortedOutOutcome | src/context/app-context.tsx:717-779 | applied exactly when some selected sale has its UPC generated; then the listed mobiles are exactly those sales' mobiles, in order. It also names the port-out batch the state comes from, whose content `PortOut.BulkMarkAsPortedOutShape` states |
| PortOut.BulkMarkAsPortedOutShape | src/context/app-context.tsx:717-779 | when applied, exactly the eligible sales leave the sales list, one port-out per eligible sale is appended in order with consecutive serials, and stock, purchases and pre-bookings are unchanged |
| PreBooking.MarkAsPreBooked | src/context/app-context.tsx:1493-1533 | always applied with nothing skipped; the listed mobiles are exactly those of the stock records whose id was selected; unknown ids are ignored |
| PreBooking.MarkAsPreBookedShape | src/context/app-context.tsx:1493-1533 | the stock loses exactly the selected ids; one pre-booking per stock record with a selected id is appended, in stock order, with serials from the next free one, the actor and the time; the listed mobiles are those records' mobiles in the same order; sales, port-outs and purchases are unchanged |
| PreBooking.PreBookOneKeepsValid | src/context/app-context.tsx:1493-1533 | moving one stock record to pre-bookings keeps the invariant and the held multiset |
| PreBooking.PreBookAllKeepsValid | src/context/app-context.tsx:1497-1513 | pre-booking distinct stock records one after another keeps the invariant and the held multiset |
| PreBooking.MarkAsPreBookedKeepsValid | src/context/app-context.tsx:1493-1533 | marking numbers as pre-booked keeps the invariant and the held multiset |
| PreBooking.PreBookAllNumbers | src/context/app-context.tsx:1497-1513 | the stock afterwards is the old stock without the selected ids |
| PreBooking.PreBookedInOrderIndex | src/context/app-context.tsx:1497-1513 | the i-th new pre-booking is the i-th selected record with serial start + i, the actor and the time |
| PreBooking.PreBookAllPreBookings | src/context/app-context.tsx:1497-1513 | the old pre-bookings stay as a prefix, one pre-booking per selected record is appended in order, and sales, port-outs and purchases are unchanged |
| PreBooking.MarkOneAsPreBooked | src/context/app-context.tsx:1493-1533 | pre-booking one stock id is the single move with the next pre-booking serial |
| PreBooking.FindPreBooking | src/context/app-context.tsx:1537-1541 | a found pre-booking has the id and a snapshot; an id held by no pre-booking is not found |
| PreBooking.FindPreBookingFirst | src/context/app-context.tsx:1537-1541 | the first pre-booking with the id is returned exactly when it has a snapshot, and nothing is returned when it has none |
| PreBooking.CancelPreBooking | src/context/app-context.tsx:1535-1566 | not found exactly when no pre-booking with a snapshot has the id, and applied exactly when one has; nothing else can happen; when applied it is removed, its snapshot is appended to stock, and only its mobile is listed |
| PreBooking.RestoreKeepsValid | src/context/app-context.tsx:1535-1566 | returning a pre-booked mobile to stock under a fresh id keeps the invariant and the held multiset |
| PreBooking.CancelPreBookingKeepsValid | src/context/app-context.tsx:1535-1566 | cancelling a pre-booking keeps the invariant and the held multiset |
| PreBooking.PreBookThenCancel | src/context/app-context.tsx:1493-1566 | pre-booking one number and cancelling that pre-booking restores the pre-bookings and puts the number's data back in stock |
| PreBooking.CancelLastPreBooking | src/context/app-context.tsx:1535-1566 | cancelling the newest pre-booking restores the earlier list and appends its snapshot to stock |
| PreBooking.SellPreBookedNumber | src/context/app-context.tsx:1568-1609 | not found exactly when no pre-booking with a snapshot has the id, and applied exactly when one has; nothing else can happen; when applied the pre-booking is replaced by a sale with the next sale serial carrying its mobile, sum and snapshot |
| PreBooking.SellPreBookedOneKeepsValid | src/context/app-context.tsx:1568-1609 | moving one pre-booking to sales keeps the invariant and the held multiset |
| PreBooking.SellPreBookedNumberKeepsValid | src/context/app-context.tsx:1568-1609 | selling a pre-booked number keeps the invariant and the held multiset |
| PreBooking.CountSellable | src/context/app-context.tsx:1617-1640 | at most one sale per selected record |
| PreBooking.BulkSellPreBookedNumbers | src/context/app-context.tsx:1611-1655 | an empty selection does nothing; otherwise every selected mobile is listed and stock is untouched |
| PreBooking.SoldPreBookedSerials | src/context/app-context.tsx:1617-1640 | one sale per selected record that has a pre-booking, with serials start, start + 1, … in order |
| PreBooking.SoldPreBookedSerialsFrom | src/context/app-context.tsx:1617-1640 | the same numbering for sales appended after existing ones |
| PreBooking.SellPreBookedAllShape | src/context/app-context.tsx:1617-1640 | existing sales stay a prefix; the appended sales come from the selected records' pre-bookings in order, and ids without a pre-booking are skipped |
| PreBooking.BulkSellPreBookedSerials | src/context/app-context.tsx:1611-1655 | the bulk sale appends exactly one sale per sellable selection, numbered consecutively from the next free sale serial; the pre-bookings lose exactly the sold ids; stock, port-outs and purchases are unchanged |
| PreBooking.SellableIds | src/context/app-context.tsx:1617-1620 | exactly the ids of the selected records that have a pre-booking with a snapshot |
| PreBooking.SellPreBookedAllPreBookings | src/context/app-context.tsx:1617-1640 | the batch deletes exactly the pre-bookings of the sellable selections and keeps the rest in order |
| PreBooking.SellPreBookedAllKeepsValid | src/context/app-context.tsx:1617-1640 | selling the pre-bookings of distinct selected records one after another keeps the invariant and the held multiset |
| PreBooking.BulkSellPreBookedKeepsValid | src/context/app-context.tsx:1611-1655 | the bulk sale of pre-booked numbers keeps the invariant and the held multiset |
| BulkImport.Read | src/context/app-context.tsx:1717-1747 | the mobile and the partner name are read trimmed |
| BulkImport.Rank | src/context/app-context.tsx:1716-1781 | every row rejection reason has its place in the order the checks run |
| BulkImport.RowRtsDate | src/context/app-context.tsx:1761-1769 | a row keeps an RTS date only when its status is Non-RTS, and then it is the parsed date |
| BulkImport.RowSafeCustodyDate | src/context/app-context.tsx:1749-1759 | a row keeps a safe-custody date only when it is COCP, and then it is the parsed date |
| BulkImport.RowAccountName | src/context/app-context.tsx:1749-1759 | a row has an account name exactly when it is COCP |
| BulkImport.RowPartner | src/context/app-context.tsx:1741-1747 | a row has a partner name exactly when its ownership is Partnership (anything else counts as Individual) |
| BulkImport.PassesIffNoCheckFails | src/context/app-context.tsx:1716-1781 | a row passes exactly when none of the nine checks rejects it |
| BulkImport.Build | src/context/app-context.tsx:1785-1838 | the record stored for an accepted row has its mobile and status, the digit sum, an RTS date exactly when Non-RTS, a safe-custody date and a non-empty account name exactly when COCP, a partner name exactly when a partnership, and the actor as name, assignee and creator |
| BulkImport.PassesParses | src/context/app-context.tsx:1716-1781 | a passing row has everything the record builder needs |
| BulkImport.FirstFailure | src/context/app-context.tsx:1716-1781 | no reason means ten digits, not seen before, a known status, parsable dates and price, and the conditional fields present |
| BulkImport.FirstFailureIsFirst | src/context/app-context.tsx:1716-1781 | a row is rejected exactly when some check fails, and the reason given is the first failing check in source order |
| BulkImport.Validate | src/context/app-context.tsx:1716-1811 | a row is accepted exactly when no check fails, with a ten-digit mobile not seen before; otherwise it is rejected with the first failing reason |
| BulkImport.Scan | src/context/app-context.tsx:1716-1811 | every row ends up accepted or rejected; accepted mobiles have ten digits, were not already known and carry no serial yet; rejections never carry the write-failure reason |
| BulkImport.ScanDistinct | src/context/app-context.tsx:1716-1811 | the accepted rows' mobiles are pairwise distinct |
| BulkImport.ScanIsRun | src/context/app-context.tsx:1716-1811 | the row loop is the generic screening loop with the row validator as its check, the mobile as its key and the reason attached to each rejected row |
| BulkImport.ScanRow | src/context/app-context.tsx:1716-1811 | row i is accepted exactly when no check fails against the starting mobiles plus the mobiles accepted before it; an accepted row appends its record to the valid list, a rejected row appends its first failing reason to the failed list, in row order |
| Screen.RunAppend | src/context/app-context.tsx:1716-1811 | screening a + b is screening a and then screening b with the keys a kept added to the known set |
| Screen.RunRow | src/context/app-context.tsx:1716-1811 | item i adds its verdict, taken against the keys known at that point, to the end of the kept or the dropped list |
| Screen.KnownGrows | src/context/app-context.tsx:1810 | each step keeps the known keys and adds the key of an item it keeps |
| Screen.KeptStaysKnown | src/context/app-context.tsx:1810 | the key of a kept item stays known at every later position |
| BulkImport.ConsDistinct | src/context/app-context.tsx:1716-1811 | an accepted mobile absent from the later accepted rows keeps the accepted list distinct |
| BulkImport.LaterRepeatRejected | src/context/app-context.tsx:1717-1726 | once a row is accepted, every later row with the same mobile is rejected as a duplicate |
| BulkImport.NotWrittenAll | src/context/app-context.tsx:1843-1852 | every accepted row gets a permission-denied failure entry when the write fails |
| BulkImport.KnownMobiles | src/context/app-context.tsx:1690-1696 | the set of known mobiles is exactly the mobiles held in the five collections |
| BulkImport.CommittedIndex | src/context/app-context.tsx:1813-1841 | the i-th written record is the i-th accepted row with serial start + i |
| BulkImport.CommitShape | src/context/app-context.tsx:1813-1841 | writing keeps the stock as a prefix, appends the accepted rows in order and changes nothing else |
| BulkImport.CommitStep | src/context/app-context.tsx:1813-1841 | writing the first accepted row keeps the invariant and leaves the remaining rows distinct and unheld |
| BulkImport.CommitKeepsValid | src/context/app-context.tsx:1813-1841 | writing distinct, unheld rows keeps the invariant and adds exactly their mobiles |
| BulkImport.BulkAddRows | src/context/app-context.tsx:1682-1856 | the valid list is exactly the loop's accepted rows, in row order, checked against the mobiles already held; on success the failed list is exactly the loop's rejections and the rows are written with consecutive serials; on a failed write the state is unchanged and the failed list is the rejections followed by one write failure per accepted row |
| BulkImport.BulkAddRowsKeepsValid | src/context/app-context.tsx:1682-1856 | the import keeps the invariant and on success adds exactly the accepted mobiles |
| BulkImport.BulkAddRowsSerials | src/context/app-context.tsx:1813-1841 | on success the accepted rows are appended in order with serials from the next free serial |
| BulkImport.BulkAddNumbers | src/context/app-context.tsx:1682-1856 | the same report for spreadsheet rows read with trimmed cells: valid is exactly the accepted rows; failed is exactly the rejections on success, and the rejections followed by one write failure per accepted row when the write fails, while those rows are still returned as valid |
| BulkImport.BulkAddNumbersKeepsValid | src/context/app-context.tsx:1682-1856 | the import keeps the invariant |
| BulkImport.BulkAddNumbersSerials | src/context/app-context.tsx:1813-1841 | on success the accepted rows are stored in order with consecutive serials from the next free one |
| Sweeps.ArrivedIffBeforeTomorrow | src/context/app-context.tsx:398-416 | "today or in the past" is exactly "before the start of tomorrow" |
| Sweeps.RtsSweep | src/context/app-context.tsx:385-437 | only stock changes; each Non-RTS number whose RTS date has arrived becomes RTS with no RTS date, and nothing else changes; the updated ids are exactly those numbers |
| Sweeps.RtsSweepIdempotent | src/context/app-context.tsx:385-437 | a second sweep at the same time changes nothing and updates nothing |
| Sweeps.SameKeysKeepsValid | src/context/app-context.tsx:385-481 | rewriting stock fields other than id and mobile keeps the invariant |
| Sweeps.RtsSweepKeepsValid | src/context/app-context.tsx:385-437 | the RTS sweep keeps the invariant |
| Sweeps.SafeCustodySweep | src/context/app-context.tsx:439-481 | only stock changes; each COCP number whose safe-custody date has arrived and has not been notified is flagged as notified; the notified ids are exactly those numbers |
| Sweeps.SafeCustodyNotifiesOnce | src/context/app-context.tsx:449-463 | a number is notified at most once, even by a later sweep |
| Sweeps.SafeCustodySweepIdempotent | src/context/app-context.tsx:439-481 | a second sweep changes nothing and notifies nobody |
| Sweeps.SafeCustodySweepKeepsValid | src/context/app-context.tsx:439-481 | the safe-custody sweep keeps the invariant |
| Sweeps.PruneReminders | src/context/app-context.tsx:483-515 | non-administrators prune nothing; for an administrator a reminder is kept exactly when it is not done or was completed within the last 7 days, and the deleted count is the number removed |
| Sweeps.PruneRemindersIdempotent | src/context/app-context.tsx:483-515 | pruning twice at the same time removes nothing more |
| Sweeps.PruneKeepsUnfinished | src/context/app-context.tsx:489-500 | a pending reminder, or one without a completion date, is never pruned |

## Left out

- Persistence and failures. The document store and its listeners become the in-memory `State`. A failed batch write is modelled only for the bulk import, where it changes the returned report. For every other operation, a failed write simply means the state is unchanged.
- Activity records, toasts, the error emitter and the highlight ids are not modelled; only the list of mobiles an activity would name is kept. This also leaves out the timers that clear highlights and the `recentlyAutoRtsIds` guard.
- Authentication and users. The actor is a parameter (uid, display name, email, role).
- The sweeps' timers and intervals. A sweep is one call with a `Clock`: now, the start of today and the start of tomorrow. Daylight-saving effects of subtracting 7 days are not modelled (7 × 86 400 000 ms is used).
- Date parsing (`parse`/`isValid` of the date library) and `parseFloat` are a `Parsers` parameter that yields a value or nothing.
- Store-minted document ids are stood in for by `Inventory.FreshId`.
- The other field-update operations are not modelled. These are the status, location, assignment, upload, UPC, payment, check-in, COCP-date and reminder edits, together with payments and users. They move no number between collections, so they do not bear on the invariant.
- `DigitalRoot.CalculateDigitalRoot`: a character that is not a decimal digit counts as 0. The source's `Number` gives NaN for it, and NaN then propagates.
- Sale prices and purchase prices are reals. The source's `number | string` union for a sale price is not modelled.
- Spreadsheet cells are strings. An absent cell is the empty string.
- `Review.ReviewAdd` and `Review.ReviewDelete` take the already-tokenized list of entries (`Text.Tokenize` models the tokenizing). The dialogs' open and close state is not modelled.
- `Additions.AddNumberKeepsValid`: requires a non-empty mobile. The duplicate check treats the empty string as never held, and the entry form only submits ten-digit mobiles.
- `Additions.AddDealerPurchaseKeepsValid`: requires a non-empty mobile, for the same reason.
- `Sales.SellAllKeepsValid`: requires selected records drawn from stock with distinct ids, as the selection table provides.
- `Sales.BulkSellNumbersKeepsValid`: has the same requirement.
- `PortOut.PortAllKeepsValid`: requires selected sales drawn from the sales list with distinct ids, as the selection table provides.
- `PortOut.BulkMarkAsPortedOutKeepsValid`: has the same requirement.
- `PreBooking.PreBookAllKeepsValid`: requires selected records drawn from stock with distinct ids, as the selection table provides.
- `PreBooking.BulkSellPreBookedKeepsValid`: requires distinct selected ids. Pre-bookings are looked up by the selected record's id. An id with no pre-booking is skipped silently, as in the source.
- `PortOut.MarkSaleAsPortedOut`: no UPC guard, because the shared state layer has none. The single port-out's "UPC generated" condition is checked by the page that offers the action, and that page is not part of this model.
- `BulkImport.BulkAddNumbers`: when the batch write fails, the `.catch` callback at src/context/app-context.tsx:1843-1852 adds each accepted row to the failed list and returns `{ validRecords: [], failedRecords }`. That `return` only leaves the callback, and line 1855 still returns the accepted rows as valid. The model does the same, so accepted rows appear in both lists.
- `Text.SplitRuns`: the regular-expression engine is not modelled. Splitting on maximal runs of commas and newlines, which is what `/[\n,]+/` matches, is written out directly.
- `PreBooking.FindPreBooking`: its own contract gives only the found and the absent cases. That the first pre-booking with the id is returned exactly when it has a snapshot is stated by `PreBooking.FindPreBookingFirst`, which keeps proofs that unfold the lookup cheap.
- `BulkImport.Scan`: its own contract gives only the form of the two lists. Which rows are accepted, against which known mobiles, and in what order is stated row by row by `BulkImport.ScanRow`.
- `PreBooking.MarkAsPreBooked`: its own contract gives only the outcome. The state afterwards is stated by `PreBooking.MarkAsPreBookedShape`.
- `PortOut.BulkMarkAsPortedOut`: its own contract gives the guards and one direction of the listed mobiles. Both directions and the state afterwards are stated by `PortOut.BulkMarkAsPortedOutOutcome` and `PortOut.BulkMarkAsPortedOutShape`.
- `BulkImport.Build`: the model returns the stored form of each accepted row as the valid list. The source returns the intermediate record built at src/context/app-context.tsx:1785-1803. That record has no serial, digit sum or creator, and its partner name is the trimmed cell, or empty, whatever the ownership type. Only the stored document at lines 1820-1838 matches `Build`.
