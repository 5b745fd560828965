/** The records the inventory keeps: a number in stock, a sale, a
    completed port-out, a pre-booking and a dealer purchase.  Timestamps
    are milliseconds since the epoch; a field the store may hold as absent
    or null is an `Option`. */
module Records {
  import opened Wrappers
  import DigitalRoot

  type Id = string
  type Time = int

  const MsPerDay: int := 86_400_000

  datatype RtsStatus = RTS | NonRTS
  /** The two-valued status shared by upload, payment and port-out. */
  datatype Progress = Pending | Done
  datatype UpcStatus = UpcPending | Generated
  datatype NumberType = Prepaid | Postpaid | COCP
  datatype OwnershipType = Individual | Partnership
  datatype LocationType = Store | Employee | Dealer
  datatype Role = Admin | Staff

  /** Everything a number record holds apart from its document id; this is
      also the snapshot a sale or pre-booking keeps of the number. */
  datatype NumberData = NumberData(
    srNo: Option<int>,
    mobile: string,
    sum: int,
    status: RtsStatus,
    uploadStatus: Progress,
    numberType: NumberType,
    purchaseFrom: string,
    purchasePrice: real,
    salePrice: real,
    rtsDate: Option<Time>,
    name: string,
    upcStatus: UpcStatus,
    currentLocation: string,
    locationType: LocationType,
    assignedTo: string,
    purchaseDate: Time,
    notes: Option<string>,
    checkInDate: Option<Time>,
    safeCustodyDate: Option<Time>,
    safeCustodyNotificationSent: bool,
    createdBy: string,
    accountName: Option<string>,
    ownershipType: OwnershipType,
    partnerName: Option<string>)

  datatype NumberRecord = NumberRecord(id: Id, data: NumberData)

  datatype SaleRecord = SaleRecord(
    id: Id,
    srNo: Option<int>,
    mobile: string,
    sum: int,
    soldTo: string,
    salePrice: real,
    paymentStatus: Progress,
    saleDate: Time,
    upcStatus: UpcStatus,
    portOutStatus: Progress,
    uploadStatus: Progress,
    createdBy: string,
    originalNumberData: Option<NumberData>)

  /** A sale without its port-out status, plus the port-out date. */
  datatype PortOutRecord = PortOutRecord(
    id: Id,
    srNo: Option<int>,
    mobile: string,
    sum: int,
    soldTo: string,
    salePrice: real,
    paymentStatus: Progress,
    saleDate: Time,
    upcStatus: UpcStatus,
    uploadStatus: Progress,
    createdBy: string,
    originalNumberData: Option<NumberData>,
    portOutDate: Time)

  datatype PreBookingRecord = PreBookingRecord(
    id: Id,
    srNo: Option<int>,
    mobile: string,
    sum: int,
    uploadStatus: Progress,
    preBookingDate: Time,
    createdBy: string,
    originalNumberData: Option<NumberData>)

  datatype DealerPurchaseRecord = DealerPurchaseRecord(
    id: Id,
    srNo: Option<int>,
    mobile: string,
    sum: int,
    dealerName: string,
    price: real,
    paymentStatus: Progress,
    portOutStatus: Progress,
    upcStatus: UpcStatus,
    createdBy: string)

  /** The signed-in user as the operations see it. */
  datatype Actor = Actor(uid: string, displayName: string, email: string, role: Role)

  /** The label written into `name`, `assignedTo` and activity entries:
      the display name, else the e-mail, else "User". */
  function ActorName(a: Actor): (r: string)
    ensures r != ""
    ensures a.displayName != "" ==> r == a.displayName
    ensures a.displayName == "" && a.email != "" ==> r == a.email
  {
    if a.displayName != "" then a.displayName
    else if a.email != "" then a.email
    else "User"
  }

  /** The sale details a seller types in. */
  datatype SaleDetails = SaleDetails(salePrice: real, soldTo: string, saleDate: Time)

  // Key projections used to look records up and to list their mobiles.
  function NumberId(n: NumberRecord): Id { n.id }
  function NumberMobile(n: NumberRecord): string { n.data.mobile }
  function NumberSrNo(n: NumberRecord): Option<int> { n.data.srNo }
  function SaleId(x: SaleRecord): Id { x.id }
  function SaleMobile(x: SaleRecord): string { x.mobile }
  function SaleSrNo(x: SaleRecord): Option<int> { x.srNo }
  function PortOutId(x: PortOutRecord): Id { x.id }
  function PortOutMobile(x: PortOutRecord): string { x.mobile }
  function PortOutSrNo(x: PortOutRecord): Option<int> { x.srNo }
  function PreBookingId(x: PreBookingRecord): Id { x.id }
  function PreBookingMobile(x: PreBookingRecord): string { x.mobile }
  function PreBookingSrNo(x: PreBookingRecord): Option<int> { x.srNo }
  function DealerPurchaseId(x: DealerPurchaseRecord): Id { x.id }
  function DealerPurchaseMobile(x: DealerPurchaseRecord): string { x.mobile }
  function DealerPurchaseSrNo(x: DealerPurchaseRecord): Option<int> { x.srNo }
}
