/** The OpenRTB 2.5 objects the adapter reads or writes, as immutable values.
    Only the fields the adapter touches, and an identifier per object to show
    that the untouched ones travel through unchanged. */
module OpenRtb {
  import opened Wrappers

  /** Raw JSON bytes (Go's `json.RawMessage`); the empty sequence is `nil`. */
  type Bytes = seq<bv8>

  datatype Publisher = Publisher(id: string)

  datatype App = App(id: string, name: string, publisher: Option<Publisher>)

  datatype Site = Site(id: string, page: string, publisher: Option<Publisher>)

  datatype Imp = Imp(id: string, tagId: string, ext: Bytes)

  datatype BidRequest = BidRequest(
    id: string,
    imp: seq<Imp>,
    app: Option<App>,
    site: Option<Site>,
    ext: Bytes)

  /** A bid as the exchange returns it; `price` stands for Go's float64 and is only copied. */
  datatype Bid = Bid(id: string, impId: string, price: real, adm: string)

  datatype SeatBid = SeatBid(seat: string, bid: seq<Bid>)

  datatype BidResponse = BidResponse(id: string, seatBid: seq<SeatBid>)
}
