/** The host's adapter interface types: errors, outgoing request descriptors,
    incoming responses, typed bids, and the JSON codec the adapter calls. */
module Adapters {
  import opened Wrappers
  import opened OpenRtb

  /** `errortypes.BadInput` for client-correctable problems; `Other` for an
      error from the JSON library passed on as it is. */
  datatype Error = BadInput(message: string) | Other(message: string)

  /** An HTTP header set, as ordered (name, value) pairs. */
  type Headers = seq<(string, string)>

  datatype RequestData = RequestData(httpMethod: string, uri: string, body: Bytes, headers: Headers)

  /** A downstream HTTP response. `errorHeader` is the value of the
      `x-fb-an-errors` header if the response carries one. */
  datatype ResponseData = ResponseData(statusCode: int, body: Bytes, errorHeader: Option<string>)

  datatype BidType = Banner | Video | Audio | Native

  datatype TypedBid = TypedBid(bid: Bid, bidType: BidType)

  datatype BidderResponse = BidderResponse(bids: seq<TypedBid>)

  /** `adapters.ExtImpBidder`: the impression ext envelope; `bidder` is the
      bidder-specific part, still raw. */
  datatype ExtImpBidder = ExtImpBidder(bidder: Bytes)

  /** `openrtb_ext.ExtImpFacebook`. */
  datatype ExtImpFacebook = ExtImpFacebook(placementId: string, publisherId: string)

  /** The adapter's top-level request ext, `{"platformid": ...}`. */
  datatype FacebookReqExt = FacebookReqExt(platformId: string)

  /** `encoding/json` as seen by the adapter: one possibly failing function
      per marshal or unmarshal call site; a failure carries the library's message. */
  datatype Codec = Codec(
    unmarshalBidderExt: Bytes -> Result<ExtImpBidder, string>,
    unmarshalFacebookExt: Bytes -> Result<ExtImpFacebook, string>,
    marshalReqExt: FacebookReqExt -> Result<Bytes, string>,
    marshalRequest: BidRequest -> Result<Bytes, string>,
    unmarshalResponse: Bytes -> Result<BidResponse, string>)
}
