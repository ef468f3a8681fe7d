/** The Audience Network bidder adapter (adapters/audienceNetwork/facebook.go):
    the placement/publisher identifier parser, the per-impression request
    fan-out and the response-to-bid mapper. */
module AudienceNetwork {
  import opened Wrappers
  import opened GoStrings
  import opened OpenRtb
  import opened Adapters

  // ---------------------------------------------------------------------------
  // Adapter identity and fixed configuration

  /** What `Name()` returns; the host uses it for cookie-sync bookkeeping. */
  const AdapterName: string := "audienceNetwork"

  /** What `SkipNoCookies()` returns: the adapter is called with or without a user-sync cookie. */
  const SkipNoCookies: bool := false

  /** The endpoint `NewFacebookBidder` installs. */
  const EndpointUri: string := "https://an.facebook.com/placementbid.ortb"

  /** The platform id `NewFacebookBidder` installs, whatever it is passed. */
  const HardCodedPlatformId: string := "873801679416180"

  /** `http.StatusOK`. */
  const StatusOk: int := 200

  const FixedHeaders: Headers :=
    [("Content-Type", "application/json;charset=utf-8"), ("Accept", "application/json")]

  const NoImpressionsMessage: string := "no impressions provided"
  const NoValidImpressionsMessage: string := "no valid impressions provided"
  const MissingPlacementMessage: string := "Missing placementId param"
  const MissingPublisherMessage: string := "Missing publisherId param"

  function InvalidIdsMessage(placementId: string, publisherId: string): string {
    "Invalid placementId param '" + placementId + "' and publisherId param '" + publisherId + "'"
  }

  function StatusMessage(statusCode: int, errors: string): string {
    "Unexpected status code " + FormatInt(statusCode) + " with error message '" + errors + "'"
  }

  /** `part` occurs somewhere in `s`. */
  predicate Contains(s: string, part: string) {
    exists i, j :: 0 <= i <= j <= |s| && s[i..j] == part
  }

  /** The non-200 message names both the status code and the vendor's error text. */
  lemma StatusMessageMentions(statusCode: int, errors: string)
    ensures Contains(StatusMessage(statusCode, errors), FormatInt(statusCode))
    ensures Contains(StatusMessage(statusCode, errors), errors)
  {
    var m := StatusMessage(statusCode, errors);
    var code := FormatInt(statusCode);
    var head := "Unexpected status code ";
    var mid := " with error message '";
    assert m == head + code + mid + errors + "'";
    assert m[|head|..|head| + |code|] == code;
    var at := |head| + |code| + |mid|;
    assert m[at..at + |errors|] == errors;
  }

  // ---------------------------------------------------------------------------
  // Identifier parser (extractPlmtAndPub)

  /** A normalised (placementId, publisherId) pair. */
  datatype Ids = Ids(placementId: string, publisherId: string)

  /** The impression tag id sent downstream: `publisherId_placementId`. */
  function TagId(ids: Ids): string {
    ids.publisherId + "_" + ids.placementId
  }

  /** The string logic of `extractPlmtAndPub` once the ext has been decoded.
      A placement id without `_` is the modern form and needs a separate
      publisher id; one with a single `_` is the legacy `pub_plmt` form and the
      separate publisher id is ignored; more than one `_` is rejected. */
  function ParseIds(placementId: string, publisherId: string): (r: Result<Ids, Error>)
    ensures placementId == "" ==> r == Failure(BadInput(MissingPlacementMessage))
    ensures placementId != "" && '_' !in placementId ==>
      r == if publisherId == "" then Failure(BadInput(MissingPublisherMessage))
           else Success(Ids(placementId, publisherId))
    ensures Count(placementId, '_') == 1 ==>
      r.Success? && TagId(r.value) == placementId &&
      '_' !in r.value.placementId && '_' !in r.value.publisherId
    ensures Count(placementId, '_') >= 2 ==>
      r == Failure(BadInput(InvalidIdsMessage(placementId, publisherId)))
    ensures r.Success? <==>
      placementId != "" && (Count(placementId, '_') == 1 || ('_' !in placementId && publisherId != ""))
  {
    if placementId == "" then Failure(BadInput(MissingPlacementMessage))
    else
      CountZeroIffAbsent(placementId, '_');
      var toks := Split(placementId, '_');
      if |toks| == 1 then
        if publisherId == "" then Failure(BadInput(MissingPublisherMessage))
        else Success(Ids(placementId, publisherId))
      else if |toks| == 2 then
        JoinSplit(placementId, '_');
        Success(Ids(toks[1], toks[0]))
      else
        Failure(BadInput(InvalidIdsMessage(placementId, publisherId)))
  }

  /** `extractPlmtAndPub`: decode the impression ext envelope, then the bidder
      part, then parse. Every failure is reported as BadInput; a decode failure
      carries the decoder's own message. */
  function ExtractIds(json: Codec, imp: Imp): (r: Result<Ids, Error>)
    ensures r.Failure? ==> r.error.BadInput?
    ensures json.unmarshalBidderExt(imp.ext).Failure? ==>
      r == Failure(BadInput(json.unmarshalBidderExt(imp.ext).error))
    ensures json.unmarshalBidderExt(imp.ext).Success? ==>
      var bidder := json.unmarshalBidderExt(imp.ext).value.bidder;
      match json.unmarshalFacebookExt(bidder)
      case Failure(m) => r == Failure(BadInput(m))
      case Success(fb) => r == ParseIds(fb.placementId, fb.publisherId)
  {
    match json.unmarshalBidderExt(imp.ext)
    case Failure(m) => Failure(BadInput(m))
    case Success(bidderExt) =>
      match json.unmarshalFacebookExt(bidderExt.bidder)
      case Failure(m) => Failure(BadInput(m))
      case Success(fbExt) => ParseIds(fbExt.placementId, fbExt.publisherId)
  }

  /** Legacy form: `a_b` with no further `_` parses to placement `b`, publisher
      `a`, whatever publisher id is supplied beside it. */
  lemma LegacyComposite(pub: string, plmt: string, suppliedPublisherId: string)
    requires '_' !in pub && '_' !in plmt
    ensures ParseIds(pub + "_" + plmt, suppliedPublisherId) == Success(Ids(plmt, pub))
  {
    var p := pub + "_" + plmt;
    SplitPrefix(pub, plmt, '_');
    SplitPiece(plmt, '_');
    assert Split(p, '_') == [pub, plmt];
    assert p != "";
  }

  /** The tag id of a pair without `_` parses back to the same pair. */
  lemma TagIdReparses(ids: Ids, suppliedPublisherId: string)
    requires '_' !in ids.placementId && '_' !in ids.publisherId
    ensures ParseIds(TagId(ids), suppliedPublisherId) == Success(ids)
  {
    LegacyComposite(ids.publisherId, ids.placementId, suppliedPublisherId);
  }

  /** On the legacy path the tag id sent downstream is the placement id as
      given; on the modern path it is the publisher id, `_`, the placement id. */
  lemma TagIdRebuildsInput(placementId: string, publisherId: string)
    requires ParseIds(placementId, publisherId).Success?
    ensures var ids := ParseIds(placementId, publisherId).value;
      TagId(ids) == if '_' in placementId then placementId else publisherId + "_" + placementId
  {
  }

  /** A legacy id may have empty halves: `_` is accepted and yields two empty ids. */
  lemma LegacyAcceptsEmptyHalves(suppliedPublisherId: string)
    ensures ParseIds("_", suppliedPublisherId) == Success(Ids("", ""))
  {
  }

  /** Worked cases of the two accepted forms: a modern pair is kept, a legacy pair is swapped. */
  lemma AcceptedExamples()
    ensures ParseIds("abc", "123") == Success(Ids("abc", "123"))
    ensures ParseIds("123_abc", "") == Success(Ids("abc", "123"))
  {
    LegacyComposite("123", "abc", "");
    assert "123" + "_" + "abc" == "123_abc";
  }

  /** Worked cases of the two missing-parameter rejections. */
  lemma MissingParamExamples()
    ensures ParseIds("", "123") == Failure(BadInput("Missing placementId param"))
    ensures ParseIds("abc", "") == Failure(BadInput("Missing publisherId param"))
  {
  }

  /** Worked case of a three-token placement id: rejected, quoting both inputs. */
  lemma TooManyTokensExample()
    ensures ParseIds("1_2_3", "") ==
      Failure(BadInput("Invalid placementId param '1_2_3' and publisherId param ''"))
  {
    var p := "1_2_3";
    assert Count(p[4..], '_') == 0;
    assert Count(p[3..], '_') == 1;
    assert Count(p[2..], '_') == 1;
    assert Count(p[1..], '_') == 2;
    assert Count(p, '_') == 2;
    assert InvalidIdsMessage(p, "") == "Invalid placementId param '1_2_3' and publisherId param ''";
  }

  // ---------------------------------------------------------------------------
  // Request fan-out (MakeRequests)

  /** What the loop of MakeRequests does with one impression. */
  datatype Outcome = Emit(request: RequestData) | Skip(error: Error) | Abort(error: Error)

  /** The per-impression copy of the bid request: the platform ext, a single
      impression carrying the tag id and no ext, and the publisher set on the
      App if there is one, else on the Site. Nothing else changes. */
  function SingleImpRequest(request: BidRequest, imp: Imp, ids: Ids, ext: Bytes): (r: BidRequest)
    requires request.app.Some? || request.site.Some?
    ensures r.id == request.id && r.ext == ext
    ensures |r.imp| == 1 && r.imp[0].id == imp.id
    ensures r.imp[0].tagId == ids.publisherId + "_" + ids.placementId && r.imp[0].ext == []
    ensures r.app.Some? == request.app.Some? && r.site.Some? == request.site.Some?
    ensures request.app.Some? ==>
      r.app.value.id == request.app.value.id && r.app.value.name == request.app.value.name &&
      r.app.value.publisher == Some(Publisher(ids.publisherId)) && r.site == request.site
    ensures request.app.None? ==>
      r.site.value.id == request.site.value.id && r.site.value.page == request.site.value.page &&
      r.site.value.publisher == Some(Publisher(ids.publisherId))
  {
    var tagged := imp.(tagId := TagId(ids), ext := []);
    var single := request.(ext := ext, imp := [tagged]);
    if request.app.Some? then
      single.(app := Some(request.app.value.(publisher := Some(Publisher(ids.publisherId)))))
    else
      single.(site := Some(request.site.value.(publisher := Some(Publisher(ids.publisherId)))))
  }

  /** Requests, in order, of the impressions emitted among `steps`. */
  function Emitted(steps: seq<Outcome>): seq<RequestData> {
    if steps == [] then []
    else
      var last := steps[|steps| - 1];
      Emitted(steps[..|steps| - 1]) + (if last.Emit? then [last.request] else [])
  }

  /** Errors, in order, of the impressions skipped among `steps`. */
  function Rejected(steps: seq<Outcome>): seq<Error> {
    if steps == [] then []
    else
      var last := steps[|steps| - 1];
      Rejected(steps[..|steps| - 1]) + (if last.Skip? then [last.error] else [])
  }

  /** Index of the first aborting impression, or |steps| if none aborts. */
  function FirstAbort(steps: seq<Outcome>): (k: nat)
    ensures k <= |steps|
    ensures forall i :: 0 <= i < k ==> !steps[i].Abort?
    ensures k < |steps| ==> steps[k].Abort?
  {
    if steps == [] || steps[0].Abort? then 0 else 1 + FirstAbort(steps[1..])
  }

  /** One more impression adds its request or its error at the end. */
  lemma StepsExtend(steps: seq<Outcome>, i: nat)
    requires i < |steps|
    ensures Emitted(steps[..i + 1]) == Emitted(steps[..i]) + (if steps[i].Emit? then [steps[i].request] else [])
    ensures Rejected(steps[..i + 1]) == Rejected(steps[..i]) + (if steps[i].Skip? then [steps[i].error] else [])
  {
    assert steps[..i + 1][..i] == steps[..i];
  }

  /** Without an abort, every impression yields either one request or one error. */
  lemma {:induction false} EmittedPlusRejected(steps: seq<Outcome>)
    requires forall i :: 0 <= i < |steps| ==> !steps[i].Abort?
    ensures |Emitted(steps)| + |Rejected(steps)| == |steps|
  {
    if steps != [] {
      EmittedPlusRejected(steps[..|steps| - 1]);
    }
  }

  /** The emitted requests of a prefix are a prefix of the emitted requests. */
  lemma {:induction false} EmittedPrefix(steps: seq<Outcome>, n: nat)
    requires n <= |steps|
    ensures Emitted(steps[..n]) <= Emitted(steps)
  {
    if n < |steps| {
      EmittedPrefix(steps[..|steps| - 1], n);
      assert steps[..|steps| - 1][..n] == steps[..n];
    } else {
      assert steps[..n] == steps;
    }
  }

  /** One request per emitted impression, in input order: the request of
      impression i sits after exactly those of the emitted impressions before it. */
  lemma EmittedPosition(steps: seq<Outcome>, i: nat)
    requires i < |steps| && steps[i].Emit?
    ensures |Emitted(steps[..i])| < |Emitted(steps)|
    ensures Emitted(steps)[|Emitted(steps[..i])|] == steps[i].request
  {
    var prefix := steps[..i + 1];
    assert prefix[..i] == steps[..i];
    assert Emitted(prefix) == Emitted(steps[..i]) + [steps[i].request];
    EmittedPrefix(steps, i + 1);
  }

  /** Conversely, every emitted request comes from an emitted impression, and
      the k-th request from the impression with exactly k emitted ones before it. */
  lemma {:induction false} EmittedFrom(steps: seq<Outcome>, k: nat)
    requires k < |Emitted(steps)|
    ensures exists i ::
      0 <= i < |steps| && steps[i].Emit? && Emitted(steps)[k] == steps[i].request && |Emitted(steps[..i])| == k
  {
    var init := steps[..|steps| - 1];
    var last := steps[|steps| - 1];
    if k < |Emitted(init)| {
      EmittedFrom(init, k);
      var i :| 0 <= i < |init| && init[i].Emit? &&
        Emitted(init)[k] == init[i].request && |Emitted(init[..i])| == k;
      assert init[..i] == steps[..i];
    } else {
      assert last.Emit?;
      assert steps[..|steps| - 1] == init;
    }
  }

  /** The skip errors of a prefix are a prefix of the skip errors. */
  lemma {:induction false} RejectedPrefix(steps: seq<Outcome>, n: nat)
    requires n <= |steps|
    ensures Rejected(steps[..n]) <= Rejected(steps)
  {
    if n < |steps| {
      RejectedPrefix(steps[..|steps| - 1], n);
      assert steps[..|steps| - 1][..n] == steps[..n];
    } else {
      assert steps[..n] == steps;
    }
  }

  /** One error per skipped impression, in input order, however skips and
      emits are mixed: the error of impression i follows exactly those of the
      impressions skipped before it. */
  lemma RejectedPosition(steps: seq<Outcome>, i: nat)
    requires i < |steps| && steps[i].Skip?
    ensures |Rejected(steps[..i])| < |Rejected(steps)|
    ensures Rejected(steps)[|Rejected(steps[..i])|] == steps[i].error
  {
    var prefix := steps[..i + 1];
    assert prefix[..i] == steps[..i];
    assert Rejected(prefix) == Rejected(steps[..i]) + [steps[i].error];
    RejectedPrefix(steps, i + 1);
  }

  /** Conversely, every skip error comes from a skipped impression, and the
      k-th error from the impression with exactly k skipped ones before it. */
  lemma {:induction false} RejectedFrom(steps: seq<Outcome>, k: nat)
    requires k < |Rejected(steps)|
    ensures exists i ::
      0 <= i < |steps| && steps[i].Skip? && Rejected(steps)[k] == steps[i].error && |Rejected(steps[..i])| == k
  {
    var init := steps[..|steps| - 1];
    var last := steps[|steps| - 1];
    if k < |Rejected(init)| {
      RejectedFrom(init, k);
      var i :| 0 <= i < |init| && init[i].Skip? &&
        Rejected(init)[k] == init[i].error && |Rejected(init[..i])| == k;
      assert init[..i] == steps[..i];
    } else {
      assert last.Skip?;
      assert steps[..|steps| - 1] == init;
    }
  }

  /** When every impression fails to parse, nothing is emitted and every
      impression contributes its own error, in order. */
  lemma {:induction false} AllSkipped(steps: seq<Outcome>)
    requires forall i :: 0 <= i < |steps| ==> steps[i].Skip?
    ensures Emitted(steps) == []
    ensures |Rejected(steps)| == |steps|
    ensures forall i :: 0 <= i < |steps| ==> Rejected(steps)[i] == steps[i].error
  {
    if steps != [] {
      var init := steps[..|steps| - 1];
      AllSkipped(init);
      assert Rejected(steps) == Rejected(init) + [steps[|steps| - 1].error];
    }
  }

  // ---------------------------------------------------------------------------
  // Response mapping (MakeBids)

  /** All bids, seat after seat, each seat's bids in order. */
  function Flatten(seats: seq<SeatBid>): seq<Bid> {
    if seats == [] then [] else Flatten(seats[..|seats| - 1]) + seats[|seats| - 1].bid
  }

  /** The sum of the seat sizes. */
  function TotalBids(seats: seq<SeatBid>): nat {
    if seats == [] then 0 else |seats[0].bid| + TotalBids(seats[1..])
  }

  /** Each bid typed as a banner. */
  function Banners(bids: seq<Bid>): (r: seq<TypedBid>)
    ensures |r| == |bids|
    ensures forall k :: 0 <= k < |r| ==> r[k] == TypedBid(bids[k], Banner)
  {
    if bids == [] then [] else Banners(bids[..|bids| - 1]) + [TypedBid(bids[|bids| - 1], Banner)]
  }

  lemma {:induction false} TotalBidsAppend(seats: seq<SeatBid>, seat: SeatBid)
    ensures TotalBids(seats + [seat]) == TotalBids(seats) + |seat.bid|
  {
    if seats != [] {
      TotalBidsAppend(seats[1..], seat);
      assert (seats + [seat])[1..] == seats[1..] + [seat];
    }
  }

  /** The flattened list has one entry per bid of every seat. */
  lemma {:induction false} FlattenLength(seats: seq<SeatBid>)
    ensures |Flatten(seats)| == TotalBids(seats)
  {
    if seats != [] {
      var init := seats[..|seats| - 1];
      FlattenLength(init);
      TotalBidsAppend(init, seats[|seats| - 1]);
      assert init + [seats[|seats| - 1]] == seats;
    }
  }

  lemma {:induction false} FlattenPrefix(seats: seq<SeatBid>, n: nat)
    requires n <= |seats|
    ensures Flatten(seats[..n]) <= Flatten(seats)
  {
    if n < |seats| {
      FlattenPrefix(seats[..|seats| - 1], n);
      assert seats[..|seats| - 1][..n] == seats[..n];
    } else {
      assert seats[..n] == seats;
    }
  }

  /** Seat-then-bid order: bid j of seat i comes after all bids of earlier
      seats and after the first j bids of its own seat. */
  lemma FlattenIndex(seats: seq<SeatBid>, i: nat, j: nat)
    requires i < |seats| && j < |seats[i].bid|
    ensures TotalBids(seats[..i]) + j < |Flatten(seats)|
    ensures Flatten(seats)[TotalBids(seats[..i]) + j] == seats[i].bid[j]
  {
    var prefix := seats[..i + 1];
    assert prefix[..i] == seats[..i];
    assert Flatten(prefix) == Flatten(seats[..i]) + seats[i].bid;
    FlattenLength(seats[..i]);
    FlattenPrefix(seats, i + 1);
  }

  /** Go before 1.22 keeps one range variable per inner loop, so `&bid` makes
      every entry of a seat point at that seat's last bid. */
  function AliasedBids(seats: seq<SeatBid>): (r: seq<TypedBid>)
    ensures forall k :: 0 <= k < |r| ==> r[k].bidType == Banner
  {
    if seats == [] then []
    else
      var bids := seats[|seats| - 1].bid;
      AliasedBids(seats[..|seats| - 1]) +
        (if bids == [] then [] else Banners(seq(|bids|, _ => bids[|bids| - 1])))
  }

  /** Aliasing keeps the number of entries: one per bid of every seat. */
  lemma {:induction false} AliasedLength(seats: seq<SeatBid>)
    ensures |AliasedBids(seats)| == TotalBids(seats)
  {
    if seats != [] {
      var init := seats[..|seats| - 1];
      AliasedLength(init);
      TotalBidsAppend(init, seats[|seats| - 1]);
      assert init + [seats[|seats| - 1]] == seats;
    }
  }

  lemma {:induction false} AliasedPrefix(seats: seq<SeatBid>, n: nat)
    requires n <= |seats|
    ensures AliasedBids(seats[..n]) <= AliasedBids(seats)
  {
    if n < |seats| {
      AliasedPrefix(seats[..|seats| - 1], n);
      assert seats[..|seats| - 1][..n] == seats[..n];
    } else {
      assert seats[..n] == seats;
    }
  }

  /** As written, the entry at the place of bid j of seat i is that seat's last bid. */
  lemma AliasedIndex(seats: seq<SeatBid>, i: nat, j: nat)
    requires i < |seats| && j < |seats[i].bid|
    ensures TotalBids(seats[..i]) + j < |AliasedBids(seats)|
    ensures AliasedBids(seats)[TotalBids(seats[..i]) + j] ==
      TypedBid(seats[i].bid[|seats[i].bid| - 1], Banner)
  {
    var prefix := seats[..i + 1];
    var bids := seats[i].bid;
    assert prefix[..i] == seats[..i];
    assert AliasedBids(prefix) == AliasedBids(seats[..i]) + Banners(seq(|bids|, _ => bids[|bids| - 1]));
    AliasedLength(seats[..i]);
    AliasedPrefix(seats, i + 1);
  }

  /** A seat with two different bids loses its first one under aliasing. */
  lemma AliasingLosesBids()
    ensures var b1 := Bid("1", "imp-1", 1.0, "a");
            var b2 := Bid("2", "imp-1", 2.0, "b");
            var seats := [SeatBid("seat", [b1, b2])];
            AliasedBids(seats) == [TypedBid(b2, Banner), TypedBid(b2, Banner)] &&
            AliasedBids(seats) != Banners(Flatten(seats))
  {
  }

  /** Aliasing is invisible when no seat has more than one bid. */
  lemma {:induction false} AliasingHarmlessForSingleBidSeats(seats: seq<SeatBid>)
    requires forall i :: 0 <= i < |seats| ==> |seats[i].bid| <= 1
    ensures AliasedBids(seats) == Banners(Flatten(seats))
  {
    if seats != [] {
      var init := seats[..|seats| - 1];
      var bids := seats[|seats| - 1].bid;
      AliasingHarmlessForSingleBidSeats(init);
      BannersAppend(Flatten(init), bids);
      if bids != [] {
        assert seq(|bids|, _ => bids[|bids| - 1]) == bids;
      }
    }
  }

  lemma BannersAppend(a: seq<Bid>, b: seq<Bid>)
    ensures Banners(a + b) == Banners(a) + Banners(b)
  {
  }

  // ---------------------------------------------------------------------------
  // The adapter

  class FacebookAdapter {
    const uri: string
    const platformId: string

    /** `NewFacebookBidder`: the endpoint and the platform id are fixed; the
        argument is ignored (the client is transport and is not modelled). */
    constructor NewFacebookBidder(configuredPlatformId: string)
      ensures uri == EndpointUri && platformId == HardCodedPlatformId
    {
      uri := EndpointUri;
      platformId := HardCodedPlatformId;
    }

    /** The impression gets as far as the App/Site publisher injection. */
    predicate ReachesInjection(json: Codec, imp: Imp) {
      ExtractIds(json, imp).Success? && json.marshalReqExt(FacebookReqExt(platformId)).Success?
    }

    /** The Go code dereferences Site when App is nil (line 79); that is safe exactly
        when one of them is set or no impression gets that far. */
    predicate CanInjectPublisher(json: Codec, request: BidRequest) {
      request.app.Some? || request.site.Some? ||
      forall i :: 0 <= i < |request.imp| ==> !ReachesInjection(json, request.imp[i])
    }

    /** The bid request sent for an impression that reaches the injection. */
    function Outbound(json: Codec, request: BidRequest, imp: Imp): BidRequest
      requires ReachesInjection(json, imp)
      requires request.app.Some? || request.site.Some?
    {
      SingleImpRequest(request, imp, ExtractIds(json, imp).value,
                       json.marshalReqExt(FacebookReqExt(platformId)).value)
    }

    /** One impression's fate: a parse or ext-marshal failure skips it, a
        body-marshal failure aborts the call, otherwise one POST to the
        adapter's endpoint with the fixed headers and the per-impression body. */
    function Step(json: Codec, request: BidRequest, imp: Imp): (s: Outcome)
      requires request.app.Some? || request.site.Some? || !ReachesInjection(json, imp)
      ensures s.Skip? <==> !ReachesInjection(json, imp)
      ensures ExtractIds(json, imp).Failure? ==> s == Skip(ExtractIds(json, imp).error)
      ensures s.Emit? ==>
        s.request.httpMethod == "POST" && s.request.uri == uri && s.request.headers == FixedHeaders &&
        Success(s.request.body) == json.marshalRequest(Outbound(json, request, imp))
      ensures ExtractIds(json, imp).Success? && json.marshalReqExt(FacebookReqExt(platformId)).Failure? ==>
        s == Skip(Other(json.marshalReqExt(FacebookReqExt(platformId)).error))
      ensures s.Abort? ==>
        json.marshalRequest(Outbound(json, request, imp)).Failure? &&
        s.error == Other(json.marshalRequest(Outbound(json, request, imp)).error)
    {
      match ExtractIds(json, imp)
      case Failure(e) => Skip(e)
      case Success(ids) =>
        match json.marshalReqExt(FacebookReqExt(platformId))
        case Failure(m) => Skip(Other(m))
        case Success(ext) =>
          match json.marshalRequest(SingleImpRequest(request, imp, ids, ext))
          case Failure(m) => Abort(Other(m))
          case Success(body) => Emit(RequestData("POST", uri, body, FixedHeaders))
    }

    function Steps(json: Codec, request: BidRequest): seq<Outcome>
      requires CanInjectPublisher(json, request)
    {
      seq(|request.imp|, i requires 0 <= i < |request.imp| => Step(json, request, request.imp[i]))
    }

    /** Every request the fan-out emits is a POST to the adapter's endpoint with
        the fixed headers, and its body is the marshalled single-impression copy
        of some impression of the input. */
    lemma EmittedRequestShape(json: Codec, request: BidRequest, k: nat)
      requires CanInjectPublisher(json, request)
      requires k < |Emitted(Steps(json, request))|
      ensures var r := Emitted(Steps(json, request))[k];
        r.httpMethod == "POST" && r.uri == uri && r.headers == FixedHeaders &&
        exists i :: 0 <= i < |request.imp| && ReachesInjection(json, request.imp[i]) &&
          (request.app.Some? || request.site.Some?) &&
          Success(r.body) == json.marshalRequest(Outbound(json, request, request.imp[i]))
    {
      var steps := Steps(json, request);
      EmittedFrom(steps, k);
      var i :| 0 <= i < |steps| && steps[i].Emit? &&
        Emitted(steps)[k] == steps[i].request && |Emitted(steps[..i])| == k;
      assert steps[i] == Step(json, request, request.imp[i]);
    }

    /** `MakeRequests`: one request per impression, in order; parse failures
        are collected and skipped; a body-marshal failure discards every request
        and returns the errors so far plus its own; an empty input or an input
        with no usable impression is one more BadInput with its own message. */
    method MakeRequests(json: Codec, request: BidRequest) returns (reqs: seq<RequestData>, errs: seq<Error>)
      requires CanInjectPublisher(json, request)
      ensures request.imp == [] ==> reqs == [] && errs == [BadInput(NoImpressionsMessage)]
      ensures request.imp != [] ==>
        var steps := Steps(json, request);
        var k := FirstAbort(steps);
        if k < |steps| then
          reqs == [] && errs == Rejected(steps[..k]) + [steps[k].error]
        else if Emitted(steps) == [] then
          reqs == [] && errs == Rejected(steps) + [BadInput(NoValidImpressionsMessage)]
        else
          reqs == Emitted(steps) && errs == Rejected(steps)
    {
      if |request.imp| == 0 {
        return [], [BadInput(NoImpressionsMessage)];
      }
      ghost var steps := Steps(json, request);
      var headers := FixedHeaders;
      reqs, errs := [], [];
      var i := 0;
      while i < |request.imp|
        invariant 0 <= i <= |request.imp|
        invariant forall j :: 0 <= j < i ==> !steps[j].Abort?
        invariant reqs == Emitted(steps[..i]) && errs == Rejected(steps[..i])
      {
        StepsExtend(steps, i);
        assert steps[i] == Step(json, request, request.imp[i]);
        var imp := request.imp[i];
        var fbreq := request;
        var ids := ExtractIds(json, imp);
        if ids.Failure? {
          errs := errs + [ids.error];
          i := i + 1;
          continue;
        }
        var reqExt := json.marshalReqExt(FacebookReqExt(platformId));
        if reqExt.Failure? {
          errs := errs + [Other(reqExt.error)];
          i := i + 1;
          continue;
        }
        fbreq := fbreq.(ext := reqExt.value);
        var pubId := ids.value.publisherId;
        imp := imp.(tagId := pubId + "_" + ids.value.placementId, ext := []);
        fbreq := fbreq.(imp := [imp]);
        assert ReachesInjection(json, request.imp[i]);
        if fbreq.app.Some? {
          var app := fbreq.app.value.(publisher := Some(Publisher(pubId)));
          fbreq := fbreq.(app := Some(app));
        } else {
          var site := fbreq.site.value.(publisher := Some(Publisher(pubId)));
          fbreq := fbreq.(site := Some(site));
        }
        assert fbreq == SingleImpRequest(request, request.imp[i], ids.value, reqExt.value);
        var body := json.marshalRequest(fbreq);
        if body.Failure? {
          errs := errs + [Other(body.error)];
          assert FirstAbort(steps) == i;
          return [], errs;
        }
        reqs := reqs + [RequestData("POST", uri, body.value, headers)];
        i := i + 1;
      }
      assert steps[..i] == steps;
      if |reqs| == 0 {
        errs := errs + [BadInput(NoValidImpressionsMessage)];
        return [], errs;
      }
    }

    /** `MakeBids`: a non-200 status is one BadInput naming the status and the
        `x-fb-an-errors` text (empty if absent); an undecodable body is the
        decoder's error as it is; otherwise every bid of every seat, in order,
        typed as a banner, and no error (possibly no bids). */
    method MakeBids(json: Codec, response: ResponseData) returns (resp: Option<BidderResponse>, errs: seq<Error>)
      ensures response.statusCode != StatusOk ==>
        resp == None &&
        errs == [BadInput(StatusMessage(response.statusCode, response.errorHeader.GetOr("")))]
      ensures response.statusCode == StatusOk && json.unmarshalResponse(response.body).Failure? ==>
        resp == None && errs == [Other(json.unmarshalResponse(response.body).error)]
      ensures response.statusCode == StatusOk && json.unmarshalResponse(response.body).Success? ==>
        var seats := json.unmarshalResponse(response.body).value.seatBid;
        errs == [] && resp == Some(BidderResponse(Banners(Flatten(seats)))) &&
        |resp.value.bids| == TotalBids(seats)
    {
      if response.statusCode != StatusOk {
        var msg := response.errorHeader.GetOr("");
        return None, [BadInput(StatusMessage(response.statusCode, msg))];
      }
      var bidResp := json.unmarshalResponse(response.body);
      if bidResp.Failure? {
        return None, [Other(bidResp.error)];
      }
      var seats := bidResp.value.seatBid;
      var out: seq<TypedBid> := [];
      var i := 0;
      while i < |seats|
        invariant 0 <= i <= |seats|
        invariant out == Banners(Flatten(seats[..i]))
      {
        var seat := seats[i];
        var j := 0;
        while j < |seat.bid|
          invariant 0 <= j <= |seat.bid|
          invariant out == Banners(Flatten(seats[..i]) + seat.bid[..j])
        {
          var prev := Flatten(seats[..i]) + seat.bid[..j];
          assert Flatten(seats[..i]) + seat.bid[..j + 1] == prev + [seat.bid[j]];
          assert (prev + [seat.bid[j]])[..|prev|] == prev;
          out := out + [TypedBid(seat.bid[j], Banner)];
          j := j + 1;
        }
        assert seat.bid[..j] == seat.bid;
        assert seats[..i + 1][..i] == seats[..i];
        i := i + 1;
      }
      assert seats[..i] == seats;
      FlattenLength(seats);
      return Some(BidderResponse(out)), [];
    }
  }
}
