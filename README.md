# Audience Network bidder adapter, modelled in Dafny

This project models the Audience Network adapter of Prebid Server
(`adapters/audienceNetwork/facebook.go`). The adapter connects the auction
host to one ad exchange, and it has three parts:

- **Identifier parser** (`extractPlmtAndPub`). It reads the impression's
  `placementId`/`publisherId` pair and accepts two forms. The modern form has
  two separate fields. The legacy form is a single `pub_plmt` string, and in
  that form the separate publisher id is ignored.
- **Request fan-out** (`MakeRequests`). It sends one POST per impression. Each
  body is a copy of the bid request that holds only that impression, with tag
  id `pub_plmt`, no impression ext, top-level ext `{platformid}`, and the
  publisher set on the App, or on the Site when there is no App. There are
  three failure policies: a parse failure skips the impression, an
  ext-marshal failure skips it too, and a body-marshal failure aborts the
  whole call. Then come the "no impressions" and "no valid impressions" checks.
- **Response mapper** (`MakeBids`). A status other than 200 becomes one
  BadInput error that quotes the status and the `x-fb-an-errors` header. A
  body that does not decode is passed on as the decoder's own error.
  Otherwise every bid of every seat is returned in order, each one typed as a
  banner.

Files:

- `wrappers.dfy`: `Option` and `Result`.
- `go_strings.dfy`: Go's `strings.Split` and `strings.Join` on a one-character
  separator, and `%d` formatting, with their round trips.
- `openrtb.dfy`: the OpenRTB objects the adapter touches, as values.
- `adapters.dfy`: the host's types (errors, request descriptors, responses,
  typed bids) and `Codec`. `Codec` holds `encoding/json` as one possibly
  failing function per call site.
- `facebook.dfy`: the adapter itself. `FacebookAdapter` is a class with the
  two constant fields `uri` and `platformId`. `MakeRequests` and `MakeBids`
  are loops proved against the reference functions `Emitted`, `Rejected`,
  `FirstAbort`, `Flatten` and `Banners`.

The adapter's identity is modelled as constants: `Name()` (lines 23-25) is
`AdapterName`, `"audienceNetwork"`, and `SkipNoCookies()` (lines 27-29) is the
constant `SkipNoCookies`, `false`. The endpoint URI and the platform id that
`NewFacebookBidder` installs (lines 197 and 200) are `EndpointUri` and
`HardCodedPlatformId`.

The Go code copies `*request`, `*App` and `*Site` before it changes them. In
the model every request object is an immutable value, so the caller's request
cannot change, and one impression's copy cannot affect another's.

Points where the code's behaviour is easy to misread:

- The legacy branch does not check that the two halves are non-empty, so
  `"_"`, `"a_"` and `"_b"` are accepted (`LegacyAcceptsEmptyHalves`).
- When App is nil the code dereferences Site unchecked. The model states this
  as the precondition `CanInjectPublisher`, which is needed only when some
  impression reaches the publisher step.
- Besides parse failures, the code also skips an impression whose request ext
  fails to marshal (lines 65-67).
- `NewFacebookBidder` ignores its `platformId` argument and installs a fixed
  platform id.

## Model

| member | source | states |
|---|---|---|
| `GoStrings.Split` | adapters/audienceNetwork/facebook.go:137 | `strings.Split` on `_` gives one more piece than there are separators, and no piece contains the separator |
| `GoStrings.JoinSplit` | adapters/audienceNetwork/facebook.go:137 | joining the pieces with `_` rebuilds the split string |
| `GoStrings.SplitJoin` | adapters/audienceNetwork/facebook.go:137 | splitting a `_`-join of separator-free pieces gives back exactly those pieces |
| `GoStrings.FormatInt` | adapters/audienceNetwork/facebook.go:162 | `%d` gives an optional minus sign (present exactly for negatives) followed by decimal digits |
| `GoStrings.FormatIntRoundTrip` | adapters/audienceNetwork/facebook.go:162 | the `%d` text reads back to the same integer, so the message loses nothing about the status code |
| `AudienceNetwork.StatusMessageMentions` | adapters/audienceNetwork/facebook.go:160-163 | the non-200 message contains both the formatted status code and the error header text |
| `AudienceNetwork.ParseIds` | adapters/audienceNetwork/facebook.go:123-155 | an empty placement id gives "Missing placementId param" whatever the publisher id is; without `_` the pair is returned unchanged, or "Missing publisherId param" if the publisher id is empty; with one `_` it succeeds with `_`-free halves whose tag id is the input; with two or more it gives the "Invalid ..." message quoting both inputs; success holds iff one of the two accepted forms applies |
| `AudienceNetwork.ExtractIds` | adapters/audienceNetwork/facebook.go:108-156 | every failure is BadInput; a failed decode of the envelope or of the bidder part carries the decoder's message unchanged; otherwise the result is the parser's |
| `AudienceNetwork.LegacyComposite` | adapters/audienceNetwork/facebook.go:146-148 | `a_b` (both `_`-free) parses to placement `b` and publisher `a`, whatever publisher id is supplied |
| `AudienceNetwork.TagIdReparses` | adapters/audienceNetwork/facebook.go:70 | the tag id of a `_`-free pair parses back to that pair |
| `AudienceNetwork.TagIdRebuildsInput` | adapters/audienceNetwork/facebook.go:137-155 | after a successful parse the tag id equals the original placement id on the legacy path, and `publisherId_placementId` on the modern path |
| `AudienceNetwork.LegacyAcceptsEmptyHalves` | adapters/audienceNetwork/facebook.go:146-148 | `"_"` is accepted and yields two empty ids; no emptiness check is made on the legacy path |
| `AudienceNetwork.AcceptedExamples` | adapters/audienceNetwork/facebook.go:137-148 | `("abc","123")` is kept as it is; `"123_abc"` gives `("abc","123")` |
| `AudienceNetwork.MissingParamExamples` | adapters/audienceNetwork/facebook.go:123-143 | `("", "123")` and `("abc", "")` are rejected with their two messages |
| `AudienceNetwork.TooManyTokensExample` | adapters/audienceNetwork/facebook.go:149-152 | `"1_2_3"` is rejected with the message quoting both inputs |
| `AudienceNetwork.SingleImpRequest` | adapters/audienceNetwork/facebook.go:56-82 | the copy keeps the request id, carries the platform ext and exactly one impression (same id, tag id `pub_plmt`, no ext); it sets the publisher on the App when there is one and leaves the Site alone, and otherwise sets it on the Site |
| `AudienceNetwork.FirstAbort` | adapters/audienceNetwork/facebook.go:84-88 | the index of the first impression whose body marshal fails, or the count of impressions when none fails |
| `AudienceNetwork.EmittedPlusRejected` | adapters/audienceNetwork/facebook.go:53-96 | without an abort, every impression yields exactly one request or one error |
| `AudienceNetwork.EmittedPosition` | adapters/audienceNetwork/facebook.go:90-95 | the request of an emitted impression comes right after the requests of the impressions emitted before it (one per impression, in input order) |
| `AudienceNetwork.EmittedFrom` | adapters/audienceNetwork/facebook.go:90-95 | conversely, the k-th request is the request of an emitted impression that has exactly k emitted impressions before it, so requests and emitted impressions correspond one to one, in order |
| `AudienceNetwork.RejectedPosition` | adapters/audienceNetwork/facebook.go:58-68 | the error of a skipped impression comes right after the errors of the impressions skipped before it, however skips and emits are mixed |
| `AudienceNetwork.RejectedFrom` | adapters/audienceNetwork/facebook.go:58-68 | conversely, the k-th skip error is the error of a skipped impression that has exactly k skipped impressions before it |
| `AudienceNetwork.FacebookAdapter.EmittedRequestShape` | adapters/audienceNetwork/facebook.go:84-95 | every request the fan-out emits is a POST to the adapter's uri with the two fixed headers, and its body is the marshalled single-impression copy of some input impression |
| `AudienceNetwork.AllSkipped` | adapters/audienceNetwork/facebook.go:98-103 | when every impression is skipped, nothing is emitted and each impression contributes its own error, in order |
| `AudienceNetwork.FacebookAdapter.Step` | adapters/audienceNetwork/facebook.go:56-95 | an impression is skipped iff it fails to parse or its ext fails to marshal (a parse failure skips with the parse error); an emitted request is a POST to the adapter's uri with the two fixed headers, whose body is the marshalled per-impression copy; an ext-marshal failure skips with that marshal error as `Other`; an abort is a body-marshal failure, reported as `Other` with the marshaller's message |
| `AudienceNetwork.FacebookAdapter.MakeRequests` | adapters/audienceNetwork/facebook.go:35-106 | no impressions gives no requests and one "no impressions provided"; a first abort at k gives no requests, the skip errors before k, then the abort error; otherwise the emitted requests with the skip errors, or, if none was emitted, no requests and the skip errors followed by "no valid impressions provided" |
| `AudienceNetwork.FacebookAdapter.NewFacebookBidder` | adapters/audienceNetwork/facebook.go:184-202 | the endpoint is `https://an.facebook.com/placementbid.ortb` and the platform id is the hard-coded one, whatever the argument |
| `AudienceNetwork.Banners` | adapters/audienceNetwork/facebook.go:174-177 | one typed bid per bid, same position, the type always Banner |
| `AudienceNetwork.FlattenLength` | adapters/audienceNetwork/facebook.go:172-179 | the number of mapped bids is the sum of the seat sizes |
| `AudienceNetwork.FlattenIndex` | adapters/audienceNetwork/facebook.go:172-179 | seat-then-bid order: bid j of seat i sits after every bid of the earlier seats and after the first j bids of its own seat |
| `AudienceNetwork.FacebookAdapter.MakeBids` | adapters/audienceNetwork/facebook.go:158-182 | a status other than 200 gives no response and one BadInput naming the status and the header text (empty if absent); a decode failure gives no response and the decoder's error as it is; otherwise no error and the banner-typed flattening of all seats, with length equal to the sum of the seat sizes (possibly zero) |
| `AudienceNetwork.AliasedBids` | adapters/audienceNetwork/facebook.go:172-179 | as written under Go before 1.22, every entry of a seat is that seat's last bid; every entry is still a Banner |
| `AudienceNetwork.AliasedLength` | adapters/audienceNetwork/facebook.go:172-179 | as written, the number of entries is still the sum of the seat sizes |
| `AudienceNetwork.AliasedIndex` | adapters/audienceNetwork/facebook.go:173-175 | as written, the entry where bid j of seat i belongs is a Banner holding seat i's last bid |
| `AudienceNetwork.AliasingLosesBids` | adapters/audienceNetwork/facebook.go:173-175 | a seat with two different bids comes out as two copies of the second bid, which differs from the intended mapping |
| `AudienceNetwork.AliasingHarmlessForSingleBidSeats` | adapters/audienceNetwork/facebook.go:173-175 | when no seat has more than one bid, the aliased mapping and the intended mapping agree |

## Left out

- `encoding/json` (lines 65, 84, 110, 117, 167) is a foreign library. Each call site is one field of `Codec`: an arbitrary total function that returns a value or the library's message. An impression's ext is raw bytes that the codec decodes.
- HTTP transport: the `http` client field, `adapters.HTTPAdapter` and the `reqInfo` argument of `MakeRequests` are not modelled. The `request` and `adapterRequest` arguments of `MakeBids` are unused by the Go code and are dropped.
- `http.Header` is a fixed list of two (name, value) pairs. The `x-fb-an-errors` lookup is an optional string, where absent reads as `""`. Header-name canonicalisation and multi-valued headers are not modelled.
- Concurrency: the request copies are values, and no threads are modelled.
- Go `nil` versus empty slices: an empty sequence stands for `nil`. Also not modelled: the capacity hints (`make(..., 0, len)`, `NewBidderResponseWithBidsCapacity(4)`) and the sharing of one header map across all requests.
- `nonSecureUri` is never read, and the commented-out configuration check in `NewFacebookBidder` is dead code. Neither is modelled.
- OpenRTB objects carry only the fields the adapter touches, plus one identifier each to show that untouched fields are copied through. A bid's float64 price is a `real` that is only copied.
- A nil dereference when neither App nor Site is set is excluded by `CanInjectPublisher`; the panic is not modelled.
- Pointer identity in `MakeBids` (`&bid`) is not reproduced. Its observable effect under Go before 1.22 is modelled separately as `AliasedBids`.

## Findings

| source | as written | input that shows it | evidently intended | confidence | as-written member | corrected member |
|---|---|---|---|---|---|---|
| adapters/audienceNetwork/facebook.go:173-175 | `Bid: &bid` takes the address of the inner range variable. Before Go 1.22 that is one variable per seat, so every entry of a seat points at the seat's last bid | one seat with bids b1, b2 where b1 differs from b2 gives [b2, b2] | one typed bid per bid: [b1, b2] | not executed; applies to Go before 1.22 | `AudienceNetwork.AliasedBids`, shown by `AudienceNetwork.AliasingLosesBids` and `AudienceNetwork.AliasedIndex` | `AudienceNetwork.FacebookAdapter.MakeBids` (with `AudienceNetwork.FlattenIndex`) |
