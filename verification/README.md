# Firezone Go SDK: verified model

A Dafny 4.11 model of the parts of the Firezone Go SDK that hold algorithms rather than plumbing, with proofs of
what they promise. `dafny verify dfyconfig.toml` checks all of it.

| file | models |
|---|---|
| `GoBase.dfy`, `Strings.dfy`, `Decimal.dfy`, `Sorting.dfy` | byte strings, int64, joining and splitting, string order, decimal text, sorting by a key |
| `RetryWait.dfy` | the arithmetic of one retry wait, in int64, and the Retry-After header |
| `Retry.dfy` | errors, responses, and the retry loop as a recursive specification over every response stream |
| `SdkClient.dfy` | the client: its options, `NewClient`, and the retry loop as it runs against the network |
| `Concurrent.dfy` | any number of calls interleaving on one shared client |
| `UrlPath.dfy` | percent-escaping, `checkID`, `buildPath`, `resolvePath` |
| `Proxy.dfy` | a path-normalising proxy (RFC 3986, sections 5.2.4 and 6.2.2) and what it can do to a request |
| `Json.dfy` | JSON values (RFC 8259) printed to and parsed from token sequences |
| `Posture.dfy`, `PostureProofs.dfy`, `KeyOrder.dfy` | the posture expression codec |
| `GenPosture.dfy`, `Render.dfy` | the generator of posture field constants |
| `IsoDuration.dfy`, `ValidationErrors.dfy`, `NullFields.dfy` | durations as text, field error text, nullable update fields |

What the outside decides is a parameter: the k-th response, the k-th random draw, whether the k-th wait is cut
short, the order a map is walked in, the schedule of concurrent calls. All theorems hold for every choice of these.

Where the code does not do what its comments say, or what a reader might expect of it, the model follows the code:

- Retry-After is a floor only up to the cap, because the cap is applied after the maximum (`retry.go:84`);
  `RetryAfterIsFloorIffWithinCap` gives the exact condition, `RetryAfterOf60sIsCutShort` a header that fails it.
- The cap does not bound a wait (`retry.go:13-15`, `firezone.go:265-266`), because the jitter is added after it
  (`retry.go:85`): the default cap of 30 s lets a wait of almost 32 s through (`WaitBeyondTheCap`).
  `CapBoundsWaitIff` gives the exact condition for an attempt and a header, `CapBoundsEveryWaitIff` over all of them.
- For the same reason a wait can overflow int64, as `WithRetryMaxWait` accepts any cap (`firezone.go:273-278`).
  `NoOverflowIffSafeCap` gives the exact bound: 2 s less one nanosecond below the largest duration. With the largest
  cap it can happen on the first attempt (`FirstWaitCanOverflow`).
- Waits stop escalating at attempt 31, where the backoff has already jumped to the largest duration
  (`retry.go:100`), and whenever the cap leaves less room than the jitter; `EscalationBeatsJitter` gives the exact
  condition. With default settings five waits, and no more, are sure to top the one before (`DefaultsEscalateFiveTimes`).
- `defaultMaxRetries` covers at least 181 s, not "a bit over two minutes" (`firezone.go:238-239`), and allows
  eleven attempts, not ten.
- `parseRetryAfter` multiplies without a bound (`errors.go:105`); `ParseRetryAfterIsExactIff` says up to where it is
  exact, and `OverflowingRetryAfter` gives the least header it is not: 9223372037 is read as a negative duration.
- Resolving takes one trailing slash off the base URL and no more (`path.go:68`): base paths `/` and `//` send every
  request to different URLs (`SecondSlashMatters`). `FirstTrailingSlashIsImmaterial` gives the exact condition.
- Leaf schemas that give a field different types are not noticed (`internal/genposture/main.go:118-120`): the last one
  decides (`DisagreeingLeavesAreAccepted`). `EveryLeafAgreesIff` says when an accepted table has the types of them all.
- A posture value that is not nil but encodes as null does not survive the round trip (`postures.go:174`);
  `RoundTrip` gives the exact condition, `NullValueIsLost` the check that comes back without its value.

## Model

| member | source | states |
|---|---|---|
| `RetryWait.BackoffMonotone` | retry.go:95-104 | the backoff starts at 1 s, doubles with each attempt, and never falls, the jump at attempt 30 included |
| `RetryWait.BaseWaitIsCapped` | retry.go:82-93 | before jitter a wait is the larger of header and backoff, up to the cap the caller gave, or 30 s if that is not positive |
| `RetryWait.JitterRange` | retry.go:106-120 | the jitters of a base are zero and every value below half of it and below 2 s; a failed random source gives zero |
| `RetryWait.WaitRange` | retry.go:82-86 | the waits an attempt can produce are exactly its base and what is above it by less than half of it and less than 2 s |
| `RetryWait.NoOverflowIffSafeCap` | retry.go:82-86 | no attempt, header and draw overflow int64 if and only if the cap is at most the largest duration less 2 s plus 1 ns |
| `RetryWait.CapBoundsWaitIff` | retry.go:82-93 | for an attempt and a header, no draw waits longer than the cap the caller gave if and only if that leaves room for the jitter or is the largest duration |
| `RetryWait.CapBoundsEveryWaitIff` | retry.go:82-86 | over all attempts and headers that is so only of caps up to 3 ns and of the largest duration |
| `RetryWait.RetryAfterIsFloorIffWithinCap` | retry.go:70-86 | no draw waits less than Retry-After if and only if Retry-After is within the cap and no draw can overflow |
| `RetryWait.EscalatesIff` | retry.go:82-120 | for any two headers and any cap, every wait of an attempt is longer than every wait of the one before if and only if the bases are a jitter window apart and the later one cannot overflow |
| `RetryWait.EscalationBeatsJitter` | retry.go:70-86 | when the earlier header asks for no more than the curve, that is so if and only if the attempt is at most 30, the cap leaves room for the jitter, and the later wait cannot overflow, whatever the later header |
| `RetryWait.ParseRetryAfterIsExactIff` | errors.go:97-106 | a header of n seconds is read as n seconds if and only if n seconds fit a duration |
| `RetryWait.ParseRetryAfterOfNumber` | errors.go:97-106 | blanks, a sign and digits with anything after them are read as that many seconds, or as zero if negative or beyond an int |
| `RetryWait.ParseRetryAfterOfText` | errors.go:97-106 | a header that is not of that form, such as a date, is read as zero |
| `Retry.WrappingIsTransparent` | errors.go:132-138 | an API error has its own status and wait however often it is wrapped, and no other error has any |
| `Retry.ReplyConveysResponse` | firezone.go:447-464 | a 2xx gives its body, any other status an error with that status and no body, a failed round trip its own error wrapped; only a 429, or a failure that is itself one, asks for a retry |
| `Retry.CallFollowsAnswers` | retry.go:32-68 | told by the answers it gets, a call goes on for as long as they are 429s, the budget lasts and no wait is cut short; it sends the caller's verb, query and body each time, sleeps by each answer's header, and returns what the last answer conveys or the context's error |
| `Retry.FailedRoundTripIsNotRepeated` | retry.go:44-47 | a request whose round trip failed, other than with a 429 error, is not sent again and its error is returned wrapped |
| `Retry.LoopIsFirstStop` | retry.go:32-68 | for every response stream: the loop makes k + 1 attempts if and only if attempt k is the first not retried or the last in budget, every earlier one being a 429; the bytes sent are the same each time; the reply is that attempt's, or the context's error |
| `Retry.NeverSilent` | retry.go:59-67 | exactly one of body and error is returned, always; the guard after the loop fires if and only if retrying is on with a negative budget |
| `Retry.ExhaustedCallSleeps` | retry.go:38-57 | a call that spends its budget, no wait of it able to overflow, sleeps at least the sum of the capped exponential curve, and less than that plus the jitter windows unless a header it waits on asks for more |
| `Retry.BasesAreSafeIff` | retry.go:38-57 | no wait of a call can overflow if and only if its cap is safe, or its budget is at most 30 and no header it waits on asks for more than is safe |
| `Retry.DefaultCallSleeps` | firezone.go:230-240 | with default settings that is at least 181 s and under 198.5 s |
| `SdkClient.RejectsTheUnsound` | firezone.go:149-278 | an option is refused if and only if no settings a request can be made with are as it asks |
| `SdkClient.ConfigureKeepsSound` | firezone.go:149-278 | accepted options, in any number and order, leave a non-nil HTTP client, a user agent, and a timeout and budget that are not negative |
| `SdkClient.UntouchedSettingsStay` | firezone.go:331-335 | a setting no option of its kind touches keeps its value through any list of options |
| `SdkClient.LastOptionWins` | firezone.go:331-335 | the settings are as the last option of each kind asks, whatever came before |
| `SdkClient.DefaultsStand` | firezone.go:321-329 | settings no option touches are the documented defaults |
| `SdkClient.DefaultClientUnderThrottling` | firezone.go:230-241 | a client with no retry options, throttled without end, sends eleven requests, sleeps at least 181 s and under 198.5 s, and returns the rate limit |
| `SdkClient.CheckBaseUrlIff` | firezone.go:288-305 | a base URL is accepted if and only if it has an http scheme, a host, no query and no fragment |
| `SdkClient.AcceptedBaseAddsNoQuery` | firezone.go:288-305 | on an accepted base every request goes out with its own query or none, and no fragment |
| `SdkClient.DrainShared` | firezone.go:34-50 | attempts draining one shared reader send the body once and empty bodies after it |
| `SdkClient.FreshReadersAreNeeded` | firezone.go:34-50 | every attempt of a call carries the whole body; one shared reader would have sent the same if and only if there was one attempt at most or the body was empty |
| `SdkClient.Client.Apply` | firezone.go:149-278 | an option changes its own setting and no other, or fails and changes nothing |
| `SdkClient.Client.New` | firezone.go:312-354 | NewClient checks the base URL, runs options in order, stops at the first that fails with no client, and otherwise returns a fresh client with sound settings |
| `SdkClient.NewClientNeverTripsGuard` | retry.go:59-67 | a call on a client NewClient returned makes between 1 and budget + 1 attempts and never reaches the guard |
| `SdkClient.Client.RawRequest` | firezone.go:416-464 | one round trip sends the request's own bytes and query to a URL resolved afresh, or nothing if the path does not resolve |
| `SdkClient.Client.RequestWithRetry` | retry.go:32-68 | the running loop returns, sends and sleeps exactly what the recursive specification says, for every client, request and world |
| `Concurrent.StepKeepsInv` | retry.go:38-57 | every event, expected or not, keeps the invariant that a call's traffic, sleep and phase follow from the answers it got |
| `Concurrent.DoneCallIsASoloCall` | retry.go:32-68 | a finished call, whatever happened to it, has returned, sent and slept exactly what requestWithRetry does alone on the answers that call received |
| `Concurrent.CallTraffic` | retry.go:38-57 | at every moment a call has sent at most budget + 1 requests, all the same |
| `Concurrent.CallTerminates` | retry.go:38-57 | no sequence of events moves a call more than 3 x budget + 2 times |
| `Concurrent.CallIsNeverStuck` | retry.go:38-57 | a call that is not done can always be moved by some event |
| `Concurrent.Flight.Advance` | path.go:67-79 | one event changes the call it happens to and nothing else |
| `Concurrent.Interleave` | firezone.go:79-95 | under every schedule, each of many calls on one client ends where its own events alone would have taken it, and the client and its base URL are unchanged |
| `Concurrent.TotalTraffic` | retry.go:38-57 | under every schedule, n calls send at most n x (budget + 1) requests |
| `Concurrent.ShareClient` | firezone.go:79-95 | for calls started on a client NewClient could have returned, under every schedule: each call that is done ended as requestWithRetry does alone on its own answers, the requests sent add up to at most calls x (budget + 1), and the client is unchanged |
| `UrlPath.EscapeRoundTrip` | path.go:50-56 | unescaping an escaped string gives it back byte for byte |
| `UrlPath.EscapeIsIdentityIff` | path.go:50-56 | a segment or a path is sent as it is if and only if it consists of letters, digits and the marks it may hold |
| `UrlPath.EscapedByteIs` | path.go:50-56 | any other byte is sent as a percent sign and its value in two upper-case digits |
| `UrlPath.BadEscapeIff` | path.go:70-73 | unescaping fails if and only if a percent sign lacks two hexadecimal digits after it |
| `UrlPath.EncodedByteIff` | path.go:68 | the bytes that may stand in an escaped path, as RFC 3986, section 3.3, has them, with brackets and the percent sign |
| `UrlPath.EscapedPathEncodesPath` | path.go:68-73 | for every URL, its escaped path is well formed and decodes to its path |
| `UrlPath.BuildPath` | path.go:50-56 | the loop over segments yields the escaped segments joined by slashes |
| `UrlPath.PathIsFaithful` | path.go:39-56 | splitting a built path at slashes gives one part per segment, and each unescapes to its segment |
| `UrlPath.PathIsInjective` | path.go:39-56 | two segment lists share a path if and only if they are equal, or one is empty and the other a single empty segment |
| `UrlPath.ResolvePath` | path.go:67-79 | the URL returned is a fresh copy; the shared base is not written |
| `UrlPath.ResolveFailsIffBadlyEscaped` | path.go:70-73 | resolving fails if and only if the request path is badly escaped; no base URL can make it fail |
| `UrlPath.BuiltPathResolves` | path.go:58-79 | a built path resolves against every base, RawPath decodes to Path so the escaped form is what is sent, and Path is the base's followed by the raw segments |
| `UrlPath.TrailingSlashIsImmaterial` | path.go:68 | for any URL value, one more slash on the base changes nothing if and only if the base has none yet and is not the bare star that EscapedPath respells |
| `UrlPath.FirstTrailingSlashIsImmaterial` | path.go:68 | for a base with a host, one more slash changes nothing if and only if the base does not end in one |
| `Proxy.RemoveDotSegments` | path.go:27-29 | the two-buffer algorithm of RFC 3986, section 5.2.4, computes on every absolute path the walk down a tree of names |
| `Proxy.EscapedDot` | path.go:27-28 | escaping neither makes nor hides a dot segment |
| `Proxy.NormalisePercentIsIdentityIff` | path.go:24-28 | percent-encoding normalisation leaves alone exactly the strings in which no triplet spells an unreserved byte or has a lower-case digit |
| `Proxy.NormalisePercentKeepsMeaning` | path.go:24-28 | a well-escaped string is normalised to such a string, which unescapes to the same |
| `Proxy.ProxyKeepsRequest` | path.go:24-56 | for every base URL with a host and IDs that pass checkID, a normalising proxy forwards the request's segments unchanged, after a prefix that depends on the base alone |
| `Proxy.ProxyIsIdentityIff` | path.go:58-79 | the proxy forwards the path as it is if and only if the base is percent-normal and neither base nor request has a dot segment |
| `Proxy.CheckIdIsExact` | path.go:29-37 | behind a base the proxy leaves alone, checkID accepts exactly the IDs that are not empty and arrive untouched, and reports a missing ID of the empty one alone |
| `Proxy.EmptyIdWouldAddressCollection` | path.go:10-21 | an unchecked empty ID would send the request to the collection's own path |
| `Proxy.DotDotIdWouldRedirect` | path.go:24-37 | an unchecked ID of two dots would turn a request for any collection into one for the base itself |
| `Proxy.WirePathIsSent` | path.go:67-79 | the path these results speak of is the one resolvePath's URL sends |
| `Proxy.WirePathIsPlain` | path.go:39-79 | no base and no IDs put a query or fragment delimiter, a blank, a control or a non-ASCII byte on the wire |
| `Proxy.WirePathIsInjective` | path.go:39-56 | different requests on one base never share a path on the wire |
| `Json.ParseInvertsPrint` | postures.go:207-219 | every JSON value of any depth and width is read back from its tokens with none left over |
| `Json.ParseIffPrinted` | postures.go:207-219 | a token sequence parses to a value if and only if it is that value's printed form |
| `Posture.MarshalJSON` | postures.go:177-211 | counting shapes and recursing gives the specified encoding, or the first error in the order the checks are made |
| `Posture.NodeVar.UnmarshalJSON` | postures.go:213-224 | decoding replaces the receiver whole, or fails and leaves it as it was |
| `PostureProofs.FaultlessIffOneShape` | postures.go:181-206 | a node passes the shape count and the rows checks if and only if it is exactly an and, an or, a not or a field check |
| `PostureProofs.AcceptedIffEveryNodeOneShape` | postures.go:177-211 | a tree encodes if and only if every node on every path in it is of one shape |
| `PostureProofs.ConstructorsAccepted` | postures.go:137-159 | what the constructors build, a check with rows included, is accepted exactly when the children are and the list, field, operator or rows are in order |
| `PostureProofs.ConstructorsSend` | postures.go:137-159 | an and, or or not is sent as its own key and nothing else, holding its children's encodings in order; a check as its field, operator, rows if any and value if any |
| `PostureProofs.WithRowsAcceptedIff` | postures.go:181-206 | naming rows on any node is accepted if and only if it is an acceptable check on a field outside the device's own record; on an and, or or not it never is |
| `PostureProofs.RoundTrip` | postures.go:165-224 | every accepted tree comes back from its tokens, equal to itself if and only if no value in it encodes as null |
| `PostureProofs.ReencodingIsStable` | postures.go:118-119 | a tree read from any JSON, if it can be encoded again, decodes to itself |
| `PostureProofs.DecodesIffWellTyped` | postures.go:213-224 | a JSON value decodes to a node if and only if it is null or an object in which every known key holds its own type or null, at every depth |
| `PostureProofs.NullIsAbsence` | postures.go:165-175 | a null is read as the zero node, and a key that holds null as one that is not there |
| `KeyOrder.SetKeysCommute` | postures.go:165-175 | decoding two different keys of an object gives the same node, or an error, in either order |
| `KeyOrder.LaterKeyWins` | postures.go:213-224 | of a key given twice the later value stands, unless it is a null for a string field, which encoding/json leaves alone |
| `KeyOrder.UnknownKeysAreIgnored` | postures.go:213-224 | members with keys a node does not have change nothing, whatever their values |
| `KeyOrder.OrderIsImmaterial` | postures.go:165-175 | values that differ only in the order of keys, at any depth, decode alike |
| `KeyOrder.PermutedIsSame` | postures.go:165-175 | any rearrangement of an object's members is such a reordering |
| `KeyOrder.ReorderedInsideIsSame` | postures.go:165-175 | so is any reordering of the values inside it |
| `KeyOrder.ReorderedEncodingDecodes` | postures.go:165-224 | an accepted encoding with its objects' keys in any other order decodes to the tree that was sent with its nulls erased |
| `KeyOrder.KeysTellTheShape` | postures.go:165-166 | an accepted object has distinct keys and exactly one of and, or, not and field, which names the shape |
| `Sorting.SortBy` | internal/genposture/main.go:149 | sorting arranges the same records in key order |
| `Sorting.SortedArrangementsAgree` | internal/genposture/main.go:149 | records with distinct keys have one sorted arrangement, whatever the algorithm |
| `GenPosture.IdentFor` | internal/genposture/main.go:153-164 | the loop over words spells the identifier of the name |
| `GenPosture.IdentOfWord` | internal/genposture/main.go:153-164 | the identifier of one word is the prefix with the initialism, or with the word and its first letter a capital |
| `GenPosture.IdentAtBreak` | internal/genposture/main.go:153-164 | the identifier of a name with a dot or underscore is that of the part before it followed by that of the part after |
| `GenPosture.IdentSpellsName` | internal/genposture/main.go:153-164 | after its prefix an identifier spells the name without dots and underscores, letter case aside, initialisms included |
| `GenPosture.IdentIsAnIdentifier` | internal/genposture/main.go:153-164 | a name over the table's alphabet gives the prefix followed by letters and digits alone |
| `GenPosture.ReadLeaves` | internal/genposture/main.go:121-127 | the nested loops build the map that `LeafTypesAt` describes |
| `GenPosture.TypeWordIff` | internal/genposture/main.go:123 | the type is the description up to the first blank: all of it, or what a blank and prose follow |
| `GenPosture.LeafTypesAt` | internal/genposture/main.go:121-127 | a field is in the map if and only if some leaf schema lists it, with the type that the description of the last such schema starts with |
| `GenPosture.Load` | internal/genposture/main.go:118-151 | load succeeds if and only if every row has a known type the leaf schemas agree with, identifiers are distinct and the counts match; it then returns every row's field in name order, and otherwise says what is wrong with the first bad row, or that the counts differ |
| `GenPosture.RegistriesCoincide` | internal/genposture/main.go:118-148 | an accepted table lists exactly the fields some leaf schema lists, each once, with a known type that is the one the last such schema gives, though only one direction and a count are checked |
| `GenPosture.CoincidingRegistriesAreAccepted` | internal/genposture/main.go:118-148 | a table that so coincides with the leaf schemas and names distinct constants is accepted |
| `GenPosture.EveryLeafAgreesIff` | internal/genposture/main.go:118-127 | an accepted table has the type every leaf schema gives a field if and only if no two leaf schemas give one field different types |
| `GenPosture.LoadOrderIsDetermined` | internal/genposture/main.go:149 | load's result does not depend on the sorting algorithm |
| `Render.RenderFields` | internal/genposture/main.go:171-185 | the loop writes, per field, what its neighbours' providers call for |
| `Render.LinesAreBlocks` | internal/genposture/main.go:175-184 | for any list of fields the output is one const block per maximal run of a provider, in order, and nothing else |
| `Render.RenderIsWellNested` | internal/genposture/main.go:175-184 | for any list of fields blocks are closed before the next opens and every constant is inside one |
| `Render.OneBlockPerProviderIff` | internal/genposture/main.go:166-184 | no provider has two blocks if and only if the fields of each provider are contiguous |
| `Render.ProviderIff` | internal/genposture/main.go:166-169 | the provider is all of the name, or what its first dot follows |
| `Render.ProviderBetween` | internal/genposture/main.go:166-169 | between two names of a provider in string order lie only names of that provider, for names over the table's alphabet |
| `Render.RenderIsOneBlockPerProvider` | internal/genposture/main.go:171-185 | sorted fields render as one block per provider holding every field exactly once |
| `Render.GeneratedFileCoversTheTable` | internal/genposture/main.go:73-85 | the file has one block for each provider in the table and its constants are the table's rows, each once |
| `Render.GeneratedConstantsAreTheTable` | internal/genposture/main.go:171-185 | for an accepted table the file declares for each row one constant with its comment: the row's identifier, the Go type of its column type, and its name; no other, and no identifier twice |
| `Render.DashWouldSplitABlock` | internal/genposture/main.go:84 | with a byte below the dot in the alphabet a sorted table would open a provider's block twice |
| `IsoDuration.FormatDuration` | posture_fields.go:293-311 | taking hours and minutes off step by step writes the specified components |
| `IsoDuration.SplitIsUnique` | posture_fields.go:299-309 | hours, minutes and rest are the only ones that add up to the duration with minutes below 60 and the rest below a minute |
| `IsoDuration.EveryDurationRoundTrips` | posture_fields.go:290-311 | a reader returns every positive duration, given only that it reads back the text of seconds below a minute |
| `IsoDuration.WholeSecondsRoundTrip` | posture_fields.go:290-311 | a reader of the time designator form of ISO 8601:2004, section 4.4.3.2, returns every positive whole-second duration |
| `IsoDuration.WholeSecondsInjective` | posture_fields.go:290-311 | different whole-second durations have different texts |
| `IsoDuration.PositivePrintsAComponent` | posture_fields.go:290-296 | a positive duration prints a component, and a whole-second one is never the text of zero |
| `IsoDuration.NonPositiveIsZero` | posture_fields.go:288-296 | any other duration is written as no time at all |
| `ValidationErrors.FormatValidationErrors` | errors.go:47-59 | whatever order the map is walked in, the text is that of the one strictly increasing listing of its fields, messages in stored order |
| `ValidationErrors.ListingIsUnique` | errors.go:47-52 | a set of names has exactly one strictly increasing listing |
| `ValidationErrors.TextReadsBack` | errors.go:54-59 | with no separators inside fields and messages, the text falls back into the fields in order, each with its messages in their stored order |
| `NullFields.ThreeStates` | null.go:7-38 | in a request Set gives a field its value, Clear gives it null, and nil leaves it alone |
| `NullFields.UpdateField` | null.go:7-15 | one update gives each field what the request says of it and leaves the others alone |
| `NullFields.LastMentionWins` | null.go:7-15 | after any run of updates a field has what the last request that mentioned it said, or its old value |
| `NullFields.ReplacingIsMergingIff` | policies.go:133-140 | replacing a field whole agrees with JSON Merge Patch (RFC 7396, section 2) on every old value if and only if the value sent is not an object |
| `NullFields.NullVar.UnmarshalJSON` | null.go:54-64 | null clears the receiver and anything else is left to the type; a failure leaves Valid alone |
| `NullFields.UnmarshalInvertsIff` | null.go:40-64 | decoding gives back what was encoded if and only if a valid field holds no null of its own and a cleared one is as Clear made it |

## Left out

- The HTTP round trip, TLS, headers and context timers: a response is an input, a wait is either elapsed or cut short.
- The resource services: thin wrappers over `checkID`, `buildPath` and `do` that would add only easy members.
- `posture_fields_gen.go`: data only; and the typed field methods, which only call `PostureCheck`.
- `url.Parse`: a base URL is taken parsed; that a URL with a host has an empty or absolute path is a premise of the proxy results.
- JSON at the level of bytes: string escaping, number syntax, and encoding/json's case-insensitive keys; tokens are atomic. An object inside a leaf's value keeps its key order, where Go's map would sort it; numbers are kept as written, where Go has float64.
- Nil and empty slices of a posture node are not told apart, as the encoder does not tell them apart either.
- Values encoding/json cannot encode at all, such as channels, in a posture leaf.
- Retry-After blanks other than space and tab, which fmt also skips.
- `IsoDuration.EveryDurationRoundTrips`: that the text of fractional seconds, which goes through float64, can be read back is a premise; `WholeSecondsRoundTrip` does without it.
- `SdkClient.Client.RawRequest`: the per-attempt timeout is not modelled as time, nor is a request that cannot be built told apart from one that fails; both are answers of the world that carry an error.
- The random source: a draw is any natural number cut to the window, or a failure.
- The algorithm of Go's sort package: any result it may return is shown to be the one result.
- gofmt, the regular expression engine, reading the OpenAPI file, and the wording of comments in the generated file.
- `NullFields.LastMentionWins`: the merge is the one the SDK documents; the server's own rule that an empty string clears is not modelled.
- `listOptionsToQuery`, `filterQuery` and the encoding of `url.Values`: a request's query is taken encoded. `isNilPointer` and error wording.
