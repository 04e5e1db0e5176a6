# Verified model of the ServiceRadar plugin SDK

This Dafny project models the parts of the Go SDK (`sdk/`) where a wrong branch would be hard to see, and
proves what they are for: protocol state machines over every run, encoders with independent decoders, and
map-driven code whose result must not depend on map iteration order. `dafny verify dfyconfig.toml` checks
everything.

Code that changes state step by step is modelled by methods and classes, each proved against a pure
specification function; the theorems about whole runs are then lemmas about those functions. Go map loops
pick an arbitrary remaining key in each round. Library calls outside the SDK (hashes, base64, case mappings,
URL parsing, `encoding/json` on the envelope) are function parameters; each assumption made about one is a
named predicate in the `requires` of the lemma that needs it.

| files | what they model |
|---|---|
| `Bytes`, `Results`, `Strings`, `Unicode`, `Decimal`, `Utf8`, `Utf8Scalars` | byte strings, trimming and splitting, case mappings, numerals, UTF-8 |
| `H264`, `H264Runs`, `H264Failures`, `H264Emissions`, `H264Packetizer`, `Depacketizer`, `Rtp` | the RTSP receive path: interleaved frames, RTP headers, H.264 access units |
| `RtspChallenge`, `RtspRequests`, `RtspClient`, `RtspExchanges` | challenges, request text, request and digest counters, what a call comes to |
| `RtspDigest`, `RtspHandshake` | the server's side: its check of a digest, and the way from its challenge to its acceptance |
| `RtspTrack`, `RtspDescriptions` | the SDP scan, from classified lines and from text |
| `Wire`, `Metrics`, `MetricBatches`, `MetricFields`, `MetricEncoder` | the protobuf encoder of metric batches, a decoder, and what it reads field by field |
| `Artifacts`, `ArtifactRuns`, `ArtifactIntegrity`, `ArtifactRequests`, `ArtifactHost`, `ArtifactKeys` | the artifact staging host, its promises to the caller, its client stub, and object keys |
| `JsonText`, `JsonObjects`, `HttpRequests`, `HttpRoundTrip`, `HttpResponses`, `HttpTexts` | the HTTP request writer, its reader, the two response formats, and their literal texts |
| `InjectSpecs`, `InjectParsing`, `InjectRoundTrip`, `InjectTables` | OAuth2 inject specs: builder, parser, round trip, literal keys |
| `CredentialGrants`, `GrantScope` | the application of credential grants, and what a grant covers |
| `Manifest`, `ManifestTables` | signal schema contributions: recognisers, validator and builder, and the verdicts by field |

## What the code does that its intent would not suggest

Each of these has a lemma at a concrete input and an exact condition.

- A text HTTP body that is not UTF-8 is written byte for byte, so another body arrives: the byte FF arrives
  as U+FFFD (`ByteBodyExample`). The handler sees the client's request if and only if it is deliverable
  (`HandlerSeesRequestIffDeliverable`), and what arrives of any other request is stated too (`HandlerSees`).
- A negative status in the default response mode is written but never read back, and one too large for the
  client's integers is read as another (`NegativeStatusExample`, `WideStatusExample`): the status is kept if
  and only if it is from 0 to the largest integer (`StatusBodyReadsBack`).
- Without grants the host does not look at the URL, with any grant it refuses an unusable one
  (`UnusableUrlExample`), so a grant that covers nothing is without effect if and only if the URL is usable or
  the list was not empty (`OnlyCoveringGrantsMatter`).
- With two spellings of one credential name, one of them blank, the outcome depends on map order
  (`DisagreeingSpellingsExample`), which happens if and only if every field has a credential and some
  field's spellings disagree on being blank (`CredentialsDeterminedIff`).
- An error inside an aggregation packet keeps the units before it (`PartialAggregateExample`): a failed packet
  adds nothing if and only if its first size is already bad (`FailedAggregateAddsNothingIff`).
- The schema builder accepts ids that its own result fails on, such as "a." and 153 letters
  (`FailingIdsExample`); `BuilderPassesIff` says exactly which.
- The digest counter wraps, so after 2^32 requests the first counter is sent again
  (`CounterRepeatsExample`); two counters are equal if and only if their distance is a multiple of 2^32
  (`CountersRepeatIff`).
- A digest challenge for a session algorithm or for protection of the body is answered as if it were a plain one,
  which its server refuses; short of a collision of digests it accepts if and only if it asked for neither
  (`ServerAcceptsIff`).
- Header values are written without escapes, so no server accepts a user name that starts or ends with a quote
  (`QuotedNameRefused`).
- A blank user name that is not empty has the client answer a challenge without saying who it is
  (`BlankNameExample`); every request, the second of a call included, leaves its sender out if and only if user
  name and password are blank (`NobodyIffAnonymous`, `Client.DoRequest`).

## Model

| member | source | states |
|---|---|---|
| H264Packetizer.PacketizationIsInverted | sdk/rtsp.go:621-693 | however the NAL units of one access unit are cut into single, aggregation and fragmentation packets, no push fails, exactly the last emits, the output is start code plus unit for every unit in order, and the key flag is true iff some unit is an IDR slice |
| H264Packetizer.AggregatedInvertsSizePrefixed | sdk/rtsp.go:639-654 | reading the size-prefixed units of an aggregation packet inverts writing them |
| H264Packetizer.FeedFragments | sdk/rtsp.go:656-677 | fragmentation packets in order rebuild their unit: the header restored from indicator and first fragment, then every piece |
| H264Runs.HistoryExplainsOutput | sdk/rtsp.go:621-693 | over every history, malformed payloads included, an emitted unit is what the payloads since the last reset contributed, all of the emitting timestamp, and the state holds exactly what is pending |
| H264Runs.ReadsNoEmptyNals | sdk/rtsp.go:621-681 | whatever its bytes, a payload yields only non-empty units, so what is proved of runs holds of every input |
| H264Runs.RunKeepsWellFormed | sdk/rtsp.go:621-693 | in every reachable state each held fragment starts with the start code and has at least five bytes, a held IDR slice implies the key flag, and not assembling implies nothing is held |
| H264Runs.FailedAggregateAddsNothingIff | sdk/rtsp.go:639-654 | a failed aggregation packet leaves the held fragments as they were exactly when its first size is zero or past the end |
| H264Failures.PushFailsExactly | sdk/rtsp.go:621-693 | over every history a push fails exactly on an empty payload, a type that is not handled, a fragment of one byte, a continuation where its session has begun no unit, and an aggregate that is not non-empty units behind their sizes plus at most a stray byte, with the error of each case; any other push emits if marked and is pending if not |
| H264Emissions.EmitsExactly | sdk/rtsp.go:621-693 | over every history an emitted unit is, byte for byte, what the payloads of its session add: units behind start codes, a first fragment's unit header restored, the rest of other fragments; and it is a keyframe exactly when one of them shows an IDR slice of a unit that was begun |
| H264Failures.AggregatedReads | sdk/rtsp.go:639-654 | units behind their sizes are read as they are, whatever follows: at most one byte is ignored, more is an error if it is not such a unit |
| H264Failures.LostStartExample | sdk/rtsp.go:671-673 | at a concrete packet: a continuation whose first fragment was lost is refused, marked or not |
| H264Runs.PartialAggregateExample | sdk/rtsp.go:639-654 | at a concrete packet: one good unit, then a size of zero, and the unit is held |
| Depacketizer.AppendBytes | sdk/rtsp.go:670-670 | appending to a slice keeps the bytes before it and reuses the buffer exactly when its capacity suffices |
| Depacketizer.AnnexBUnit | sdk/rtsp.go:695-700 | a new buffer holding the start code and the unit |
| Depacketizer.JoinFragments | sdk/rtsp.go:702-712 | a new buffer holding the concatenation of the fragments |
| Depacketizer.Depacketizer.constructor | sdk/rtsp.go:76-82 | a new depacketizer holds nothing and is not assembling |
| Depacketizer.Depacketizer.Push | sdk/rtsp.go:621-693 | one push on buffers extended in place takes exactly the step of the state machine, keeps ownership of its buffers, and hands out a buffer that is no longer its own |
| Depacketizer.PushAll | sdk/rtsp.go:621-693 | any later run of pushes leaves a unit already handed out unchanged, and ends in the state its history gives |
| Rtp.FrameParsedIffPrefix | sdk/rtsp.go:542-559 | a frame is parsed exactly when the data begins with its encoding (section 10.12 of RFC 2326), whatever follows |
| Rtp.ParseInvertsEncode | sdk/rtsp.go:590-618 | every encoded RTP packet, with any CSRC count and extension, parses to its payload, marker and timestamp |
| Rtp.ParsedIffEncoding | sdk/rtsp.go:590-618 | data parses exactly when it is the encoding of some packet with that payload, marker and timestamp |
| Rtp.FrameExample | sdk/rtsp.go:542-559 | the layout of a frame at concrete bytes |
| Rtp.PacketExample | sdk/rtsp.go:590-618 | the layout of the fixed header at concrete bytes |
| Rtp.ExtendedPacketExample | sdk/rtsp.go:590-618 | a contributing source and an extension are skipped, at concrete bytes |
| Rtp.ReceiveInvertsStream | sdk/rtsp.go:542-618 | unframing and parsing a byte stream of packets yields the packets' arrivals in order |
| Rtp.StreamYieldsAccessUnit | sdk/rtsp.go:542-693 | from byte stream to access unit: packets carrying any packetization yield the Annex B unit once, at the last packet |
| RtspChallenge.SplitCommaSeparated | sdk/rtsp.go:380-405 | the loop over characters splits at the commas outside quotes, parts trimmed, a trailing empty part dropped |
| RtspChallenge.ParseAuthParams | sdk/rtsp.go:368-378 | the parameters of the parts, names lower-cased, values unquoted, later ones replacing earlier ones |
| RtspChallenge.ParamsReadBack | sdk/rtsp.go:368-405 | rendered parameters, quoted or plain, parse back to the same map, even when quoted values hold commas, equals signs or outer spaces |
| RtspChallenge.RenderedSplits | sdk/rtsp.go:380-405 | the splitter recovers exactly the rendered items |
| RtspChallenge.ChooseQop | sdk/rtsp.go:339-351 | "auth" wherever the server offers it, else the first protection that is not blank |
| RtspChallenge.FirstCandidateFound | sdk/rtsp.go:341-350 | the first candidate that is not blank is the one chosen when all before it are blank |
| RtspChallenge.ParseAuthenticateHeader | sdk/rtsp.go:329-366 | the challenge a header stands for, refused when blank, of another scheme, or without realm or nonce |
| RtspChallenge.ChallengeReadsBack | sdk/rtsp.go:329-378 | a digest challenge written with well-formed parameters is read with exactly those parameters |
| RtspHandshake.ChallengeRead | sdk/rtsp.go:329-378 | a written digest challenge is taken exactly when it gives a realm and a nonce; realm, nonce and opaque are the ones written, the algorithm is MD5 where none is named, and the protection is "auth" if offered, else the first offer that is not blank |
| RtspHandshake.OffersOfTokens | sdk/rtsp.go:341-342 | protections listed with a comma and a space between them are offered one by one |
| RtspHandshake.SchemesRead | sdk/rtsp.go:331-363 | the scheme is told in any case by how the trimmed header starts; a basic challenge carries nothing, and others are refused |
| RtspHandshake.NamesInAnyCase | sdk/rtsp.go:368-378 | a parameter is found under its name in lower case, its value without quotes and outer spaces |
| RtspDigest.AnswerReadsBack | sdk/rtsp.go:280-326 | a server reads back from the header the user's name, the challenge's realm, nonce, algorithm and opaque, the request's URI, the count where a protection was chosen, and as response the digest of secret, nonce and hashed method and URI |
| RtspDigest.ServerAccepts | sdk/rtsp.go:280-326 | a server that recomputes the response as section 3.2.2.1 of RFC 2617 says, from the parameters it read, accepts every well-formed answer, with and without a protection, unless it asked for a session algorithm or for the body to be covered |
| RtspDigest.ServerAcceptsIff | sdk/rtsp.go:294-300 | the exact condition: short of a collision of digests it accepts if and only if it asked for neither, but for a secret that is its own session text |
| RtspDigest.QuotedNameRefused | sdk/rtsp.go:303-304 | no header makes a server accept a user name that starts or ends with a quote |
| RtspHandshake.ChallengeIsMet | sdk/rtsp.go:280-405 | from a server's written challenge through the client's reading and answer to the server's acceptance |
| RtspHandshake.NcReadsBack | sdk/rtsp.go:287-287 | the counter is eight hexadecimal digits of its value |
| RtspHandshake.BasicReadsBack | sdk/rtsp.go:324-325 | basic credentials decode to the name, a colon and the password |
| RtspRequests.BuildAuthorization | sdk/rtsp.go:280-326 | the header for the credentials used; a digest challenge's counter moves by one first, wrapping at 32 bits, and nothing else moves it |
| RtspRequests.NcInjective | sdk/rtsp.go:287-287 | different counters are written as different eight-digit texts |
| RtspRequests.CountedWraps | sdk/rtsp.go:286-286 | a 32-bit counter moved n times from zero is n modulo 2^32 |
| RtspRequests.CounterRepeatsExample | sdk/rtsp.go:286-287 | the counter after 2^32 more requests is the first one again |
| RtspRequests.WriteHeaders | sdk/rtsp.go:265-273 | the extra headers are each written once, in some order, the blank ones left out |
| RtspExchanges.ListedOnce | sdk/rtsp.go:265-273 | an order of the extra headers has each of them at one place, and nothing else |
| RtspRequests.BuildRequest | sdk/rtsp.go:235-277 | the text is the request line, CSeq, agent, session, authorization and extra headers of exactly this request |
| RtspExchanges.RequestReadsBack | sdk/rtsp.go:235-277 | a server that splits the text into lines finds the request line, exactly the headers of this request, the extra headers in some order, and the empty line that ends it |
| RtspClient.Client.constructor | sdk/rtsp.go:102-109 | a new client has built nothing, numbers its first request 1 and answers no challenge |
| RtspClient.Client.Send | sdk/rtsp.go:138-143 | one more request, carrying the next number and the credentials its place calls for, is written in its own text |
| RtspClient.Client.DoRequest | sdk/rtsp.go:137-173 | each call keeps the run's invariant: request k carries CSeq k and the digest counter of its place since adoption; a call sends two requests, adopting the challenge in between, exactly when its first answer challenges it; its result is determined by what was read, success and each kind of failure alike |
| RtspExchanges.ResultIs | sdk/rtsp.go:137-173 | from the answers read: when a call asks again, and exactly when it succeeds, is unauthorized, is refused with a status of 400 or more, or failed to write or read |
| RtspExchanges.NobodyIffBlank | sdk/rtsp.go:281-283 | a request leaves its sender out exactly when user name and password are nothing but spaces |
| RtspClient.NobodyIffAnonymous | sdk/rtsp.go:281-283 | request k of any run leaves its sender out exactly when user name and password are blank |
| RtspClient.BlankNameExample | sdk/rtsp.go:153-158 | a client with a blank user name that is not empty answers a challenge, and is anonymous |
| RtspClient.CounterIsPosition | sdk/rtsp.go:286-287 | the counter sent is the number of requests built since the challenge was adopted, this one included, modulo 2^32 |
| RtspClient.CountersRepeatIff | sdk/rtsp.go:286-287 | two answers to one challenge carry the same counter exactly when their distance is a multiple of 2^32 |
| RtspClient.CounterReadsBack | sdk/rtsp.go:302-321 | a server that parses the Authorization header finds the counter in it |
| RtspTrack.ScanLines | sdk/rtsp.go:490-514 | the scan returns the values of the first line at which one video section has supplied both, and nothing exactly when no line does |
| RtspTrack.ParseTrack | sdk/rtsp.go:484-517 | the same for the text of a session description, the control resolved against the endpoint |
| RtspTrack.ResolvedIsAbsolute | sdk/rtsp.go:520-533 | a control that is not blank resolves against an absolute endpoint to an absolute URL, and resolving again changes nothing |
| RtspTrack.SuppliesIff | sdk/rtsp.go:490-508 | the scan's variables are complete exactly when the section's last format and control lines supply a non-zero type and a non-empty control |
| RtspTrack.FirstSupplyIsUnique | sdk/rtsp.go:490-514 | the answer is determined by the description |
| RtspDescriptions.DescriptionLines | sdk/rtsp.go:484-491 | the lines scanned are those of the text, with or without carriage returns |
| RtspDescriptions.SectionLines | sdk/rtsp.go:493-498 | "m=video " starts a video section, any other "m=" another one |
| RtspDescriptions.FormatLines | sdk/rtsp.go:499-503 | a format line gives the number before its first space, exactly if it names H264/90000 |
| RtspDescriptions.ControlLines | sdk/rtsp.go:504-506 | a control line gives what stands behind "a=control:", trimmed |
| RtspDescriptions.FirstVideoFound | sdk/rtsp.go:484-517 | a first video section that gives a format and then a control is the track found |
| RtspDescriptions.RelativeControl | sdk/rtsp.go:520-533 | a relative control goes under the endpoint's path, which may or may not end in a slash |
| RtspDescriptions.OtherControls | sdk/rtsp.go:520-533 | an absolute control is kept, one from the root goes under the endpoint's server, a blank one stands for the endpoint |
| Wire.ReadInvertsVarint | sdk/metric_envelope.go:263-291 | reading a varint of any 64-bit value, in front of any bytes, gives it and those bytes back |
| Wire.ReadInvertsField | sdk/metric_envelope.go:229-291 | a written field is self-delimiting: number, wire type and value read back with exactly what follows |
| Wire.ParseInvertsFields | sdk/metric_envelope.go:229-291 | the fields of a message parse back in order |
| Wire.MessageReadsBack | sdk/metric_envelope.go:229-291 | a message reads back slot by slot, empty elements of repeated fields dropped |
| Wire.EmptyMessage | sdk/metric_envelope.go:229-287 | a message is empty exactly when no field has anything to say |
| Metrics.TruncateInvertsSignExtend | sdk/metric_envelope.go:247-253 | a 32-bit integer written with its sign extended to 64 bits reads back, negative ones included |
| Metrics.EntryRoundTrip | sdk/metric_envelope.go:215-220 | a map entry decodes to itself |
| Metrics.PointRoundTrip | sdk/metric_envelope.go:199-213 | a point decodes to its normal form: negative zero as zero, empty entries dropped |
| Metrics.PointBlank | sdk/metric_envelope.go:199-213 | a point is written as nothing exactly when its normal form is blank |
| MetricBatches.MetricRoundTrip | sdk/metric_envelope.go:180-197 | a metric decodes to its normal form |
| MetricBatches.ResourceRoundTrip | sdk/metric_envelope.go:153-167 | a resource decodes to its normal form |
| MetricBatches.IdentityRoundTrip | sdk/metric_envelope.go:169-178 | an ingest identity decodes to its normal form |
| MetricBatches.BatchRoundTrip | sdk/metric_envelope.go:132-151 | a batch decodes, through all four levels and in order, to itself with defaults filled in, negative zeros read as zero and empty elements dropped bottom-up |
| MetricBatches.BatchCanonical | sdk/metric_envelope.go:132-151 | a batch and its normal form are written the same way |
| MetricBatches.SameBytesIffSameNormalForm | sdk/metric_envelope.go:132-151 | two batches have the same encoding exactly when they have the same normal form |
| MetricFields.BatchReadsBack | sdk/metric_envelope.go:132-227 | decoding an encoded batch gives, through all four levels, every text and number as it was, "serviceradar.metric.v1" where the schema version or the payload kind was empty, both zeros as zero, and exactly the elements that say something, in order |
| MetricFields.BatchOnWire | sdk/metric_envelope.go:132-178 | the numbers the fields of a batch and of its ingest identity have on the wire, defaults included |
| MetricFields.ResourceOnWire | sdk/metric_envelope.go:153-167 | the same for a resource |
| MetricFields.MetricOnWire | sdk/metric_envelope.go:180-197 | the same for a metric, its 32-bit integers in 64-bit two's complement |
| MetricFields.PointOnWire | sdk/metric_envelope.go:199-213 | the same for a point |
| MetricFields.EntryOnWire | sdk/metric_envelope.go:215-220 | the same for a map entry |
| MetricFields.VarintDigits | sdk/metric_envelope.go:263-291 | a varint is the number's digits to the base 128, least first, no more than it needs, all marked but the last |
| MetricFields.FieldExamples | sdk/metric_envelope.go:229-291 | the bytes of three concrete fields |
| MetricEncoder.AppendTag | sdk/metric_envelope.go:289-291 | the tag is appended as one varint, the buffer before it unchanged |
| MetricEncoder.AppendMessageField | sdk/metric_envelope.go:238-245 | an empty message is not written; any other is appended with tag and length |
| MetricEncoder.AppendStringField | sdk/metric_envelope.go:229-236 | an empty string is not written; any other is appended with tag and length |
| MetricEncoder.AppendUint64Field | sdk/metric_envelope.go:263-269 | zero is not written; any other value is appended as tag and varint |
| MetricEncoder.AppendUint32Field | sdk/metric_envelope.go:255-261 | the same for 32-bit values |
| MetricEncoder.AppendInt32Field | sdk/metric_envelope.go:247-253 | the value is appended with its sign extended |
| MetricEncoder.AppendBoolField | sdk/metric_envelope.go:271-277 | true is appended as one, false not at all |
| MetricEncoder.AppendDoubleField | sdk/metric_envelope.go:279-287 | both zeros are not written; any other pattern is appended as eight bytes |
| MetricEncoder.AppendedFieldReadsBack | sdk/metric_envelope.go:229-291 | what any appender writes reads back in front of any bytes |
| MetricEncoder.StringMapEntryProto | sdk/metric_envelope.go:215-220 | the buffer grown field by field is the entry's encoding |
| MetricEncoder.AppendStringMapEntries | sdk/metric_envelope.go:222-227 | the loop appends every non-empty entry in order |
| MetricEncoder.MetricPointProto | sdk/metric_envelope.go:199-213 | the buffer is the point's encoding |
| MetricEncoder.MetricProto | sdk/metric_envelope.go:180-197 | the buffer is the metric's encoding |
| MetricEncoder.MetricResourceProto | sdk/metric_envelope.go:153-167 | the buffer is the resource's encoding |
| MetricEncoder.MetricIngestIdentityProto | sdk/metric_envelope.go:169-178 | the buffer is the identity's encoding |
| MetricEncoder.MetricBatchProto | sdk/metric_envelope.go:132-151 | the buffer is the batch's encoding |
| ArtifactIntegrity.EveryRunIsSound | sdk/local_artifact.go:50-257 | over every run of fewer than 2^31 opens: records hold the digest and size of the payloads that reached the stream's file, in order, equal to what commit or open declared; at most 8 streams are open; handles are positive and never issued twice; staging files are exactly those of open streams |
| ArtifactRequests.EveryPublicationAsRequested | sdk/local_artifact.go:50-257 | for every successful commit of every run there is the open that issued its handle; record and object hold the payloads that reached the file, under that open's key, type and attributes; the digest and the positive size are those the commit gave, or where it gave none those the open declared |
| ArtifactRequests.CommitAnswers | sdk/local_artifact.go:142-198 | in every run a decoded commit on an open handle is refused as invalid exactly when it is not as requested, as too large exactly when its response does not fit, as internal when the file system fails, and otherwise answers the length of its response |
| ArtifactRequests.WriteAnswers | sdk/local_artifact.go:107-140 | in every run, exactly which writes reach the file, and which of them are accepted: those that stay within the declared size |
| ArtifactRequests.WriteErrors | sdk/local_artifact.go:107-140 | the code of every write that fails |
| ArtifactRequests.OpenSucceedsIff | sdk/local_artifact.go:50-105 | exactly when an open succeeds: at most 2 MiB of request, at most 8 streams, a response of at most 64 KiB |
| ArtifactRequests.OpenErrors | sdk/local_artifact.go:50-105 | the code of every open that fails |
| ArtifactRequests.HandleErrors | sdk/local_artifact.go:142-228 | the codes of aborts, and of commits that do not decode or have no open handle |
| ArtifactRequests.ResponseLengthIs | sdk/local_artifact.go:200-216 | the length compared with the buffer is that of the response's JSON text |
| ArtifactIntegrity.WriteIndexCountsChunks | sdk/local_artifact.go:107-140 | a successful write with a positive index had exactly that many chunks before it |
| ArtifactIntegrity.CommitRecords | sdk/local_artifact.go:142-198 | a step of EveryRunIsSound: a successful commit checked the digest and size it records |
| ArtifactIntegrity.CallOnClosedFails | sdk/local_artifact.go:107-230 | a step of CallsAfterCloseFail: a call on a handle that is not open fails and changes nothing |
| ArtifactIntegrity.CommitOrAbortCloses | sdk/local_artifact.go:142-230 | a commit that passed decoding closes its handle, successful or not; so does an abort |
| ArtifactIntegrity.ClosedForever | sdk/local_artifact.go:84-230 | a closed handle stays closed for the rest of every run |
| ArtifactIntegrity.CallsAfterCloseFail | sdk/local_artifact.go:84-230 | in every run, after a decoded commit or an abort on an open handle, every later call on that handle, whatever comes in between, fails and changes nothing |
| ArtifactIntegrity.CleanupLeavesNoStaging | sdk/local_artifact.go:232-239 | cleaning up after any run leaves no staging file and every object as it was |
| ArtifactIntegrity.SmallerResponse | sdk/local_artifact.go:200-216 | a commit response is never longer than the one measured at open |
| ArtifactIntegrity.ClientCommitNeverTooLarge | sdk/local_artifact.go:80-82 | in every run, no commit through the client's buffer is refused as too large |
| ArtifactRuns.StepExplained | sdk/local_artifact.go:50-230 | every call either leaves the host as it is or changes it in the one way its effect says |
| ArtifactRuns.ExplainedKeepsConsistent | sdk/local_artifact.go:50-230 | every such change keeps handles, staging files and running sums consistent |
| ArtifactHost.LocalArtifacts.Open | sdk/local_artifact.go:50-105 | opening takes exactly the open step, in place |
| ArtifactHost.LocalArtifacts.Write | sdk/local_artifact.go:107-140 | writing takes exactly the write step, in place |
| ArtifactHost.LocalArtifacts.Commit | sdk/local_artifact.go:142-198 | committing takes exactly the commit step, in place |
| ArtifactHost.LocalArtifacts.Abort | sdk/local_artifact.go:218-228 | aborting takes exactly the abort step, in place |
| ArtifactHost.LocalArtifacts.AbortOpenArtifacts | sdk/local_artifact.go:232-239 | the loop over open streams in any order is the cleanup |
| ArtifactHost.ArtifactStream.WriteChunk | sdk/artifact.go:89-109 | a write through the stub is the host's write on the kept handle, or an error that changes nothing |
| ArtifactHost.ArtifactStream.Commit | sdk/artifact.go:117-144 | only a successful commit clears the stub's handle; a failed one leaves it stale |
| ArtifactHost.ArtifactStream.Abort | sdk/artifact.go:147-157 | an abort succeeds exactly on an open handle and then clears it |
| ArtifactHost.UseAfterCommit | sdk/artifact.go:89-157 | after a commit that reached the host, with any operating system outcome, every call of every later sequence through the stub returns an error and the host stays as the commit step left it (over runs with other callers in between: ArtifactIntegrity.CallsAfterCloseFail) |
| ArtifactHost.CallAll | sdk/artifact.go:89-157 | through a stub whose handle is cleared or no longer open, every call of any sequence fails and changes nothing |
| ArtifactKeys.ValidKeyIffPlain | sdk/local_artifact.go:264-275 | a key is accepted exactly when its characters are allowed and every segment is non-empty, not a dot and free of double dots |
| ArtifactKeys.AcceptedKeysNameDistinctFiles | sdk/local_artifact.go:174-174 | every accepted key resolves to a file inside the directory, different keys to different files |
| JsonText.WriteEscaped | sdk/http.go:301-320 | one byte as the writer's switch writes it |
| JsonText.WriteString | sdk/http.go:297-323 | the loop appends the quoted, escaped string |
| JsonText.StringReadsBack | sdk/http.go:297-323 | every byte string, written in front of any suffix, reads back with that suffix, bytes outside UTF-8 replaced; unchanged exactly when it is UTF-8 |
| JsonText.ReadsUtf8 | sdk/local_host.go:224-226 | whatever the reader returns is UTF-8 |
| HttpRequests.WriteHeaders | sdk/http.go:258-271 | the map loop writes every header once, in some order, separated by commas |
| HttpRequests.MarshalRequest | sdk/http.go:249-295 | the output is the object of exactly the payload's members, empty ones left out, with the headers in some order |
| HttpTexts.EncodingIsText | sdk/http.go:249-295 | the output is, literally, the text of the members |
| HttpTexts.EscapeTable | sdk/http.go:301-320 | how each byte of a string is written |
| HttpTexts.ControlEscapes | sdk/http.go:311-316 | other control bytes are written as two hexadecimal digits |
| HttpTexts.OrderedOnce | sdk/http.go:258-271 | an order of the headers has each of them at one place, and nothing else |
| HttpTexts.CanonicalIs | sdk/http.go:134-157 | a request's defaults: GET, the status-and-body mode, no negative timeout, base64 only of a body |
| HttpRoundTrip.PayloadReadsBack | sdk/http.go:249-323 | every payload, whatever bytes it holds and in whatever header order, reads back with each text repaired to UTF-8 and non-positive timeouts as zero |
| HttpRoundTrip.PayloadReadsBackIffUtf8 | sdk/http.go:249-323 | the payload reads back unchanged exactly when all its texts are UTF-8 |
| HttpRoundTrip.DecodedIffAcceptable | sdk/local_host.go:222-250 | of every payload the client can write, what arrives is accepted exactly when it has a URL, at most one body, and valid base64 where needed, and then yields exactly the request the repaired payload describes |
| HttpRoundTrip.HandlerSees | sdk/http.go:128-157 | what the host makes of any request at all: refused if no URL is left, otherwise the canonical request with its texts repaired |
| HttpRoundTrip.ByteBodyExample | sdk/http.go:151-157 | the one-byte text body FF arrives as the three bytes of U+FFFD |
| HttpRoundTrip.HandlerSeesRequestIffDeliverable | sdk/http.go:128-157 | the host's handler sees exactly the client's request, in canonical form, if and only if its URL is not blank and its texts are UTF-8; base64 bodies may hold any bytes |
| HttpResponses.ParseHttpStatus | sdk/http.go:238-247 | the status is the numeral's value wrapped to the width of the client's integers, 32 or 64 bits, and anything but digits is refused |
| HttpResponses.DecodeStatusBody | sdk/http.go:190-216 | the scan accepts exactly digits, a line feed and a body |
| HttpResponses.StatusBodyReadsBack | sdk/local_host.go:252-255 | in the default mode any body is kept; the text is accepted exactly when the status is not negative, and the status is kept exactly when the client's integers hold it |
| HttpResponses.EnvelopeNotStatusBody | sdk/http.go:190-203 | a step of ResponseReadsBack: no envelope is taken for the status-and-body format |
| HttpResponses.ResponseReadsBack | sdk/http.go:179-187 | the client reads a response in the format the host used |
| HttpResponses.Do | sdk/http.go:128-188 | the outcome of every call is what grants, handler and buffer size make of the request as it arrives, host errors included; for a deliverable request that is its canonical form, whatever the header order |
| HttpTexts.HostAnswers | sdk/local_host.go:168-205 | the host's codes: exactly when a request is refused as invalid, denied, failed, late or too large |
| HttpTexts.StatusBodyWritten | sdk/local_host.go:252-255 | in the mode of that name and in a blank one a response is its status, a line feed and its body |
| HttpResponses.ClientSeesHandlerResponse | sdk/local_host.go:168-205 | of a reply that fits, the client gets in the default mode the handler's status and body, exactly when its integers hold the status, and in other modes the whole response |
| HttpResponses.NegativeStatusExample | sdk/local_host.go:252-255 | status -1 in the default mode is never read back |
| HttpResponses.WideStatusExample | sdk/http.go:238-247 | twice the largest integer plus two is read as status 0 |
| Utf8Scalars.ValidIffEncoded | sdk/local_host.go:222-226 | the byte strings that arrive unchanged are exactly the encodings of Unicode scalar values |
| InjectSpecs.AddPrefixed | sdk/credential_grant.go:179-184 | a loop over a builder map, in any order, adds exactly its entries under the prefix |
| InjectSpecs.BuildSpec | sdk/credential_grant.go:159-184 | the map filled has exactly the settings, fields and fixed values of the builder |
| InjectTables.SettingsWritten | sdk/credential_grant.go:159-178 | the literal keys of the settings and their values, optional ones left out when empty |
| InjectTables.EntriesWritten | sdk/credential_grant.go:179-184 | fields and fixed values stand under "field_" and "fixed_" |
| InjectParsing.CollectFields | sdk/credential_grant.go:236-251 | in any order, the field entries are accepted exactly when names are valid and targets non-blank and distinct, and the result is their inversion |
| InjectParsing.CollectFixed | sdk/credential_grant.go:252-264 | in any order, the fixed entries are accepted exactly when names are valid and no field sets them, and the result is exactly them |
| InjectParsing.FormFields | sdk/credential_grant.go:214-274 | the verdict and both result maps are those of an order-free description |
| InjectTables.EndpointIsUrl | sdk/credential_grant.go:224-233 | host and path are accepted exactly when the URL made of them has this host and path, and no user, query or fragment |
| InjectTables.SuffixCharacters | sdk/credential_grant.go:277-287 | the characters of field and fixed names |
| InjectParsing.InversionIsUnique | sdk/credential_grant.go:236-251 | a spec has one inversion, so the result does not depend on iteration order |
| InjectRoundTrip.AcceptedIffBuilderOk | sdk/credential_grant.go:159-190 | a builder is accepted exactly when what the caller filled in passes the checks |
| InjectRoundTrip.SpecParsesBack | sdk/credential_grant.go:159-274 | parsing an accepted builder's spec gives back the fixed values exactly, the fields turned around with trimmed targets, no form field twice and both client credentials |
| InjectRoundTrip.BuildValidated | sdk/credential_grant.go:159-190 | the builder returns its spec exactly when it is acceptable |
| InjectRoundTrip.InjectSpec | sdk/credential_grant.go:72-84 | strings kept, nulls dropped, other values printed, in any order |
| InjectTables.NormalizedIs | sdk/credential_grant.go:72-84 | key by key: texts as they are, nulls dropped, anything else as it is printed |
| InjectRoundTrip.Inject | sdk/credential_grant.go:193-203 | an acceptable builder's spec as loosely typed values |
| InjectRoundTrip.InjectKeepsSpec | sdk/credential_grant.go:72-84 | Inject then InjectSpec is the identity on specs |
| CredentialGrants.LocalCredential | sdk/local_credentials.go:85-92 | for every credential map: the value found is that of some spelling of the field, empty if there is none, so it is blank or not as the spellings allow |
| CredentialGrants.GrantPathAllowed | sdk/local_credentials.go:148-165 | the loop accepts a path exactly when some trimmed pattern is it, is it after an equals sign, or is a prefix of it ending in a star or a slash |
| CredentialGrants.GrantAllows | sdk/local_credentials.go:105-132 | the early exits accept exactly the requests every set list admits, with hosts required |
| GrantScope.PermitsIff | sdk/local_credentials.go:105-190 | a request is permitted exactly when its host is listed, and every other list that is set has its scheme, its method, a pattern naming its path, and a port other than 0 that its URL leads to |
| GrantScope.DefaultPortOmitted | sdk/local_credentials.go:174-190 | leaving out the port is writing 443 for https and 80 for http |
| GrantScope.WrittenPortIff | sdk/local_credentials.go:122-190 | a written port is permitted exactly when it is listed and not 0 |
| GrantScope.NoPortNoPermit | sdk/local_credentials.go:174-190 | without a port and with another scheme, a list of ports admits nothing |
| GrantScope.PatternMatchesIff | sdk/local_credentials.go:148-165 | the paths a pattern names, by how it is written |
| GrantScope.EmptyPathIsRoot | sdk/local_credentials.go:167-172 | an empty path counts as the root |
| GrantScope.CoversIff | sdk/local_credentials.go:50-54 | exactly when a grant covers a request; one without an expiry time never expires |
| GrantScope.FirstCoveringDecides | sdk/local_credentials.go:50-82 | the first covering grant decides: target, TLS, spec and credentials are checked in this order, and the token of that grant is sent |
| GrantScope.UncoveredPasses | sdk/local_credentials.go:50-83 | a request no grant covers passes |
| GrantScope.MethodDefaults | sdk/local_credentials.go:44-47 | a request without a method is a GET, and methods count in any case |
| CredentialGrants.ReplaceAuthorization | sdk/local_credentials.go:72-79 | in any order, every header but the spellings of Authorization is kept and the new one added |
| CredentialGrants.ApplyGrants | sdk/local_credentials.go:36-83 | for every credential map: the first covering grant decides, its credential lookups coming out in a way the map allows; the request's headers change only when that grant sends |
| CredentialGrants.LookupDeterminedIff | sdk/local_credentials.go:85-92 | a lookup can come out both ways exactly when the field's spellings disagree on being blank |
| CredentialGrants.CredentialsDeterminedIff | sdk/local_credentials.go:66-70 | over a grant's fields the outcome depends on map order exactly when every field has a credential and some field's spellings disagree on being blank |
| CredentialGrants.CredentialsAgreed | sdk/local_credentials.go:66-70 | where no spellings disagree, the lookups come out exactly when every field has a credential |
| CredentialGrants.DisagreeingSpellingsExample | sdk/local_credentials.go:85-92 | two spellings of one name, one blank: both outcomes are possible |
| CredentialGrants.UnusableUrlExample | sdk/local_credentials.go:36-44 | an unusable URL passes without grants and is refused with any one |
| CredentialGrants.OnlyCoveringGrantsMatter | sdk/local_credentials.go:36-83 | a corollary for the decision of ApplyGrants: two grant lists with the same covering grants decide alike exactly when the URL is usable or both or neither list is empty |
| CredentialGrants.NonCoveringIsInert | sdk/local_credentials.go:50-54 | for a usable URL, a non-covering grant may stand anywhere in the list |
| CredentialGrants.OneAuthorization | sdk/local_credentials.go:72-80 | about the map ApplyGrants installs: one header spells Authorization, the new one, every other header is as it was, and applying twice is applying once |
| CredentialGrants.BuilderGrantJudged | sdk/local_credentials.go:55-70 | a covering grant made by an accepted builder sends exactly inside the builder's target, over verified TLS unless allowed otherwise, and when the lookups of the mapped fields come out, which they do where all have a credential and no spellings disagree |
| Manifest.SemverIffVersionShape | sdk/manifest.go:268-304 | the recogniser accepts exactly three numbers and an optional signed suffix |
| Manifest.RelativePathStaysInside | sdk/manifest.go:326-347 | an accepted path names a file inside the bundle |
| Manifest.PathPassesIff | sdk/manifest.go:306-347 | a conventional path passes exactly when its short name is not empty |
| Manifest.ShortNameOf | sdk/manifest.go:363-367 | the short name is empty exactly for an empty id or one that ends in a dot, and holds no dot |
| Manifest.Validate | sdk/manifest.go:194-241 | the faults are exactly the problems of the fields, each once and in the order the fields are checked; none exactly when every field passes |
| Manifest.ReportedIff | sdk/manifest.go:194-228 | what is reported of a field is exactly its problem |
| ManifestTables.FaultIff | sdk/manifest.go:194-228 | what is reported of a field is exactly the problem of its own value |
| ManifestTables.FaultsInOrder | sdk/manifest.go:194-228 | the faults come in the order of the fields |
| ManifestTables.VersionCharacters | sdk/manifest.go:268-304 | the characters of a version's numbers and of its suffix |
| ManifestTables.RefProblemIs | sdk/manifest.go:230-255 | which problem a reference has, limits counted in bytes |
| ManifestTables.PathProblemIs | sdk/manifest.go:306-321 | which problem a path has |
| ManifestTables.RelativePathIff | sdk/manifest.go:326-347 | a path is relative exactly when it is segments of the allowed characters with slashes between them |
| ManifestTables.ConventionalContribution | sdk/manifest.go:109-122 | the conventional paths and ids of a contribution |
| Manifest.BuilderPassesIff | sdk/manifest.go:109-122 | what the builder makes passes exactly when the id is a reference of at most 152 characters that does not end in a dot, the version is a version and both kinds are allowed |
| Manifest.FailingIdsExample | sdk/manifest.go:109-122 | the ids "a." and 153 letters are accepted references whose contributions fail |

## Left out

- Depacketizer.AppendBytes: the growth of a slice's capacity is any sufficient one, as the language leaves it.
- Depacketizer.Depacketizer.Push: the test for a zero-length aggregated unit inside the copy loop is not modelled apart from the size test before it, which already refuses it.
- MetricBatches.BatchRoundTrip: encodings are assumed shorter than 2^64 bytes; doubles are their bit patterns.
- ArtifactIntegrity.EveryRunIsSound: a file write is all or nothing, removing a staging file succeeds, and staging names and object keys are disjoint; other operating system calls may fail at any time.
- ArtifactIntegrity.ClientCommitNeverTooLarge: the JSON length of each string is a parameter; only the structure of the response and the decimal length of its size are modelled.
- HttpRoundTrip.DecodedIffAcceptable: of `encoding/json`, only the objects this client writes: no white space between tokens, no negative numbers, null or false, no case-insensitive member names.
- HttpResponses.ResponseReadsBack: the envelope's JSON codec is an assumed inverse pair, as is base64; response buffers are below 2 GiB.
- HttpResponses.Do: contexts that end before the call, durations, and the telemetry around the exchange; grants and handler are functions here, and the grants themselves are modelled on their own.
- CredentialGrants.ApplyGrants: clocks and URL parsing are parameters; where spellings of a credential name disagree the model allows each outcome some map order gives.
- InjectRoundTrip.AcceptedIffBuilderOk: upper-casing is assumed to neither make nor remove spaces.
- RtspClient.Client.DoRequest: sequence numbers are unbounded; reading and parsing a response from the socket is an arbitrary answer or a failure.
- RtspDigest.ServerAccepts: values are assumed to hold no quotes, and algorithm and protection no commas, as header values are not escaped; algorithms other than MD5 and MD5-sess are checked as MD5.
- RtspTrack.ParseTrack: the library's reading of the payload type is any function of its text.
- Manifest.Validate: problems carry no message text, and the fields of a whole manifest outside its signal schemas are single checks on one value each.
- Strings in the RTSP, credential and manifest models are sequences of Unicode characters; upper-casing, lower-casing and case folding are functions on characters.
- SHA-256, MD5, URL parsing, clocks and the operating system are parameters.
- Sequence-number reordering, loss detection and RTP padding removal: the code does none of these.
- Which of several faults a map loop reports: only the verdict is independent of order.
- Host imports, TCP, UDP and WebSocket wrappers, gRPC and camera media pass a call on; the result, advisory, descriptor, schedule, discovery and telemetry builders set or check one field at a time; the example plugins use the SDK. None has state or a decoder of its own to prove anything about.
