# Kafka span receiver: a Dafny model

This models the per-record path of the Kafka span consumer in the zipkin proxy's
`balance` package. It covers two things. The first is turning one Kafka message
into a `proxy.Span` (`decodeKafkaMessage`). The second is `ConsumeClaim`, the loop
that drains one partition claim under a consumer-group session. For each message
the loop decodes it. It drops the message if decoding fails. Otherwise it calls
the span callback and then marks the message processed.

Modules:

- `Wrappers` (wrappers.dfy): `Option`, to model Go's nil-or-not `error`, and `Result`.
- `Avro` (avro.dfy): the deserialised wire record `WireSpan` and the
  deserialiser's type `Deserializer`. The deserialiser is a partial function from
  the payload bytes to a record or an error.
- `Proxy` (proxy.dfy): the proxy's `Span` and `Timings`, the zero span, and
  `ToWire`, which reads a wire record back out of a span.
- `Receiver` (receiver.dfy): the messages, the `Event`s of a claim's trace
  (`Callback(span)` and `Mark(message, metadata)`), the tag-copy loop,
  `DecodeKafkaMessage`, `Setup`, `Cleanup`, `ConsumeClaim`, and `ClaimTrace`.
  `ClaimTrace` is the relation between a claim's messages and the traces that
  consuming the claim can produce.
- `ClaimProperties` (claim_properties.dfy): what a claim trace says about its
  messages. It covers which messages are acknowledged, which spans reach the
  callback, the order of events, and how value-preserving interning makes the
  trace unique.

The deserialiser (`avro.DeserializeSpan`) and the interning function
(`cache.String`) are passed in as function parameters. Their code is not part of
this model. Interning is an arbitrary `string -> string` wherever that is enough.
The tag copy is stated for any interning function, with the keys visited in an
unspecified order, as Go's map iteration does. The predicate `ValuePreserving`
says interning keeps each string's value. The lemmas that need it (exact tags,
exact spans, a unique trace) assume it.

The callback's and `MarkMessage`'s side effects are recorded as a trace. The
trace is the method's output. The session and the callback do not appear
otherwise.

Decoding copies `DurationInNanos` into `Duration` with no unit conversion
(balance/receiver.go:64). `SpanOf`, and so every lemma about decoded spans,
states this.

## Model

| member | source | states |
|---|---|---|
| Receiver.InternTags | balance/receiver.go:74-78 | The tag map built by the loop has exactly the interned wire keys as its keys. Each key holds the interned value of a wire entry whose key interns to it. This holds for any visiting order. |
| Receiver.DecodeKafkaMessage | balance/receiver.go:49-81 | If deserialising fails, the result is the zero span and the error wraps the cause with "deserialize avro message". Otherwise there is no error. Identifiers, timestamp, duration and the four timings are copied unscaled. Name, service and tags go through interning. |
| Receiver.Setup | balance/receiver.go:89-98 | Always returns no error. |
| Receiver.Cleanup | balance/receiver.go:101-103 | Always returns no error. |
| Receiver.ConsumeClaim | balance/receiver.go:106-126 | Returns no error whenever the messages end, whatever failed to decode. Its trace is a `ClaimTrace` of the messages. A message that fails to decode adds no event. A message that decodes adds its callback and then its mark with empty metadata, in arrival order. |
| ClaimProperties.ValidMessages | balance/receiver.go:114-118 | The filtered claim is no longer than the claim. Every message in it decodes and comes from the claim, and every message of the claim that decodes is in it. |
| ClaimProperties.ExpectedSpan | balance/receiver.go:55-78 | A wire record is recovered unchanged from its reference span, so the conversion loses no field. |
| ClaimProperties.InternedCopyIsTags | balance/receiver.go:75-78 | With value-preserving interning, a map is a possible result of the tag copy if and only if it equals the wire tag map. So the key set is the same and each key keeps its wire value. |
| ClaimProperties.SpanOfIsExpected | balance/receiver.go:55-78 | With value-preserving interning, a span is a possible decoding of a wire record if and only if it is the field-for-field copy. The wire record can be read back from that span. |
| ClaimProperties.MarksAreValidMessages | balance/receiver.go:111-123 | The marked messages, in trace order, are exactly the messages that decode, in arrival order. No undecodable message is acknowledged. |
| ClaimProperties.CallbacksAreDecodedSpans | balance/receiver.go:111-123 | There is one callback per decodable message, in arrival order. The k-th callback carries a decoding of the k-th decodable message's wire record. |
| ClaimProperties.TraceShape | balance/receiver.go:111-123 | For the k-th decodable message, event 2k is its callback and event 2k+1 is its mark. The trace holds nothing else. |
| ClaimProperties.AckFollowsCallback | balance/receiver.go:120-122 | Every mark is directly preceded by the callback carrying the decoded span of that same message, and the message decodes. No message is acknowledged before its handler has returned. |
| ClaimProperties.ClaimTraceIsExpected | balance/receiver.go:111-123 | With value-preserving interning, a claim has exactly one trace: callbacks of the copied spans interleaved with marks of the decodable messages. |
| ClaimProperties.UndecodableMessagesIgnored | balance/receiver.go:114-118 | A claim and the claim of its decodable messages alone have the same traces. A failed decode only skips that message, and processing continues with the next one. |
| ClaimProperties.DecodeIsolation | balance/receiver.go:111-123 | Among N messages of which exactly one is malformed, the callback runs N-1 times. The other messages are all marked, in their original order. |

## Left out

- `Consume` (balance/receiver.go:19-47): it runs a goroutine, uses a cancelable `context` and a `finishedCh` channel handshake, and retries the session forever. That is concurrency and shutdown synchronisation, which a sequential model does not capture.
- The sarama consumer-group protocol (sessions, claims, the transport behind `MarkMessage`, rebalancing): this is an external library. It appears only as the claim's message sequence and the `Mark` events of the trace.
- The inside of `avro.DeserializeSpan` and any round trip against the avro schema: the decoder is a parameter, treated as an opaque partial function.
- The `cache.String` interning table (deduplication, shared storage, concurrency safety): interning appears only as a function on string values.
- Logging in `Setup`, including its walk over the session's claims, and the `log.Warnf` call for a message that fails to decode: these are observational only.
- Integer widths: Go's `int64`/`uint64` fields and the `proxy.Id`, `proxy.Timestamp` and `time.Duration` conversions are plain unbounded integers. The model assumes these conversions keep values.
- Receiver.DecodeKafkaMessage: the wrapped error is modelled as the pair (context message, cause). It is not the formatted string `errors.WithMessage` produces.
- The zero span's nil tag map is modelled as the empty map.
- Blocking and timing: a callback that stalls, and a claim's channel blocking while it waits for the next message, are not modelled. A claim is a finite sequence of messages.
