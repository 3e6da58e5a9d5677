/** The proxy's internal span, the value handed to the span callback. */
module Proxy {
  import opened Avro

  /** Client-receive, client-send, server-receive and server-send times. */
  datatype Timings = Timings(cr: int, cs: int, sr: int, ss: int)

  datatype Span = Span(
    id: int,
    parent: int,
    trace: int,
    name: string,
    service: string,
    timestamp: int,
    duration: int,
    timings: Timings,
    tags: map<string, string>)

  /** Go's zero value `proxy.Span{}`; its nil tag map reads as the empty map. */
  const ZeroSpan: Span := Span(0, 0, 0, "", "", 0, 0, Timings(0, 0, 0, 0), map[])

  /** Reads the wire record back out of a span: every field of the wire
      record has a place in the span, so this is the inverse of decoding. */
  function ToWire(s: Span): WireSpan
  {
    WireSpan(s.id, s.parent, s.trace, s.name, s.service, s.timestamp, s.duration,
             s.timings.cr, s.timings.cs, s.timings.sr, s.timings.ss, s.tags)
  }
}
