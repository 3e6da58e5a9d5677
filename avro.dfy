/** The wire side of a span: the record the avro deserialiser produces.
    The deserialiser itself is not part of this model; it appears only as a
    partial function from the message payload to a record or an error. */
module Avro {
  import opened Wrappers

  newtype byte = x: int | 0 <= x < 0x100

  /** The deserialised wire span. Identifiers and times are plain integers. */
  datatype WireSpan = WireSpan(
    id: int,
    parent: int,
    trace: int,
    name: string,
    service: string,
    timestampInNanos: int,
    durationInNanos: int,
    crInNanos: int,
    csInNanos: int,
    srInNanos: int,
    ssInNanos: int,
    tags: map<string, string>)

  /** The avro deserialiser: a record, or the reason the payload is not one. */
  type Deserializer = seq<byte> -> Result<WireSpan, string>
}
