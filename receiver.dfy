/** The per-record path of the Kafka span consumer: turning one message into
    a proxy span, and draining one partition claim into the span callback
    with an acknowledgment after each handled message. */
module Receiver {
  import opened Wrappers
  import opened Avro
  import opened Proxy

  /** A consumed Kafka message: its coordinates and its payload. */
  datatype Message = Message(topic: string, partition: int, offset: int, key: seq<byte>, value: seq<byte>)

  /** `errors.WithMessage(cause, message)`: the cause with a context message. */
  datatype Error = WithMessage(message: string, cause: string)

  const DeserializeContext: string := "deserialize avro message"

  /** A consumer group session as `Setup` sees it. */
  datatype Session = Session(generationId: int, claims: map<string, seq<int>>)

  /** One observable step of a claim: the span callback, or `session.MarkMessage`. */
  datatype Event = Callback(span: Span) | Mark(message: Message, metadata: string)

  /** Interning keeps a string's value (it only shares its storage). */
  ghost predicate ValuePreserving(intern: string -> string)
  {
    forall s :: intern(s) == s
  }

  /** `r` is what filling a fresh map with `r[intern(k)] = intern(v)` for
      every entry of `tags`, in some order, can leave behind: one key per
      interned wire key, each holding the interned value of a wire entry
      whose key interns to it (the last one written, if several do). */
  ghost predicate InternedCopy(tags: map<string, string>, intern: string -> string, r: map<string, string>)
  {
    && r.Keys == (set k | k in tags :: intern(k))
    && forall k' :: k' in r ==> exists k :: k in tags && intern(k) == k' && r[k'] == intern(tags[k])
  }

  /** `s` is a span that decoding the wire record `w` can produce: the
      identifiers, times and timings copied with no scaling, the name,
      service and tags passed through `intern`. */
  ghost predicate SpanOf(w: WireSpan, intern: string -> string, s: Span)
  {
    && s.id == w.id && s.parent == w.parent && s.trace == w.trace
    && s.name == intern(w.name) && s.service == intern(w.service)
    && s.timestamp == w.timestampInNanos && s.duration == w.durationInNanos
    && s.timings == Timings(w.crInNanos, w.csInNanos, w.srInNanos, w.ssInNanos)
    && InternedCopy(w.tags, intern, s.tags)
  }

  /** The tag loop of decodeKafkaMessage: visits the wire tags in an
      unspecified order and stores each interned key and value. */
  method InternTags(tags: map<string, string>, intern: string -> string) returns (r: map<string, string>)
    ensures InternedCopy(tags, intern, r)
  {
    r := map[];
    var rest := tags.Keys;
    while rest != {}
      invariant rest <= tags.Keys
      invariant r.Keys == (set k | k in tags && k !in rest :: intern(k))
      invariant forall k' :: k' in r ==> exists k :: k in tags && k !in rest && intern(k) == k' && r[k'] == intern(tags[k])
      decreases rest
    {
      var key :| key in rest;
      ghost var before := r;
      r := r[intern(key) := intern(tags[key])];
      rest := rest - {key};
      forall k' | k' in r
        ensures exists k :: k in tags && k !in rest && intern(k) == k' && r[k'] == intern(tags[k])
      {
        if k' == intern(key) {
          assert key in tags && key !in rest && intern(key) == k' && r[k'] == intern(tags[key]);
        } else {
          assert k' in before;
        }
      }
    }
  }

  /** decodeKafkaMessage: a deserialiser failure gives the zero span and the
      wrapped error; otherwise the span built from the wire record. */
  method DecodeKafkaMessage(message: Message, deserialize: Deserializer, intern: string -> string)
    returns (span: Span, err: Option<Error>)
    ensures deserialize(message.value).Failure? ==>
      span == ZeroSpan && err == Some(WithMessage(DeserializeContext, deserialize(message.value).error))
    ensures deserialize(message.value).Success? ==>
      err == None && SpanOf(deserialize(message.value).value, intern, span)
  {
    var decoded := deserialize(message.value);
    if decoded.Failure? {
      return ZeroSpan, Some(WithMessage(DeserializeContext, decoded.error));
    }
    var w := decoded.value;
    span := Span(w.id, w.parent, w.trace, intern(w.name), intern(w.service),
                 w.timestampInNanos, w.durationInNanos,
                 Timings(w.crInNanos, w.csInNanos, w.srInNanos, w.ssInNanos),
                 map[]);
    var tags := InternTags(w.tags, intern);
    span := span.(tags := tags);
    err := None;
  }

  /** Setup only logs the session's generation and claims; it never fails. */
  method Setup(session: Session) returns (err: Option<Error>)
    ensures err == None
  {
    err := None;
  }

  /** Cleanup does nothing and never fails. */
  method Cleanup(session: Session) returns (err: Option<Error>)
    ensures err == None
  {
    err := None;
  }

  /** The message decodes. */
  predicate Decodes(deserialize: Deserializer, m: Message)
  {
    deserialize(m.value).Success?
  }

  /** The wire record of a message that decodes. */
  function WireOf(deserialize: Deserializer, m: Message): WireSpan
    requires Decodes(deserialize, m)
  {
    deserialize(m.value).value
  }

  /** `trace` is a trace that consuming the claim `msgs` can produce, stated
      one message at a time from the last: a message that does not decode
      adds nothing; one that does adds its callback and then its mark. */
  ghost predicate ClaimTrace(msgs: seq<Message>, deserialize: Deserializer, intern: string -> string, trace: seq<Event>)
    decreases |msgs|
  {
    if msgs == [] then trace == []
    else
      var last := msgs[|msgs| - 1];
      var init := msgs[..|msgs| - 1];
      if !Decodes(deserialize, last) then ClaimTrace(init, deserialize, intern, trace)
      else
        && |trace| >= 2
        && trace[|trace| - 1] == Mark(last, "")
        && trace[|trace| - 2].Callback?
        && SpanOf(WireOf(deserialize, last), intern, trace[|trace| - 2].span)
        && ClaimTrace(init, deserialize, intern, trace[..|trace| - 2])
  }

  /** ConsumeClaim: for each message in arrival order, decode it; skip it if
      that fails; otherwise call the callback and then mark the message.
      Returns nil once the claim's messages end. */
  method ConsumeClaim(messages: seq<Message>, deserialize: Deserializer, intern: string -> string)
    returns (trace: seq<Event>, err: Option<Error>)
    ensures err == None
    ensures ClaimTrace(messages, deserialize, intern, trace)
  {
    trace := [];
    var i := 0;
    while i < |messages|
      invariant 0 <= i <= |messages|
      invariant ClaimTrace(messages[..i], deserialize, intern, trace)
    {
      var message := messages[i];
      var span, decodeErr := DecodeKafkaMessage(message, deserialize, intern);
      ghost var before := trace;
      if decodeErr == None {
        trace := trace + [Callback(span), Mark(message, "")];
        assert trace[..|trace| - 2] == before;
      }
      assert messages[..i + 1][..i] == messages[..i];
      i := i + 1;
    }
    assert messages[..|messages|] == messages;
    err := None;
  }
}
