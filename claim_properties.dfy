/** What a claim trace says about the messages it came from: which messages
    are acknowledged, which spans reach the callback, and in what order. */
module ClaimProperties {
  import opened Wrappers
  import opened Avro
  import opened Proxy
  import opened Receiver

  /** The messages of a claim that decode, in arrival order. */
  function ValidMessages(msgs: seq<Message>, deserialize: Deserializer): (r: seq<Message>)
    ensures |r| <= |msgs|
    ensures forall k :: 0 <= k < |r| ==> Decodes(deserialize, r[k]) && r[k] in msgs
    ensures forall k :: 0 <= k < |msgs| && Decodes(deserialize, msgs[k]) ==> msgs[k] in r
    decreases |msgs|
  {
    if msgs == [] then []
    else
      var init := ValidMessages(msgs[..|msgs| - 1], deserialize);
      if Decodes(deserialize, msgs[|msgs| - 1]) then init + [msgs[|msgs| - 1]] else init
  }

  /** The spans handed to the callback, in trace order. */
  function Callbacks(trace: seq<Event>): seq<Span>
    decreases |trace|
  {
    if trace == [] then []
    else
      var init := Callbacks(trace[..|trace| - 1]);
      if trace[|trace| - 1].Callback? then init + [trace[|trace| - 1].span] else init
  }

  /** The messages marked processed, in trace order. */
  function Marks(trace: seq<Event>): seq<Message>
    decreases |trace|
  {
    if trace == [] then []
    else
      var init := Marks(trace[..|trace| - 1]);
      if trace[|trace| - 1].Mark? then init + [trace[|trace| - 1].message] else init
  }

  /** The span decoding yields when interning keeps values: the wire record
      field for field, with nothing scaled and nothing dropped. */
  function ExpectedSpan(w: WireSpan): (s: Span)
    ensures ToWire(s) == w
  {
    Span(w.id, w.parent, w.trace, w.name, w.service, w.timestampInNanos, w.durationInNanos,
         Timings(w.crInNanos, w.csInNanos, w.srInNanos, w.ssInNanos), w.tags)
  }

  /** The trace of a claim when interning keeps values. */
  function ExpectedTrace(msgs: seq<Message>, deserialize: Deserializer): seq<Event>
    decreases |msgs|
  {
    if msgs == [] then []
    else
      var init := ExpectedTrace(msgs[..|msgs| - 1], deserialize);
      var last := msgs[|msgs| - 1];
      if Decodes(deserialize, last)
      then init + [Callback(ExpectedSpan(WireOf(deserialize, last))), Mark(last, "")]
      else init
  }

  /** With value-preserving interning the tag copy is the wire tag map. */
  lemma InternedCopyIsTags(tags: map<string, string>, intern: string -> string, r: map<string, string>)
    requires ValuePreserving(intern)
    ensures InternedCopy(tags, intern, r) <==> r == tags
  {
    if InternedCopy(tags, intern, r) {
      assert r.Keys == tags.Keys by {
        forall k | k in tags ensures k in r { assert intern(k) == k; }
      }
      forall k | k in r ensures r[k] == tags[k] {
        var k0 :| k0 in tags && intern(k0) == k && r[k] == intern(tags[k0]);
        assert intern(k0) == k0 && intern(tags[k0]) == tags[k0];
      }
    }
    if r == tags {
      assert (set k | k in tags :: intern(k)) == tags.Keys by {
        forall k | k in tags ensures intern(k) == k { }
      }
      forall k' | k' in r
        ensures exists k :: k in tags && intern(k) == k' && r[k'] == intern(tags[k])
      {
        assert intern(k') == k' && intern(tags[k']) == tags[k'];
      }
    }
  }

  /** With value-preserving interning, decoding `w` yields exactly
      ExpectedSpan(w), from which the wire record is recovered unchanged. */
  lemma SpanOfIsExpected(w: WireSpan, intern: string -> string, s: Span)
    requires ValuePreserving(intern)
    ensures SpanOf(w, intern, s) <==> s == ExpectedSpan(w)
    ensures SpanOf(w, intern, s) ==> ToWire(s) == w
  {
    InternedCopyIsTags(w.tags, intern, s.tags);
    assert intern(w.name) == w.name && intern(w.service) == w.service;
  }

  /** The marks of a claim trace are exactly the messages that decode, in
      arrival order: a message that fails to decode is never acknowledged. */
  lemma {:induction false} MarksAreValidMessages(msgs: seq<Message>, deserialize: Deserializer, intern: string -> string, trace: seq<Event>)
    requires ClaimTrace(msgs, deserialize, intern, trace)
    ensures Marks(trace) == ValidMessages(msgs, deserialize)
    decreases |msgs|
  {
    if msgs != [] {
      var init := msgs[..|msgs| - 1];
      if !Decodes(deserialize, msgs[|msgs| - 1]) {
        MarksAreValidMessages(init, deserialize, intern, trace);
      } else {
        var t0 := trace[..|trace| - 2];
        MarksAreValidMessages(init, deserialize, intern, t0);
        assert trace[..|trace| - 1][..|trace| - 2] == t0;
        assert Marks(trace[..|trace| - 1]) == Marks(t0);
      }
    }
  }

  /** The callbacks of a claim trace are the decoded spans of the messages
      that decode, one for each, in arrival order. */
  lemma {:induction false} CallbacksAreDecodedSpans(msgs: seq<Message>, deserialize: Deserializer, intern: string -> string, trace: seq<Event>)
    requires ClaimTrace(msgs, deserialize, intern, trace)
    ensures var valid := ValidMessages(msgs, deserialize);
      && |Callbacks(trace)| == |valid|
      && forall k :: 0 <= k < |valid| ==> SpanOf(WireOf(deserialize, valid[k]), intern, Callbacks(trace)[k])
    decreases |msgs|
  {
    if msgs != [] {
      var init := msgs[..|msgs| - 1];
      if !Decodes(deserialize, msgs[|msgs| - 1]) {
        CallbacksAreDecodedSpans(init, deserialize, intern, trace);
      } else {
        var t0 := trace[..|trace| - 2];
        CallbacksAreDecodedSpans(init, deserialize, intern, t0);
        assert trace[..|trace| - 1][..|trace| - 2] == t0;
        assert Callbacks(trace[..|trace| - 1]) == Callbacks(t0) + [trace[|trace| - 2].span];
        assert Callbacks(trace) == Callbacks(t0) + [trace[|trace| - 2].span];
      }
    }
  }

  /** The shape of a claim trace: for the k-th message that decodes, event
      2k is the callback with its span and event 2k+1 marks it; nothing else
      is in the trace. So each acknowledgment comes right after the handler
      call for that message and before any event of the next message. */
  lemma {:induction false} TraceShape(msgs: seq<Message>, deserialize: Deserializer, intern: string -> string, trace: seq<Event>)
    requires ClaimTrace(msgs, deserialize, intern, trace)
    ensures var valid := ValidMessages(msgs, deserialize);
      && |trace| == 2 * |valid|
      && forall k :: 0 <= k < |valid| ==>
           && trace[2 * k].Callback?
           && SpanOf(WireOf(deserialize, valid[k]), intern, trace[2 * k].span)
           && trace[2 * k + 1] == Mark(valid[k], "")
    decreases |msgs|
  {
    if msgs != [] {
      var init := msgs[..|msgs| - 1];
      if !Decodes(deserialize, msgs[|msgs| - 1]) {
        TraceShape(init, deserialize, intern, trace);
      } else {
        var t0 := trace[..|trace| - 2];
        TraceShape(init, deserialize, intern, t0);
        var v0 := ValidMessages(init, deserialize);
        var valid := ValidMessages(msgs, deserialize);
        assert valid == v0 + [msgs[|msgs| - 1]];
        forall k | 0 <= k < |valid|
          ensures && trace[2 * k].Callback?
                  && SpanOf(WireOf(deserialize, valid[k]), intern, trace[2 * k].span)
                  && trace[2 * k + 1] == Mark(valid[k], "")
        {
          if k < |v0| {
            assert valid[k] == v0[k];
            assert trace[2 * k] == t0[2 * k] && trace[2 * k + 1] == t0[2 * k + 1];
          }
        }
      }
    }
  }

  /** No acknowledgment precedes its handler call: every mark is directly
      preceded by the callback carrying that same message's decoded span. */
  lemma AckFollowsCallback(msgs: seq<Message>, deserialize: Deserializer, intern: string -> string, trace: seq<Event>, j: nat)
    requires ClaimTrace(msgs, deserialize, intern, trace)
    requires j < |trace| && trace[j].Mark?
    ensures j >= 1 && trace[j - 1].Callback?
    ensures Decodes(deserialize, trace[j].message)
    ensures SpanOf(WireOf(deserialize, trace[j].message), intern, trace[j - 1].span)
    ensures trace[j].metadata == ""
  {
    TraceShape(msgs, deserialize, intern, trace);
    var valid := ValidMessages(msgs, deserialize);
    var k := j / 2;
    assert j == 2 * k || j == 2 * k + 1;
    assert k < |valid|;
  }

  /** With value-preserving interning a claim has exactly one trace. */
  lemma {:induction false} ClaimTraceIsExpected(msgs: seq<Message>, deserialize: Deserializer, intern: string -> string, trace: seq<Event>)
    requires ValuePreserving(intern)
    ensures ClaimTrace(msgs, deserialize, intern, trace) <==> trace == ExpectedTrace(msgs, deserialize)
    decreases |msgs|
  {
    if msgs != [] {
      var init := msgs[..|msgs| - 1];
      var last := msgs[|msgs| - 1];
      if !Decodes(deserialize, last) {
        ClaimTraceIsExpected(init, deserialize, intern, trace);
      } else {
        var w := WireOf(deserialize, last);
        var expected := ExpectedTrace(msgs, deserialize);
        var e0 := ExpectedTrace(init, deserialize);
        assert expected == e0 + [Callback(ExpectedSpan(w)), Mark(last, "")];
        SpanOfIsExpected(w, intern, ExpectedSpan(w));
        if |trace| >= 2 {
          var t0 := trace[..|trace| - 2];
          ClaimTraceIsExpected(init, deserialize, intern, t0);
          if trace[|trace| - 2].Callback? {
            SpanOfIsExpected(w, intern, trace[|trace| - 2].span);
          }
          if trace == expected {
            assert t0 == e0;
          }
          if ClaimTrace(msgs, deserialize, intern, trace) {
            assert trace == t0 + [trace[|trace| - 2], trace[|trace| - 1]];
          }
        } else {
          assert |expected| >= 2;
        }
      }
    }
  }

  /** Messages that fail to decode leave no mark on the trace: a claim has
      the same traces as the claim of its decodable messages alone. */
  lemma {:induction false} UndecodableMessagesIgnored(msgs: seq<Message>, deserialize: Deserializer, intern: string -> string, trace: seq<Event>)
    ensures ClaimTrace(msgs, deserialize, intern, trace) <==> ClaimTrace(ValidMessages(msgs, deserialize), deserialize, intern, trace)
    decreases |msgs|
  {
    if msgs != [] {
      var init := msgs[..|msgs| - 1];
      var last := msgs[|msgs| - 1];
      var v0 := ValidMessages(init, deserialize);
      if !Decodes(deserialize, last) {
        UndecodableMessagesIgnored(init, deserialize, intern, trace);
      } else {
        var v := v0 + [last];
        assert v[..|v| - 1] == v0 && v[|v| - 1] == last;
        if |trace| >= 2 {
          UndecodableMessagesIgnored(init, deserialize, intern, trace[..|trace| - 2]);
        }
      }
    }
  }

  /** Filtering distributes over concatenation. */
  lemma {:induction false} ValidMessagesAppend(a: seq<Message>, b: seq<Message>, deserialize: Deserializer)
    ensures ValidMessages(a + b, deserialize) == ValidMessages(a, deserialize) + ValidMessages(b, deserialize)
    decreases |b|
  {
    if b == [] {
      assert a + b == a;
    } else {
      var b0 := b[..|b| - 1];
      ValidMessagesAppend(a, b0, deserialize);
      assert (a + b)[..|a + b| - 1] == a + b0;
    }
  }

  /** A claim whose messages all decode is acknowledged in full. */
  lemma {:induction false} AllDecodeAllValid(msgs: seq<Message>, deserialize: Deserializer)
    requires forall k :: 0 <= k < |msgs| ==> Decodes(deserialize, msgs[k])
    ensures ValidMessages(msgs, deserialize) == msgs
    decreases |msgs|
  {
    if msgs != [] {
      AllDecodeAllValid(msgs[..|msgs| - 1], deserialize);
    }
  }

  /** Decode isolation: one malformed message among valid ones costs only
      itself; the other messages are handled and acknowledged in order. */
  lemma DecodeIsolation(pre: seq<Message>, bad: Message, post: seq<Message>,
                        deserialize: Deserializer, intern: string -> string, trace: seq<Event>)
    requires !Decodes(deserialize, bad)
    requires forall k :: 0 <= k < |pre| ==> Decodes(deserialize, pre[k])
    requires forall k :: 0 <= k < |post| ==> Decodes(deserialize, post[k])
    requires ClaimTrace(pre + [bad] + post, deserialize, intern, trace)
    ensures Marks(trace) == pre + post
    ensures |Callbacks(trace)| == |pre + [bad] + post| - 1
  {
    var msgs := pre + [bad] + post;
    ValidMessagesAppend(pre + [bad], post, deserialize);
    ValidMessagesAppend(pre, [bad], deserialize);
    assert ValidMessages([bad], deserialize) == [] by {
      assert [bad][..0] == [];
    }
    AllDecodeAllValid(pre, deserialize);
    AllDecodeAllValid(post, deserialize);
    MarksAreValidMessages(msgs, deserialize, intern, trace);
    CallbacksAreDecodedSpans(msgs, deserialize, intern, trace);
  }
}
