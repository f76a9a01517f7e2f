/** `commit_structure` over a whole transcript: which commitments a run leaves, and which bytes they open. */
module StructureCommits {
  import opened RangeSets
  import opened Wire
  import opened JsonTree
  import opened JsonCommit
  import opened JsonPartition
  import opened JsonPieces
  import opened HttpMessages
  import opened HttpCommit

  // ----- The sets of a message, without order

  ghost predicate IsWithoutValue(h: Header, x: RangeSet) {
    Indices(x) == Indices(h.span.indices) - Indices(h.value.indices)
  }

  ghost predicate WithoutValuePiece(headers: seq<Header>, x: RangeSet) {
    exists k :: 0 <= k < |headers| && IsWithoutValue(headers[k], x)
  }

  ghost predicate BodyPiece(body: Option<Body>, x: RangeSet) {
    && body.Some?
    && if body.value.content.Json? then PieceOf(Nodes(body.value.content.value), x, false)
       else x == body.value.content.span.indices
  }

  /** The header is the first of one of the names that a request always opens. */
  ghost predicate NamedFirst(headers: seq<Header>, k: nat)
    requires k < |headers|
  {
    || FirstNamed(headers, k, "host") || FirstNamed(headers, k, "content-length")
    || FirstNamed(headers, k, "content-type") || FirstNamed(headers, k, "transfer-encoding")
  }

  ghost predicate NamedPiece(headers: seq<Header>, x: RangeSet) {
    exists k :: 0 <= k < |headers| && NamedFirst(headers, k) && x == headers[k].span.indices
  }

  /** The sets committed for a request: its frame, its target, its headers and its body's structure. */
  ghost predicate RequestPiece(r: Request, x: RangeSet) {
    || Indices(x) ==
         Indices(r.span.indices) - Indices(r.line.target.indices) - HeaderSpans(r.headers) - BodySpan(r.body)
    || x == r.line.target.indices
    || WithoutValuePiece(r.headers, x)
    || NamedPiece(r.headers, x)
    || BodyPiece(r.body, x)
  }

  /** A response's header is committed as a whole under the same names, first or not, and else without its value. */
  ghost predicate ResponseHeaderPiece(h: Header, x: RangeSet) {
    var name := h.name.data;
    if || SpelledAnyCase(name, "host") || SpelledAnyCase(name, "content-length")
       || SpelledAnyCase(name, "content-type") || SpelledAnyCase(name, "transfer-encoding")
    then x == h.span.indices
    else IsWithoutValue(h, x)
  }

  ghost predicate ResponseHeadersPiece(headers: seq<Header>, x: RangeSet) {
    exists k :: 0 <= k < |headers| && ResponseHeaderPiece(headers[k], x)
  }

  ghost predicate SpanPiece(spans: seq<Span>, x: RangeSet) {
    exists k :: 0 <= k < |spans| && x == spans[k].indices
  }

  /** The sets committed for a response: its frame, headers and body, its chunk boundaries and trailers. */
  ghost predicate ResponsePiece(r: Response, x: RangeSet) {
    || Indices(x) == Indices(r.span.indices) - HeaderSpans(r.headers) - BodySpan(r.body)
    || ResponseHeadersPiece(r.headers, x)
    || BodyPiece(r.body, x)
    || (r.boundaries.Some? && SpanPiece(r.boundaries.value, x))
    || (r.trailers.Some? && WithoutValuePiece(r.trailers.value, x))
  }

  lemma WithoutValueStepsArePieces(headers: seq<Header>, x: RangeSet)
    ensures Set(x) in WithoutValueSteps(headers) <==> WithoutValuePiece(headers, x)
  {
    hide WithoutValueSteps;
    var steps := WithoutValueSteps(headers);
    WithoutValueStepsAre(headers);
    forall k | 0 <= k < |headers| ensures steps[k] == Set(x) <==> IsWithoutValue(headers[k], x) {
      SameSet(x, HttpMessages.WithoutValue(headers[k]));
    }
    if WithoutValuePiece(headers, x) {
      var k :| 0 <= k < |headers| && IsWithoutValue(headers[k], x);
      assert steps[k] == Set(x);
    }
  }

  lemma ResponseHeaderStepsArePieces(headers: seq<Header>, x: RangeSet)
    ensures Set(x) in ResponseHeaderSteps(headers) <==> ResponseHeadersPiece(headers, x)
  {
    hide ResponseHeaderSteps, OpenedName, SpelledAnyCase;
    var steps := ResponseHeaderSteps(headers);
    ResponseHeaderStepsAre(headers);
    forall k | 0 <= k < |headers| ensures steps[k] == Set(x) <==> ResponseHeaderPiece(headers[k], x) {
      OpenedInResponse(headers[k].name.data);
      SameSet(x, HttpMessages.WithoutValue(headers[k]));
    }
    if ResponseHeadersPiece(headers, x) {
      var k :| 0 <= k < |headers| && ResponseHeaderPiece(headers[k], x);
      assert steps[k] == Set(x);
    }
  }

  lemma {:induction false} NamedStepsAre(headers: seq<Header>, names: seq<seq<byte>>, x: RangeSet)
    ensures Set(x) in NamedSteps(headers, names) <==> exists k, name ::
      0 <= k < |headers| && name in names && FirstOfName(headers, k, name) && x == headers[k].span.indices
  {
    hide FirstOfName, HeadersWithName;
    if names != [] {
      var name := names[0];
      NamedStepsAre(headers, names[1..], x);
      if HeadersWithName(headers, name) != [] {
        var k := WithNameIsFirst(headers, name);
        FirstWithName(headers, name, k);
      }
      assert names == [name] + names[1..];
      if k, other :|
        0 <= k < |headers| && other in names && FirstOfName(headers, k, other) && x == headers[k].span.indices
      {
        if other == name { FirstWithName(headers, name, k); }
      }
    }
  }

  lemma NamedStepsArePieces(headers: seq<Header>, x: RangeSet)
    ensures Set(x) in NamedSteps(headers, OPENED) <==> NamedPiece(headers, x)
  {
    hide NamedSteps, FirstOfName, FirstNamed, OPENED;
    NamedStepsAre(headers, OPENED, x);
    forall k | 0 <= k < |headers| ensures OpenedFirst(headers, k) <==> NamedFirst(headers, k) {
      OpenedInRequest(headers, k);
    }
    if NamedPiece(headers, x) {
      var k :| 0 <= k < |headers| && NamedFirst(headers, k) && x == headers[k].span.indices;
      assert OpenedFirst(headers, k);
    }
  }

  lemma {:induction false} SpanStepsArePieces(spans: seq<Span>, x: RangeSet)
    ensures Set(x) in SpanSteps(spans) <==> SpanPiece(spans, x)
  {
    if spans != [] {
      SpanStepsArePieces(spans[1..], x);
      if k :| 0 <= k < |spans[1..]| && x == spans[1..][k].indices { assert x == spans[k + 1].indices; }
      if k :| 0 <= k < |spans| && x == spans[k].indices && k > 0 { assert x == spans[1..][k - 1].indices; }
    }
  }

  lemma BodyStepsArePieces(body: Option<Body>, x: RangeSet)
    requires BodyTreeNested(body)
    ensures Set(x) in BodySteps(body) <==> BodyPiece(body, x)
  {
    hide StructureSteps, PieceOf, WellNested, Nodes;
    if body.Some? && body.value.content.Json? { StepsArePieces(body.value.content.value, x, false); }
  }

  /** What is committed of a request, set by set. */
  lemma RequestStepsArePieces(r: Request, x: RangeSet)
    requires BodyTreeNested(r.body)
    ensures Set(x) in RequestSteps(r) <==> RequestPiece(r, x)
  {
    hide WithoutValueSteps, NamedSteps, BodySteps, RequestFrame, BodyPiece, NamedPiece, WithoutValuePiece,
         HeaderSpans, BodySpan, OPENED;
    SameSet(x, RequestFrame(r));
    WithoutValueStepsArePieces(r.headers, x);
    NamedStepsArePieces(r.headers, x);
    BodyStepsArePieces(r.body, x);
  }

  /** What is committed of a response, set by set. */
  lemma ResponseStepsArePieces(r: Response, x: RangeSet)
    requires BodyTreeNested(r.body)
    ensures Set(x) in ResponseSteps(r) <==> ResponsePiece(r, x)
  {
    hide WithoutValueSteps, ResponseHeaderSteps, SpanSteps, BodySteps, ResponseFrame, BodyPiece, WithoutValuePiece,
         HeaderSpans, BodySpan, SpanPiece, ResponseHeadersPiece;
    SameSet(x, ResponseFrame(r));
    ResponseHeaderStepsArePieces(r.headers, x);
    BodyStepsArePieces(r.body, x);
    SpanStepsArePieces(OrEmpty(r.boundaries), x);
    WithoutValueStepsArePieces(OrEmpty(r.trailers), x);
    NothingToCommit();
  }

  lemma NothingToCommit()
    ensures WithoutValueSteps([]) == [] && SpanSteps([]) == []
  {
  }

  /** A set that is committed for one of the messages in a direction. */
  ghost predicate MessagePiece(requests: seq<Request>, responses: seq<Response>, direction: Direction, x: RangeSet) {
    if direction.Sent? then exists k :: 0 <= k < |requests| && RequestPiece(requests[k], x)
    else exists k :: 0 <= k < |responses| && ResponsePiece(responses[k], x)
  }

  lemma {:induction false} RequestsStepsArePieces(requests: seq<Request>, x: RangeSet)
    requires forall k :: 0 <= k < |requests| ==> BodyTreeNested(requests[k].body)
    ensures Set(x) in RequestsSteps(requests) <==> exists k :: 0 <= k < |requests| && RequestPiece(requests[k], x)
  {
    hide RequestSteps, RequestPiece, BodyTreeNested;
    if requests != [] {
      RequestStepsArePieces(requests[0], x);
      RequestsStepsArePieces(requests[1..], x);
      if k :| 0 <= k < |requests[1..]| && RequestPiece(requests[1..][k], x) { assert RequestPiece(requests[k + 1], x); }
      if k :| 0 <= k < |requests| && RequestPiece(requests[k], x) && k > 0 {
        assert RequestPiece(requests[1..][k - 1], x);
      }
    }
  }

  lemma {:induction false} ResponsesStepsArePieces(responses: seq<Response>, x: RangeSet)
    requires forall k :: 0 <= k < |responses| ==> BodyTreeNested(responses[k].body)
    ensures Set(x) in ResponsesSteps(responses) <==> exists k :: 0 <= k < |responses| && ResponsePiece(responses[k], x)
  {
    hide ResponseSteps, ResponsePiece, BodyTreeNested;
    if responses != [] {
      ResponseStepsArePieces(responses[0], x);
      ResponsesStepsArePieces(responses[1..], x);
      if k :| 0 <= k < |responses[1..]| && ResponsePiece(responses[1..][k], x) {
        assert ResponsePiece(responses[k + 1], x);
      }
      if k :| 0 <= k < |responses| && ResponsePiece(responses[k], x) && k > 0 {
        assert ResponsePiece(responses[1..][k - 1], x);
      }
    }
  }

  // ----- Runs

  /** What is committed of a whole transcript: the requests as sent, then the responses as received. */
  function AfterMessages(commits: seq<Commitment>, requests: seq<Request>, responses: seq<Response>,
                         accepts: Acceptance): (seq<Commitment>, Outcome)
  {
    var (held, outcome) := After(commits, RequestsSteps(requests), accepts, Sent);
    if outcome.Committed? then After(held, ResponsesSteps(responses), accepts, Received) else (held, outcome)
  }

  /**
   What a run over messages leaves. Every new commitment is a set of a message in that message's direction, and
   was accepted by the builder with what it held by then; requests come before responses. If the run succeeds,
   every set of every message is there; if not, the builder refused one of them.
   */
  ghost predicate CommitsMessages(before: seq<Commitment>, after: seq<Commitment>, outcome: Outcome,
                                  requests: seq<Request>, responses: seq<Response>, accepts: Acceptance)
  {
    && before <= after
    && (forall i :: |before| <= i < |after| ==>
          AcceptedAt(after, i, accepts) && MessagePiece(requests, responses, after[i].direction, after[i].ranges))
    && (forall i, j :: |before| <= i < j < |after| && after[i].direction.Received? ==> after[j].direction.Received?)
    && match outcome
       case Committed =>
         forall d, x :: MessagePiece(requests, responses, d, x) ==> Commitment(d, x) in after[|before|..]
       case Refused => exists d, x :: MessagePiece(requests, responses, d, x) && !accepts(after, d, x)
       case CannotCommitRedacted => false
  }

  ghost predicate TreesNested(requests: seq<Request>, responses: seq<Response>) {
    && (forall k :: 0 <= k < |requests| ==> BodyTreeNested(requests[k].body))
    && (forall k :: 0 <= k < |responses| ==> BodyTreeNested(responses[k].body))
  }

  /** A request's sets come in this order: frame, target, each header, the named headers, the body. */
  lemma RequestOrder(r: Request)
    ensures var n, steps := |r.headers|, RequestSteps(r);
      && |steps| >= 2 + n
      && steps[0].Set? && Indices(steps[0].ranges) ==
           Indices(r.span.indices) - Indices(r.line.target.indices) - HeaderSpans(r.headers) - BodySpan(r.body)
      && steps[1] == Set(r.line.target.indices)
      && (forall k :: 0 <= k < n ==> steps[2 + k].Set? && IsWithoutValue(r.headers[k], steps[2 + k].ranges))
      && steps[2 + n..] == NamedSteps(r.headers, OPENED) + BodySteps(r.body)
  {
    hide WithoutValueSteps, NamedSteps, BodySteps, RequestFrame, HeaderSpans, BodySpan, OPENED;
    WithoutValueStepsAre(r.headers);
  }

  /** A response's sets: frame, each header, the body, the boundaries, the trailers. */
  lemma ResponseOrder(r: Response)
    ensures var n, steps := |r.headers|, ResponseSteps(r);
      && |steps| >= 1 + n
      && steps[0].Set? && Indices(steps[0].ranges) ==
           Indices(r.span.indices) - HeaderSpans(r.headers) - BodySpan(r.body)
      && (forall k :: 0 <= k < n ==> steps[1 + k].Set? && ResponseHeaderPiece(r.headers[k], steps[1 + k].ranges))
      && steps[1 + n..] ==
           BodySteps(r.body) + (SpanSteps(OrEmpty(r.boundaries)) + WithoutValueSteps(OrEmpty(r.trailers)))
  {
    hide WithoutValueSteps, ResponseHeaderSteps, SpanSteps, BodySteps, ResponseFrame, HeaderSpans, BodySpan,
         ResponseHeaderStep, ResponseHeaderPiece;
    ResponseHeaderStepsAre(r.headers);
    forall k | 0 <= k < |r.headers|
      ensures ResponseHeaderStep(r.headers[k]).Set?
      ensures ResponseHeaderPiece(r.headers[k], ResponseHeaderStep(r.headers[k]).ranges)
    {
      ResponseHeaderStepIsPiece(r.headers[k]);
    }
  }

  lemma ResponseHeaderStepIsPiece(h: Header)
    ensures ResponseHeaderStep(h).Set? && ResponseHeaderPiece(h, ResponseHeaderStep(h).ranges)
  {
    hide SpelledAnyCase, OpenedName;
    OpenedInResponse(h.name.data);
  }

  lemma MessagePiecesAreSteps(requests: seq<Request>, responses: seq<Response>, x: RangeSet)
    requires TreesNested(requests, responses)
    ensures MessagePiece(requests, responses, Sent, x) <==> Set(x) in RequestsSteps(requests)
    ensures MessagePiece(requests, responses, Received, x) <==> Set(x) in ResponsesSteps(responses)
  {
    hide RequestPiece, ResponsePiece, RequestsSteps, ResponsesSteps, BodyTreeNested;
    RequestsStepsArePieces(requests, x);
    ResponsesStepsArePieces(responses, x);
  }

  lemma {:induction false} NoStructureGivesUp(requests: seq<Request>, responses: seq<Response>)
    requires TreesNested(requests, responses)
    ensures GiveUp !in RequestsSteps(requests) && GiveUp !in ResponsesSteps(responses)
    decreases |requests| + |responses|
  {
    hide RequestSteps, ResponseSteps, BodyTreeNested;
    if requests != [] {
      RequestNeverGivesUp(requests[0]);
      NoStructureGivesUp(requests[1..], responses);
    } else if responses != [] {
      ResponseNeverGivesUp(responses[0]);
      NoStructureGivesUp(requests, responses[1..]);
    }
  }

  lemma MessageNeverGivesUp(body: Option<Body>, headers: seq<Header>, more: seq<Header>, spans: seq<Span>)
    requires BodyTreeNested(body)
    ensures GiveUp !in BodySteps(body) && GiveUp !in WithoutValueSteps(headers) && GiveUp !in WithoutValueSteps(more)
    ensures GiveUp !in NamedSteps(headers, OPENED) && GiveUp !in ResponseHeaderSteps(headers)
    ensures GiveUp !in SpanSteps(spans)
  {
    hide StructureSteps, WithoutValueSteps, NamedSteps, ResponseHeaderSteps, SpanSteps, WellNested, OPENED, Partition;
    WithoutValueStepsAre(headers);
    WithoutValueStepsAre(more);
    ResponseHeaderStepsAre(headers);
    NamedNeverGiveUp(headers, OPENED);
    SpansNeverGiveUp(spans);
    if body.Some? && body.value.content.Json? { StructureNeverGivesUp(body.value.content.value); }
  }

  lemma StructureNeverGivesUp(v: JsonValue)
    requires WellNested(v)
    ensures GiveUp !in StructureSteps(v)
  {
    hide StructureSteps, WellNested, Covered, Apart;
    StructurePartition(v);
  }

  lemma {:induction false} NamedNeverGiveUp(headers: seq<Header>, names: seq<seq<byte>>)
    ensures GiveUp !in NamedSteps(headers, names)
  {
    hide HeadersWithName;
    if names != [] { NamedNeverGiveUp(headers, names[1..]); }
  }

  lemma {:induction false} SpansNeverGiveUp(spans: seq<Span>)
    ensures GiveUp !in SpanSteps(spans)
  {
    if spans != [] { SpansNeverGiveUp(spans[1..]); }
  }

  lemma RequestNeverGivesUp(r: Request)
    requires BodyTreeNested(r.body)
    ensures GiveUp !in RequestSteps(r)
  {
    hide WithoutValueSteps, NamedSteps, BodySteps, RequestFrame, BodyTreeNested, OPENED;
    MessageNeverGivesUp(r.body, r.headers, [], []);
  }

  lemma ResponseNeverGivesUp(r: Response)
    requires BodyTreeNested(r.body)
    ensures GiveUp !in ResponseSteps(r)
  {
    hide WithoutValueSteps, ResponseHeaderSteps, SpanSteps, BodySteps, ResponseFrame, BodyTreeNested;
    MessageNeverGivesUp(r.body, r.headers, OrEmpty(r.trailers), OrEmpty(r.boundaries));
  }

  /** The specification of a run over messages is what the run promises. */
  lemma RunCommitsMessages(held: seq<Commitment>, requests: seq<Request>, responses: seq<Response>, accepts: Acceptance)
    requires TreesNested(requests, responses)
    ensures var (after, outcome) := AfterMessages(held, requests, responses, accepts);
      CommitsMessages(held, after, outcome, requests, responses, accepts)
  {
    hide After, MessagePiece, RequestsSteps, ResponsesSteps, TreesNested, AcceptedAt;
    var (sent, first) := After(held, RequestsSteps(requests), accepts, Sent);
    var (after, outcome) := AfterMessages(held, requests, responses, accepts);
    NoStructureGivesUp(requests, responses);
    RunAdds(held, RequestsSteps(requests), accepts, Sent);
    if first.Committed? {
      RunAdds(sent, ResponsesSteps(responses), accepts, Received);
      assert after[|held|..] == sent[|held|..] + after[|sent|..];
    }
    forall i | |held| <= i < |after|
      ensures AcceptedAt(after, i, accepts) && MessagePiece(requests, responses, after[i].direction, after[i].ranges)
    {
      MessagePiecesAreSteps(requests, responses, after[i].ranges);
      if i < |sent| { SameAcceptance(sent, after, i, accepts); }
    }
    if outcome.Committed? {
      forall d, x | MessagePiece(requests, responses, d, x) ensures Commitment(d, x) in after[|held|..] {
        MessagePiecesAreSteps(requests, responses, x);
        if d.Sent? { assert Commitment(d, x) in sent[|held|..]; } else { assert Commitment(d, x) in after[|sent|..]; }
      }
    } else if first.Committed? {
      var x :| Set(x) in ResponsesSteps(responses) && !accepts(after, Received, x);
      MessagePiecesAreSteps(requests, responses, x);
    } else {
      var x :| Set(x) in RequestsSteps(requests) && !accepts(after, Sent, x);
      MessagePiecesAreSteps(requests, responses, x);
    }
  }

  // ----- Bytes

  /** A new commitment in this direction opens the index. */
  ghost predicate Opens(commits: seq<Commitment>, direction: Direction, x: nat) {
    exists c :: c in commits && c.direction == direction && x in Indices(c.ranges)
  }

  /** Messages lie apart from each other, nested as the committer needs. */
  ghost predicate MessagesApart(requests: seq<Request>, responses: seq<Response>) {
    && (forall k :: 0 <= k < |requests| ==> RequestNested(requests[k]))
    && (forall k :: 0 <= k < |responses| ==> ResponseNested(responses[k]))
    && (forall i, j :: 0 <= i < j < |requests| ==>
          Indices(requests[i].span.indices) !! Indices(requests[j].span.indices))
    && (forall i, j :: 0 <= i < j < |responses| ==>
          Indices(responses[i].span.indices) !! Indices(responses[j].span.indices))
  }

  /** In each direction, what is opened of a message is what that message does not keep closed, and nothing else. */
  ghost predicate OpensExactly(commits: seq<Commitment>, requests: seq<Request>, responses: seq<Response>) {
    && (forall k, x :: 0 <= k < |requests| && x in Indices(requests[k].span.indices) ==>
          (Opens(commits, Sent, x) <==> x !in ClosedInRequest(requests[k].headers) + ClosedInBody(requests[k].body)))
    && (forall k, x :: 0 <= k < |responses| && x in Indices(responses[k].span.indices) ==>
          (Opens(commits, Received, x) <==>
             x !in ClosedInResponse(responses[k].headers) + ClosedInBody(responses[k].body)))
    && (forall x :: Opens(commits, Sent, x) ==>
          exists k :: 0 <= k < |requests| && x in Indices(requests[k].span.indices))
    && (forall x :: Opens(commits, Received, x) ==>
          exists k :: 0 <= k < |responses| && x in Indices(responses[k].span.indices))
  }

  /** Once every set of every message is committed, the open bytes are exactly those the messages do not close. */
  lemma CommittedOpensExactly(before: seq<Commitment>, after: seq<Commitment>, requests: seq<Request>,
                              responses: seq<Response>, accepts: Acceptance)
    requires MessagesApart(requests, responses) && TreesNested(requests, responses) && before <= after
    requires CommitsMessages(before, after, Committed, requests, responses, accepts)
    ensures OpensExactly(after[|before|..], requests, responses)
  {
    hide MessagePiece, RequestsSteps, ResponsesSteps, TreesNested, AcceptedAt, RequestNested, ResponseNested, Opens,
         ClosedInRequest, ClosedInResponse, ClosedInBody, CommitsMessages, Covered;
    var commits := after[|before|..];
    forall x
      ensures Opens(commits, Sent, x) <==> x in Covered(RequestsSteps(requests))
      ensures Opens(commits, Received, x) <==> x in Covered(ResponsesSteps(responses))
    {
      OpensWhatStepsCover(before, after, requests, responses, accepts, x);
      CoveredByRequests(requests, x);
      CoveredByResponses(responses, x);
    }
    forall k, x | 0 <= k < |requests| && x in Indices(requests[k].span.indices)
      ensures Opens(commits, Sent, x) <==> x !in ClosedInRequest(requests[k].headers) + ClosedInBody(requests[k].body)
    {
      AllRequestsAreExact(requests, k, x);
    }
    forall k, x | 0 <= k < |responses| && x in Indices(responses[k].span.indices)
      ensures Opens(commits, Received, x) <==>
        x !in ClosedInResponse(responses[k].headers) + ClosedInBody(responses[k].body)
    {
      AllResponsesAreExact(responses, k, x);
    }
    forall x | Opens(commits, Sent, x)
      ensures exists k :: 0 <= k < |requests| && x in Indices(requests[k].span.indices)
    {
      CoveredByRequests(requests, x);
      var k :| 0 <= k < |requests| && x in Covered(RequestSteps(requests[k]));
      RequestStructureIsExact(requests[k]);
    }
    forall x | Opens(commits, Received, x)
      ensures exists k :: 0 <= k < |responses| && x in Indices(responses[k].span.indices)
    {
      CoveredByResponses(responses, x);
      var k :| 0 <= k < |responses| && x in Covered(ResponseSteps(responses[k]));
      ResponseStructureIsExact(responses[k]);
    }
  }

  lemma OpensWhatStepsCover(before: seq<Commitment>, after: seq<Commitment>, requests: seq<Request>,
                            responses: seq<Response>, accepts: Acceptance, x: nat)
    requires TreesNested(requests, responses)
    requires CommitsMessages(before, after, Committed, requests, responses, accepts)
    ensures Opens(after[|before|..], Sent, x) <==> x in Covered(RequestsSteps(requests))
    ensures Opens(after[|before|..], Received, x) <==> x in Covered(ResponsesSteps(responses))
  {
    hide MessagePiece, RequestsSteps, ResponsesSteps, TreesNested, AcceptedAt, Covered;
    var commits := after[|before|..];
    NoStructureGivesUp(requests, responses);
    OpensSteps(commits, RequestsSteps(requests), Sent, x) by {
      forall c | c in commits && c.direction.Sent? ensures Set(c.ranges) in RequestsSteps(requests) {
        MessagePiecesAreSteps(requests, responses, c.ranges);
      }
      forall rs | Set(rs) in RequestsSteps(requests) ensures Commitment(Sent, rs) in commits {
        MessagePiecesAreSteps(requests, responses, rs);
      }
    }
    OpensSteps(commits, ResponsesSteps(responses), Received, x) by {
      forall c | c in commits && c.direction.Received? ensures Set(c.ranges) in ResponsesSteps(responses) {
        MessagePiecesAreSteps(requests, responses, c.ranges);
      }
      forall rs | Set(rs) in ResponsesSteps(responses) ensures Commitment(Received, rs) in commits {
        MessagePiecesAreSteps(requests, responses, rs);
      }
    }
  }

  lemma OpensSteps(commits: seq<Commitment>, steps: seq<Step>, direction: Direction, x: nat)
    requires forall c :: c in commits && c.direction == direction ==> Set(c.ranges) in steps
    requires forall rs :: Set(rs) in steps ==> Commitment(direction, rs) in commits
    requires GiveUp !in steps
    ensures Opens(commits, direction, x) <==> x in Covered(steps)
  {
    CoveredMembership(steps, x);
    if Opens(commits, direction, x) {
      var c :| c in commits && c.direction == direction && x in Indices(c.ranges);
      var k :| 0 <= k < |steps| && steps[k] == Set(c.ranges);
      assert x in StepIndices(steps[k]);
    }
    if k :| 0 <= k < |steps| && x in StepIndices(steps[k]) {
      assert steps[k] in steps && steps[k] == Set(steps[k].ranges);
      assert Commitment(direction, steps[k].ranges) in commits;
    }
  }

  /** What `commit_structure` promises of a run, from its specification. */
  lemma ApartIsExact(held: seq<Commitment>, requests: seq<Request>, responses: seq<Response>, accepts: Acceptance)
    requires TreesNested(requests, responses)
    ensures var (after, outcome) := AfterMessages(held, requests, responses, accepts);
      && |held| <= |after|
      && (outcome.Committed? && MessagesApart(requests, responses) ==>
            OpensExactly(after[|held|..], requests, responses))
      && ((forall h, d, rs :: accepts(h, d, rs)) ==> outcome.Committed?)
  {
    hide AfterMessages, MessagesApart, OpensExactly, MessagePiece, TreesNested, AcceptedAt;
    var (after, outcome) := AfterMessages(held, requests, responses, accepts);
    RunCommitsMessages(held, requests, responses, accepts);
    if outcome.Committed? && MessagesApart(requests, responses) {
      CommittedOpensExactly(held, after, requests, responses, accepts);
    }
  }

  /** `HttpCommit::commit_structure` */
  method CommitTranscriptStructure(builder: CommitmentBuilder, requests: seq<Request>,
                                   responses: seq<Response>) returns (outcome: Outcome)
    requires TreesNested(requests, responses)
    modifies builder
    ensures CommitsMessages(old(builder.commits), builder.commits, outcome, requests, responses, builder.accepts)
    ensures outcome.Committed? && MessagesApart(requests, responses) ==>
      OpensExactly(builder.commits[|old(builder.commits)|..], requests, responses)
    ensures (forall h, d, rs :: builder.accepts(h, d, rs)) ==> outcome.Committed?
    ensures (builder.commits, outcome) == AfterMessages(old(builder.commits), requests, responses, builder.accepts)
  {
    hide After, RequestSteps, ResponseSteps, BodyTreeNested, CommitsMessages, MessagesApart, OpensExactly;
    RunCommitsMessages(builder.commits, requests, responses, builder.accepts);
    ApartIsExact(builder.commits, requests, responses, builder.accepts);
    ghost var sent := After(builder.commits, RequestsSteps(requests), builder.accepts, Sent);
    outcome := Committed;
    assert requests[0..] == requests;
    for k := 0 to |requests|
      invariant outcome.Committed?
      invariant sent == After(builder.commits, RequestsSteps(requests[k..]), builder.accepts, Sent)
    {
      assert requests[k..][1..] == requests[k + 1..];
      AfterSteps(builder.commits, RequestSteps(requests[k]), RequestsSteps(requests[k + 1..]), builder.accepts, Sent);
      outcome := CommitRequest(builder, requests[k]);
      if outcome != Committed { return; }
    }
    assert requests[|requests|..] == [];
    NothingLeft(builder.commits, builder.accepts, Sent);
    ghost var received := After(builder.commits, ResponsesSteps(responses), builder.accepts, Received);
    assert responses[0..] == responses;
    for k := 0 to |responses|
      invariant outcome.Committed?
      invariant received == After(builder.commits, ResponsesSteps(responses[k..]), builder.accepts, Received)
    {
      assert responses[k..][1..] == responses[k + 1..];
      AfterSteps(builder.commits, ResponseSteps(responses[k]), ResponsesSteps(responses[k + 1..]), builder.accepts,
                 Received);
      outcome := CommitResponse(builder, responses[k]);
      if outcome != Committed { return; }
    }
    assert responses[|responses|..] == [];
    NothingLeft(builder.commits, builder.accepts, Received);
  }
}
