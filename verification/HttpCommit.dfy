/** The HTTP committer's `commit_structure`: what it opens of a message, and what it leaves closed. */
module HttpCommit {
  import opened RangeSets
  import opened Wire
  import opened JsonTree
  import opened JsonCommit
  import opened JsonPartition
  import opened HttpMessages
  import M = HttpMessages

  /** The headers whose values are always opened. */
  const OPENED: seq<seq<byte>> := [HOST, CONTENT_LENGTH, CONTENT_TYPE, TRANSFER_ENCODING]

  predicate OpenedName(name: seq<byte>) {
    || SameName(name, HOST) || SameName(name, CONTENT_LENGTH)
    || SameName(name, CONTENT_TYPE) || SameName(name, TRANSFER_ENCODING)
  }

  // ----- The commits, in order

  function WithoutValueSteps(headers: seq<Header>): seq<Step> {
    if headers == [] then [] else [Set(M.WithoutValue(headers[0]))] + WithoutValueSteps(headers[1..])
  }

  /** The first header of each name, if there is one. */
  function NamedSteps(headers: seq<Header>, names: seq<seq<byte>>): seq<Step> {
    if names == [] then []
    else
      var found := HeadersWithName(headers, names[0]);
      (if found == [] then [] else [Set(found[0].span.indices)]) + NamedSteps(headers, names[1..])
  }

  function BodySteps(body: Option<Body>): seq<Step> {
    match body
    case None => []
    case Some(b) =>
      match b.content
      case Json(v) => StructureSteps(v)
      case Unknown(span) => [Set(span.indices)]
  }

  function ResponseHeaderStep(h: Header): Step {
    if OpenedName(h.name.data) then Set(h.span.indices) else Set(M.WithoutValue(h))
  }

  function ResponseHeaderSteps(headers: seq<Header>): seq<Step> {
    if headers == [] then [] else [ResponseHeaderStep(headers[0])] + ResponseHeaderSteps(headers[1..])
  }

  function SpanSteps(spans: seq<Span>): seq<Step> {
    if spans == [] then [] else [Set(spans[0].indices)] + SpanSteps(spans[1..])
  }

  function OrEmpty<T>(s: Option<seq<T>>): seq<T> { if s.Some? then s.value else [] }

  function RequestSteps(r: Request): seq<Step> {
    [Set(RequestFrame(r))] + ([Set(r.line.target.indices)]
    + (WithoutValueSteps(r.headers) + (NamedSteps(r.headers, OPENED) + BodySteps(r.body))))
  }

  function ResponseSteps(r: Response): seq<Step> {
    [Set(ResponseFrame(r))] + (ResponseHeaderSteps(r.headers)
    + (BodySteps(r.body) + (SpanSteps(OrEmpty(r.boundaries)) + WithoutValueSteps(OrEmpty(r.trailers)))))
  }

  function RequestsSteps(requests: seq<Request>): seq<Step> {
    if requests == [] then [] else RequestSteps(requests[0]) + RequestsSteps(requests[1..])
  }

  function ResponsesSteps(responses: seq<Response>): seq<Step> {
    if responses == [] then [] else ResponseSteps(responses[0]) + ResponsesSteps(responses[1..])
  }

  // ----- What messages look like

  ghost predicate BodyNested(body: Option<Body>) {
    body.Some? ==>
      match body.value.content
      case Json(v) => WellNested(v) && Indices(v.span.indices) <= BodySpan(body)
      case Unknown(span) => span.indices == body.value.span.indices
  }

  /** Headers lie apart from each other inside a region, each value inside its header. */
  ghost predicate HeadersNested(headers: seq<Header>, region: set<nat>) {
    headers != [] ==>
      && Indices(headers[0].value.indices) <= Indices(headers[0].span.indices)
      && Indices(headers[0].span.indices) <= region
      && Indices(headers[0].span.indices) !! HeaderSpans(headers[1..])
      && HeadersNested(headers[1..], region)
  }

  ghost predicate RequestNested(r: Request) {
    && Indices(r.line.target.indices) <= Indices(r.span.indices)
    && BodySpan(r.body) <= Indices(r.span.indices) - Indices(r.line.target.indices)
    && HeadersNested(r.headers, Indices(r.span.indices) - Indices(r.line.target.indices) - BodySpan(r.body))
    && BodyNested(r.body)
  }

  ghost predicate ResponseNested(r: Response) {
    && BodySpan(r.body) <= Indices(r.span.indices)
    && HeadersNested(r.headers, Indices(r.span.indices) - BodySpan(r.body))
    && BodyNested(r.body)
    && Covered(SpanSteps(OrEmpty(r.boundaries))) <= Indices(r.span.indices) - HeaderSpans(r.headers) - BodySpan(r.body)
    && HeaderSpans(OrEmpty(r.trailers)) <= Indices(r.span.indices) - HeaderSpans(r.headers) - BodySpan(r.body)
  }

  // ----- What stays closed

  /** A request header's value is opened only when it is the first header of one of the names. */
  ghost predicate OpenedFirst(headers: seq<Header>, k: nat)
    requires k < |headers|
  {
    exists name :: name in OPENED && FirstOfName(headers, k, name)
  }

  ghost function ValueIndices(headers: seq<Header>, closed: set<nat>): set<nat> {
    set k, x | k in closed && 0 <= k < |headers| && x in Indices(headers[k].value.indices) :: x
  }

  /** The headers of a request whose values stay closed. */
  ghost function ClosedRequestHeaders(headers: seq<Header>): set<nat> {
    set k | 0 <= k < |headers| && !OpenedFirst(headers, k)
  }

  ghost function ClosedInRequest(headers: seq<Header>): set<nat> {
    ValueIndices(headers, ClosedRequestHeaders(headers))
  }

  /** The headers of a response whose values stay closed. */
  ghost function ClosedResponseHeaders(headers: seq<Header>): set<nat> {
    set k | 0 <= k < |headers| && !OpenedName(headers[k].name.data)
  }

  ghost function ClosedInResponse(headers: seq<Header>): set<nat> {
    ValueIndices(headers, ClosedResponseHeaders(headers))
  }

  /** The bytes of a JSON body that its structure does not open: its leaves, and whatever follows its root. */
  ghost function ClosedInBody(body: Option<Body>): set<nat> {
    if body.Some? && body.value.content.Json? then
      var v := body.value.content.value;
      if v.Container() then BodySpan(body) - Indices(v.span.indices) + LeafIndices(v) else BodySpan(body)
    else {}
  }

  /** By name: which header values a request opens. */
  lemma OpenedInRequest(headers: seq<Header>, k: nat)
    requires k < |headers|
    ensures OpenedFirst(headers, k) <==>
      || FirstNamed(headers, k, "host") || FirstNamed(headers, k, "content-length")
      || FirstNamed(headers, k, "content-type") || FirstNamed(headers, k, "transfer-encoding")
  {
    hide FirstOfName, FirstNamed, Ascii;
    FirstNamedMeans(headers, k, "host");
    FirstNamedMeans(headers, k, "content-length");
    FirstNamedMeans(headers, k, "content-type");
    FirstNamedMeans(headers, k, "transfer-encoding");
    assert HOST in OPENED && CONTENT_LENGTH in OPENED && CONTENT_TYPE in OPENED && TRANSFER_ENCODING in OPENED;
    if OpenedFirst(headers, k) {
      var name :| name in OPENED && FirstOfName(headers, k, name);
      assert name == HOST || name == CONTENT_LENGTH || name == CONTENT_TYPE || name == TRANSFER_ENCODING;
    }
  }

  /** By name: which header values a response opens. */
  lemma OpenedInResponse(name: seq<byte>)
    ensures OpenedName(name) <==>
      || SpelledAnyCase(name, "host") || SpelledAnyCase(name, "content-length")
      || SpelledAnyCase(name, "content-type") || SpelledAnyCase(name, "transfer-encoding")
  {
    hide SameName, SpelledAnyCase, Ascii;
    SameNameMeans(name, "host");
    SameNameMeans(name, "content-length");
    SameNameMeans(name, "content-type");
    SameNameMeans(name, "transfer-encoding");
  }

  // ----- Proofs

  lemma {:induction false} HeaderAt(headers: seq<Header>, region: set<nat>, k: nat)
    requires HeadersNested(headers, region) && k < |headers|
    ensures Indices(headers[k].value.indices) <= Indices(headers[k].span.indices) <= region
    ensures Indices(headers[k].span.indices) <= HeaderSpans(headers)
  {
    if k > 0 { HeaderAt(headers[1..], region, k - 1); }
  }

  lemma {:induction false} HeadersApart(headers: seq<Header>, region: set<nat>, j: nat, k: nat)
    requires HeadersNested(headers, region) && j < k < |headers|
    ensures Indices(headers[j].span.indices) !! Indices(headers[k].span.indices)
  {
    if j > 0 {
      HeadersApart(headers[1..], region, j - 1, k - 1);
    } else {
      HeaderAt(headers[1..], region, k - 1);
    }
  }

  lemma {:induction false} HeaderSpansMembership(headers: seq<Header>, x: nat)
    ensures x in HeaderSpans(headers) <==> exists k :: 0 <= k < |headers| && x in Indices(headers[k].span.indices)
  {
    if headers != [] {
      HeaderSpansMembership(headers[1..], x);
      if x in HeaderSpans(headers[1..]) {
        var k :| 0 <= k < |headers[1..]| && x in Indices(headers[1..][k].span.indices);
        assert headers[k + 1] == headers[1..][k];
      }
      if k :| 0 <= k < |headers| && x in Indices(headers[k].span.indices) && k != 0 {
        assert headers[1..][k - 1] == headers[k];
      }
    }
  }

  lemma {:induction false} CoveredMembership(steps: seq<Step>, x: nat)
    ensures x in Covered(steps) <==> exists k :: 0 <= k < |steps| && x in StepIndices(steps[k])
  {
    if steps != [] {
      CoveredMembership(steps[1..], x);
      if x in Covered(steps[1..]) {
        var k :| 0 <= k < |steps[1..]| && x in StepIndices(steps[1..][k]);
        assert steps[k + 1] == steps[1..][k];
      }
      if k :| 0 <= k < |steps| && x in StepIndices(steps[k]) && k != 0 {
        assert steps[1..][k - 1] == steps[k];
      }
    }
  }

  lemma {:induction false} WithoutValueStepsAre(headers: seq<Header>)
    ensures |WithoutValueSteps(headers)| == |headers|
    ensures forall k :: 0 <= k < |headers| ==> WithoutValueSteps(headers)[k] == Set(M.WithoutValue(headers[k]))
  {
    if headers != [] { WithoutValueStepsAre(headers[1..]); }
  }

  lemma {:induction false} ResponseHeaderStepsAre(headers: seq<Header>)
    ensures |ResponseHeaderSteps(headers)| == |headers|
    ensures forall k :: 0 <= k < |headers| ==> ResponseHeaderSteps(headers)[k] == ResponseHeaderStep(headers[k])
  {
    hide ResponseHeaderStep;
    if headers != [] { ResponseHeaderStepsAre(headers[1..]); }
  }

  lemma {:induction false} NamedStepsCover(headers: seq<Header>, names: seq<seq<byte>>, x: nat)
    ensures x in Covered(NamedSteps(headers, names)) <==>
      exists k, name ::
        0 <= k < |headers| && name in names && FirstOfName(headers, k, name) && x in Indices(headers[k].span.indices)
  {
    hide FirstOfName, HeadersWithName;
    if names != [] {
      var found := HeadersWithName(headers, names[0]);
      var one := if found == [] then [] else [Set(found[0].span.indices)];
      CoveredConcat(one, NamedSteps(headers, names[1..]));
      NamedStepsCover(headers, names[1..], x);
      if found != [] {
        CoveredOne(found[0].span.indices);
        var k := WithNameIsFirst(headers, names[0]);
        FirstWithName(headers, names[0], k);
      }
      assert names == [names[0]] + names[1..];
      if k, name :|
        && 0 <= k < |headers| && name in names && FirstOfName(headers, k, name)
        && x in Indices(headers[k].span.indices)
      {
        if name == names[0] { FirstWithName(headers, name, k); }
      }
    }
  }

  /** Everything of the headers is committed but the values that stay closed. */
  lemma RequestHeadersCovered(headers: seq<Header>, region: set<nat>)
    requires HeadersNested(headers, region)
    ensures Covered(WithoutValueSteps(headers)) + Covered(NamedSteps(headers, OPENED))
       == HeaderSpans(headers) - ClosedInRequest(headers)
  {
    hide HeadersNested, FirstOfName, NamedSteps, WithoutValueSteps, HeaderSpans, Covered, OPENED;
    var committed := Covered(WithoutValueSteps(headers)) + Covered(NamedSteps(headers, OPENED));
    WithoutValueStepsAre(headers);
    forall x ensures x in committed <==> x in HeaderSpans(headers) - ClosedInRequest(headers) {
      CoveredMembership(WithoutValueSteps(headers), x);
      NamedStepsCover(headers, OPENED, x);
      HeaderSpansMembership(headers, x);
      if x in HeaderSpans(headers) {
        var k :| 0 <= k < |headers| && x in Indices(headers[k].span.indices);
        HeaderIndexIsClosed(headers, region, k, x);
        assert StepIndices(WithoutValueSteps(headers)[k])
            == Indices(headers[k].span.indices) - Indices(headers[k].value.indices);
      }
    }
  }

  /** An index in a header is in the value of no other. */
  lemma HeaderIndexIsClosed(headers: seq<Header>, region: set<nat>, k: nat, x: nat)
    requires HeadersNested(headers, region) && k < |headers| && x in Indices(headers[k].span.indices)
    ensures forall j :: 0 <= j < |headers| && x in Indices(headers[j].span.indices) ==> j == k
    ensures forall j :: 0 <= j < |headers| && x in Indices(headers[j].value.indices) ==> j == k
  {
    hide HeadersNested;
    forall j | 0 <= j < |headers| && (x in Indices(headers[j].span.indices) || x in Indices(headers[j].value.indices))
      ensures j == k
    {
      HeaderAt(headers, region, j);
      if j < k { HeadersApart(headers, region, j, k); }
      if k < j { HeadersApart(headers, region, k, j); }
    }
  }

  lemma ResponseHeadersCovered(headers: seq<Header>, region: set<nat>)
    requires HeadersNested(headers, region)
    ensures Covered(ResponseHeaderSteps(headers)) == HeaderSpans(headers) - ClosedInResponse(headers)
  {
    hide HeadersNested, OpenedName, ResponseHeaderSteps, HeaderSpans, Covered;
    ResponseHeaderStepsAre(headers);
    forall x
      ensures x in Covered(ResponseHeaderSteps(headers)) <==> x in HeaderSpans(headers) - ClosedInResponse(headers)
    {
      CoveredMembership(ResponseHeaderSteps(headers), x);
      HeaderSpansMembership(headers, x);
      if x in HeaderSpans(headers) {
        var k :| 0 <= k < |headers| && x in Indices(headers[k].span.indices);
        HeaderIndexIsClosed(headers, region, k, x);
        assert x in StepIndices(ResponseHeaderSteps(headers)[k]) || x in Indices(headers[k].value.indices);
      }
    }
  }

  lemma BodyCovered(body: Option<Body>)
    requires BodyNested(body)
    ensures Covered(BodySteps(body)) == BodySpan(body) - ClosedInBody(body)
  {
    hide StructureSteps, LeafIndices;
    if body.Some? {
      match body.value.content
      case Json(v) =>
        if v.Container() {
          StructurePartition(v);
        } else {
          LeafHasNoStructure(v);
        }
      case Unknown(span) => CoveredOne(span.indices);
    }
  }

  lemma LeafHasNoStructure(v: JsonValue)
    requires !v.Container()
    ensures StructureSteps(v) == []
  {
  }

  lemma HeadersInRegion(headers: seq<Header>, region: set<nat>)
    requires HeadersNested(headers, region)
    ensures HeaderSpans(headers) <= region
    ensures ClosedInRequest(headers) <= HeaderSpans(headers) && ClosedInResponse(headers) <= HeaderSpans(headers)
  {
    hide HeadersNested, HeaderSpans, OpenedFirst, OpenedName;
    forall x | x in HeaderSpans(headers) ensures x in region {
      HeaderSpansMembership(headers, x);
      var k :| 0 <= k < |headers| && x in Indices(headers[k].span.indices);
      HeaderAt(headers, region, k);
    }
    forall k | 0 <= k < |headers| ensures Indices(headers[k].value.indices) <= HeaderSpans(headers) {
      HeaderAt(headers, region, k);
    }
  }

  /**
   A request opens all of its span but: the values of headers that are not the first of their name among
   host, content-length, content-type and transfer-encoding, and what its JSON body keeps closed.
   */
  lemma RequestStructureIsExact(r: Request)
    requires RequestNested(r)
    ensures Covered(RequestSteps(r)) == Indices(r.span.indices) - ClosedInRequest(r.headers) - ClosedInBody(r.body)
  {
    hide Covered, HeadersNested, BodyNested, ClosedInRequest, ClosedInResponse, ClosedInBody, HeaderSpans, BodySpan,
         WithoutValueSteps, NamedSteps, BodySteps, RequestFrame;
    var whole, target := Indices(r.span.indices), Indices(r.line.target.indices);
    var region := whole - target - BodySpan(r.body);
    RequestHeadersCovered(r.headers, region);
    var kept := Covered(WithoutValueSteps(r.headers)) + Covered(NamedSteps(r.headers, OPENED));
    assert kept == HeaderSpans(r.headers) - ClosedInRequest(r.headers);
    HeadersInRegion(r.headers, region);
    BodyCovered(r.body);
    ClosedInBodySpan(r.body);
    RequestStepsCover(r);
    assert Covered(RequestSteps(r)) == Indices(RequestFrame(r)) + target + kept + Covered(BodySteps(r.body));
    SetsAddUp(whole, target, HeaderSpans(r.headers), ClosedInRequest(r.headers), BodySpan(r.body),
              ClosedInBody(r.body));
  }

  lemma SetsAddUp(whole: set<nat>, target: set<nat>, headers: set<nat>, closed: set<nat>, body: set<nat>,
                  closedBody: set<nat>)
    requires target <= whole && body <= whole - target && headers <= whole - target - body
    requires closed <= headers && closedBody <= body
    ensures (whole - target - headers - body) + target + (headers - closed) + (body - closedBody)
       == whole - closed - closedBody
  {
  }

  lemma ClosedInBodySpan(body: Option<Body>)
    requires BodyNested(body)
    ensures ClosedInBody(body) <= BodySpan(body)
  {
    hide Hidden;
    if body.Some? && body.value.content.Json? {
      HiddenInSpan(body.value.content.value, {});
    }
  }

  lemma RequestStepsCover(r: Request)
    ensures Covered(RequestSteps(r)) ==
      Indices(RequestFrame(r)) + Indices(r.line.target.indices) + Covered(WithoutValueSteps(r.headers))
      + Covered(NamedSteps(r.headers, OPENED)) + Covered(BodySteps(r.body))
  {
    hide Covered, WithoutValueSteps, NamedSteps, BodySteps, RequestFrame;
    var a, b, c := WithoutValueSteps(r.headers), NamedSteps(r.headers, OPENED), BodySteps(r.body);
    CoveredConcat(b, c);
    CoveredConcat(a, b + c);
    CoveredConcat([Set(r.line.target.indices)], a + (b + c));
    CoveredConcat([Set(RequestFrame(r))], [Set(r.line.target.indices)] + (a + (b + c)));
    CoveredOne(RequestFrame(r));
    CoveredOne(r.line.target.indices);
  }

  lemma ResponseStepsCover(r: Response)
    ensures Covered(ResponseSteps(r)) ==
      Indices(ResponseFrame(r)) + Covered(ResponseHeaderSteps(r.headers)) + Covered(BodySteps(r.body))
      + Covered(SpanSteps(OrEmpty(r.boundaries))) + Covered(WithoutValueSteps(OrEmpty(r.trailers)))
  {
    hide Covered, WithoutValueSteps, ResponseHeaderSteps, BodySteps, SpanSteps, ResponseFrame;
    var a, b := ResponseHeaderSteps(r.headers), BodySteps(r.body);
    var c, d := SpanSteps(OrEmpty(r.boundaries)), WithoutValueSteps(OrEmpty(r.trailers));
    CoveredConcat(c, d);
    CoveredConcat(b, c + d);
    CoveredConcat(a, b + (c + d));
    CoveredConcat([Set(ResponseFrame(r))], a + (b + (c + d)));
    CoveredOne(ResponseFrame(r));
  }

  lemma {:induction false} WithoutValueInside(headers: seq<Header>)
    ensures Covered(WithoutValueSteps(headers)) <= HeaderSpans(headers)
  {
    if headers != [] {
      WithoutValueInside(headers[1..]);
      CoveredConcat([Set(M.WithoutValue(headers[0]))], WithoutValueSteps(headers[1..]));
      CoveredOne(M.WithoutValue(headers[0]));
    }
  }

  /**
   A response opens all of its span but the values of headers with other names and what its JSON body
   keeps closed. Chunk boundaries and trailers are opened already by what `without_data` leaves over.
   */
  lemma ResponseStructureIsExact(r: Response)
    requires ResponseNested(r)
    ensures Covered(ResponseSteps(r)) == Indices(r.span.indices) - ClosedInResponse(r.headers) - ClosedInBody(r.body)
    ensures Covered(SpanSteps(OrEmpty(r.boundaries))) + Covered(WithoutValueSteps(OrEmpty(r.trailers)))
         <= Indices(ResponseFrame(r))
  {
    hide Covered, HeadersNested, BodyNested, ClosedInRequest, ClosedInResponse, ClosedInBody, HeaderSpans, BodySpan,
         WithoutValueSteps, ResponseHeaderSteps, BodySteps, ResponseFrame, SpanSteps, OrEmpty;
    var region := Indices(r.span.indices) - BodySpan(r.body);
    ResponseHeadersCovered(r.headers, region);
    HeadersInRegion(r.headers, region);
    BodyCovered(r.body);
    ClosedInBodySpan(r.body);
    WithoutValueInside(OrEmpty(r.trailers));
    ResponseStepsCover(r);
  }

  lemma {:induction false} CoveredByRequests(requests: seq<Request>, x: nat)
    ensures x in Covered(RequestsSteps(requests))
       <==> exists k :: 0 <= k < |requests| && x in Covered(RequestSteps(requests[k]))
  {
    hide RequestSteps, Covered;
    if requests == [] {
      CoveredMembership([], x);
    } else {
      CoveredConcat(RequestSteps(requests[0]), RequestsSteps(requests[1..]));
      CoveredByRequests(requests[1..], x);
      assert forall k :: 1 <= k < |requests| ==> requests[k] == requests[1..][k - 1];
      if x in Covered(RequestsSteps(requests[1..])) {
        var k :| 0 <= k < |requests[1..]| && x in Covered(RequestSteps(requests[1..][k]));
        assert requests[k + 1] == requests[1..][k];
      }
    }
  }

  lemma {:induction false} CoveredByResponses(responses: seq<Response>, x: nat)
    ensures x in Covered(ResponsesSteps(responses))
       <==> exists k :: 0 <= k < |responses| && x in Covered(ResponseSteps(responses[k]))
  {
    hide ResponseSteps, Covered;
    if responses == [] {
      CoveredMembership([], x);
    } else {
      CoveredConcat(ResponseSteps(responses[0]), ResponsesSteps(responses[1..]));
      CoveredByResponses(responses[1..], x);
      assert forall k :: 1 <= k < |responses| ==> responses[k] == responses[1..][k - 1];
      if x in Covered(ResponsesSteps(responses[1..])) {
        var k :| 0 <= k < |responses[1..]| && x in Covered(ResponseSteps(responses[1..][k]));
        assert responses[k + 1] == responses[1..][k];
      }
    }
  }

  /** Over all requests: a byte of a request is opened exactly when that request does not keep it closed. */
  lemma AllRequestsAreExact(requests: seq<Request>, k: nat, x: nat)
    requires forall j :: 0 <= j < |requests| ==> RequestNested(requests[j])
    requires forall i, j :: 0 <= i < j < |requests| ==>
      Indices(requests[i].span.indices) !! Indices(requests[j].span.indices)
    requires k < |requests| && x in Indices(requests[k].span.indices)
    ensures x in Covered(RequestsSteps(requests))
       <==> x !in ClosedInRequest(requests[k].headers) + ClosedInBody(requests[k].body)
  {
    hide RequestNested, RequestSteps, RequestsSteps, Covered, ClosedInRequest, ClosedInBody;
    CoveredByRequests(requests, x);
    forall j | 0 <= j < |requests|
      ensures x in Covered(RequestSteps(requests[j])) <==>
        j == k && x !in ClosedInRequest(requests[k].headers) + ClosedInBody(requests[k].body)
    {
      RequestStructureIsExact(requests[j]);
      if j < k { assert Indices(requests[j].span.indices) !! Indices(requests[k].span.indices); }
      if k < j { assert Indices(requests[k].span.indices) !! Indices(requests[j].span.indices); }
    }
  }

  /** Over all responses likewise. */
  lemma AllResponsesAreExact(responses: seq<Response>, k: nat, x: nat)
    requires forall j :: 0 <= j < |responses| ==> ResponseNested(responses[j])
    requires forall i, j :: 0 <= i < j < |responses| ==>
      Indices(responses[i].span.indices) !! Indices(responses[j].span.indices)
    requires k < |responses| && x in Indices(responses[k].span.indices)
    ensures x in Covered(ResponsesSteps(responses))
       <==> x !in ClosedInResponse(responses[k].headers) + ClosedInBody(responses[k].body)
  {
    hide ResponseNested, ResponseSteps, ResponsesSteps, Covered, ClosedInResponse, ClosedInBody;
    CoveredByResponses(responses, x);
    forall j | 0 <= j < |responses|
      ensures x in Covered(ResponseSteps(responses[j])) <==>
        j == k && x !in ClosedInResponse(responses[k].headers) + ClosedInBody(responses[k].body)
    {
      ResponseStructureIsExact(responses[j]);
      if j < k { assert Indices(responses[j].span.indices) !! Indices(responses[k].span.indices); }
      if k < j { assert Indices(responses[k].span.indices) !! Indices(responses[j].span.indices); }
    }
  }

  // ----- The committer

  ghost predicate BodyTreeNested(body: Option<Body>) {
    body.Some? && body.value.content.Json? ==> WellNested(body.value.content.value)
  }

  /** The loop that commits every header without its value. */
  method CommitWithoutValues(builder: CommitmentBuilder, headers: seq<Header>,
                             direction: Direction) returns (outcome: Outcome)
    modifies builder
    ensures (builder.commits, outcome)
       == After(old(builder.commits), WithoutValueSteps(headers), builder.accepts, direction)
  {
    hide After;
    ghost var goal := After(builder.commits, WithoutValueSteps(headers), builder.accepts, direction);
    outcome := Committed;
    assert headers[0..] == headers;
    for k := 0 to |headers|
      invariant outcome.Committed?
      invariant goal == After(builder.commits, WithoutValueSteps(headers[k..]), builder.accepts, direction)
    {
      assert headers[k..][1..] == headers[k + 1..];
      outcome := CommitNext(builder, M.WithoutValue(headers[k]), direction, WithoutValueSteps(headers[k + 1..]));
      if outcome != Committed { return; }
    }
    assert headers[|headers|..] == [];
    NothingLeft(builder.commits, builder.accepts, direction);
  }

  /** The loop over the four names. */
  method CommitNamed(builder: CommitmentBuilder, headers: seq<Header>, direction: Direction) returns (outcome: Outcome)
    modifies builder
    ensures (builder.commits, outcome)
       == After(old(builder.commits), NamedSteps(headers, OPENED), builder.accepts, direction)
  {
    hide After, HeadersWithName, OPENED;
    var names := OPENED;
    ghost var goal := After(builder.commits, NamedSteps(headers, names), builder.accepts, direction);
    outcome := Committed;
    assert names[0..] == names;
    for k := 0 to |names|
      invariant outcome.Committed?
      invariant goal == After(builder.commits, NamedSteps(headers, names[k..]), builder.accepts, direction)
    {
      assert names[k..][1..] == names[k + 1..];
      var found := HeadersWithName(headers, names[k]);
      ghost var rest := NamedSteps(headers, names[k + 1..]);
      assert [] + rest == rest;
      if found != [] {
        outcome := CommitNext(builder, found[0].span.indices, direction, rest);
        if outcome != Committed { return; }
      }
    }
    assert names[|names|..] == [];
    NothingLeft(builder.commits, builder.accepts, direction);
  }

  method CommitBody(builder: CommitmentBuilder, body: Option<Body>, direction: Direction) returns (outcome: Outcome)
    requires BodyTreeNested(body)
    modifies builder
    ensures (builder.commits, outcome) == After(old(builder.commits), BodySteps(body), builder.accepts, direction)
  {
    hide StructureSteps, WellNested, After;
    NothingLeft(builder.commits, builder.accepts, direction);
    if body.None? { return Committed; }
    match body.value.content
    case Json(v) => outcome := CommitStructure(builder, direction, v);
    case Unknown(span) => outcome := CommitSpan(builder, span, direction);
  }

  /** One pass of the loop over requests. */
  method CommitRequest(builder: CommitmentBuilder, r: Request) returns (outcome: Outcome)
    requires BodyTreeNested(r.body)
    modifies builder
    ensures (builder.commits, outcome) == After(old(builder.commits), RequestSteps(r), builder.accepts, Sent)
  {
    hide After, WithoutValueSteps, NamedSteps, BodySteps, RequestFrame, BodyTreeNested;
    var frame := RequestWithoutData(r);
    ghost var headers, named, body := WithoutValueSteps(r.headers), NamedSteps(r.headers, OPENED), BodySteps(r.body);
    outcome := CommitNext(builder, frame, Sent, [Set(r.line.target.indices)] + (headers + (named + body)));
    if outcome != Committed { return; }
    outcome := CommitNext(builder, r.line.target.indices, Sent, headers + (named + body));
    if outcome != Committed { return; }
    AfterSteps(builder.commits, headers, named + body, builder.accepts, Sent);
    outcome := CommitWithoutValues(builder, r.headers, Sent);
    if outcome != Committed { return; }
    AfterSteps(builder.commits, named, body, builder.accepts, Sent);
    outcome := CommitNamed(builder, r.headers, Sent);
    if outcome != Committed { return; }
    outcome := CommitBody(builder, r.body, Sent);
  }

  /** The loop over a response's headers. */
  method CommitResponseHeaders(builder: CommitmentBuilder, headers: seq<Header>) returns (outcome: Outcome)
    modifies builder
    ensures (builder.commits, outcome)
       == After(old(builder.commits), ResponseHeaderSteps(headers), builder.accepts, Received)
  {
    hide After, OpenedName;
    ghost var goal := After(builder.commits, ResponseHeaderSteps(headers), builder.accepts, Received);
    outcome := Committed;
    assert headers[0..] == headers;
    for k := 0 to |headers|
      invariant outcome.Committed?
      invariant goal == After(builder.commits, ResponseHeaderSteps(headers[k..]), builder.accepts, Received)
    {
      assert headers[k..][1..] == headers[k + 1..];
      ghost var rest := ResponseHeaderSteps(headers[k + 1..]);
      if OpenedName(headers[k].name.data) {
        outcome := CommitNext(builder, headers[k].span.indices, Received, rest);
      } else {
        outcome := CommitNext(builder, M.WithoutValue(headers[k]), Received, rest);
      }
      if outcome != Committed { return; }
    }
    assert headers[|headers|..] == [];
    NothingLeft(builder.commits, builder.accepts, Received);
  }

  /** The loop over the chunk boundaries. */
  method CommitSpans(builder: CommitmentBuilder, spans: seq<Span>) returns (outcome: Outcome)
    modifies builder
    ensures (builder.commits, outcome) == After(old(builder.commits), SpanSteps(spans), builder.accepts, Received)
  {
    hide After;
    ghost var goal := After(builder.commits, SpanSteps(spans), builder.accepts, Received);
    outcome := Committed;
    assert spans[0..] == spans;
    for k := 0 to |spans|
      invariant outcome.Committed?
      invariant goal == After(builder.commits, SpanSteps(spans[k..]), builder.accepts, Received)
    {
      assert spans[k..][1..] == spans[k + 1..];
      outcome := CommitNext(builder, spans[k].indices, Received, SpanSteps(spans[k + 1..]));
      if outcome != Committed { return; }
    }
    assert spans[|spans|..] == [];
    NothingLeft(builder.commits, builder.accepts, Received);
  }

  /** One pass of the loop over responses. */
  method CommitResponse(builder: CommitmentBuilder, r: Response) returns (outcome: Outcome)
    requires BodyTreeNested(r.body)
    modifies builder
    ensures (builder.commits, outcome) == After(old(builder.commits), ResponseSteps(r), builder.accepts, Received)
  {
    hide After, WithoutValueSteps, ResponseHeaderSteps, SpanSteps, BodySteps, ResponseFrame, BodyTreeNested;
    var frame := ResponseWithoutData(r);
    ghost var headers, body := ResponseHeaderSteps(r.headers), BodySteps(r.body);
    ghost var boundaries, trailers := SpanSteps(OrEmpty(r.boundaries)), WithoutValueSteps(OrEmpty(r.trailers));
    outcome := CommitNext(builder, frame, Received, headers + (body + (boundaries + trailers)));
    if outcome != Committed { return; }
    AfterSteps(builder.commits, headers, body + (boundaries + trailers), builder.accepts, Received);
    outcome := CommitResponseHeaders(builder, r.headers);
    if outcome != Committed { return; }
    AfterSteps(builder.commits, body, boundaries + trailers, builder.accepts, Received);
    outcome := CommitBody(builder, r.body, Received);
    if outcome != Committed { return; }
    AfterSteps(builder.commits, boundaries, trailers, builder.accepts, Received);
    outcome := CommitSpans(builder, OrEmpty(r.boundaries));
    if outcome != Committed { return; }
    outcome := CommitWithoutValues(builder, OrEmpty(r.trailers), Received);
  }
}
