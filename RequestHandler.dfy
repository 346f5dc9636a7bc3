/** `MockProviderRequestHandler`: serves a request made by the code under test.
    The request is mapped, the matching test-scoped interaction is looked up,
    the request is logged as handled (with the interaction, or with none when the
    lookup throws), and the interaction's response is written back. */
module RequestHandler {
  import opened Text
  import opened Models
  import opened Repository
  import opened RequestMapper
  import opened ResponseMapper
  import opened AdminRequestHandler

  /** The interaction a lookup result records in the log: `null` when it threw. */
  function MatchedBy(found: LookupResult): (m: Interaction?)
    ensures m == null <==> found.NotFound?
  {
    if found.Found? then found.interaction else null
  }

  class MockProviderRequestHandler {
    const requestMapper: ProviderServiceRequestMapper
    const responseMapper: HttpResponseMapper
    const repository: MockProviderRepository
    /** How many requests this handler was given. */
    ghost var calls: nat

    constructor (requestMapper: ProviderServiceRequestMapper, responseMapper: HttpResponseMapper,
                 repository: MockProviderRepository)
      ensures this.requestMapper == requestMapper && this.responseMapper == responseMapper
      ensures this.repository == repository && calls == 0
    {
      this.requestMapper := requestMapper;
      this.responseMapper := responseMapper;
      this.repository := repository;
      calls := 0;
    }

    /** The request as the mapper sees it. */
    function Actual(request: HttpRequest, bytes: Option<seq<Byte>>): ProviderServiceRequest {
      requestMapper.MapRequest(request, bytes)
    }

    /** `HandlePactRequest`. Exactly one handled request is logged, whatever the
        lookup does; the exception of a failed lookup is rethrown as it is and
        nothing is written; a found interaction's response is mapped onto the
        response. */
    method Handle(context: HttpContext) returns (error: Option<Exception>)
      requires repository.Valid() && BodyValid(context.request)
      modifies this, repository, context.response, BodyFootprint(context.request)
      ensures repository.Valid() && BodyValid(context.request)
      ensures calls == old(calls) + 1
      ensures var actual := Actual(context.request, old(BodyBytes(context.request)));
        var found := repository.lookup(old(repository.testScopedInteractions), actual);
        repository.handledRequests == old(repository.handledRequests) + [HandledRequest(actual, MatchedBy(found))] &&
        (found.NotFound? ==> error == Some(found.error) && context.response.State() == old(context.response.State())) &&
        (found.Found? ==>
          (context.response.State(), error) == responseMapper.MapResponse(old(context.response.State()), found.interaction.response))
      ensures repository.testScopedInteractions == old(repository.testScopedInteractions)
      ensures repository.interactions == old(repository.interactions)
      ensures repository.testContext == old(repository.testContext)
    {
      calls := calls + 1;
      var converted := requestMapper.Convert(Some(context.request));
      var actual := converted.value;
      var found := repository.GetMatchingTestScopedInteraction(actual);
      if found.NotFound? {
        repository.AddHandledRequest(HandledRequest(actual, null));
        return Some(found.error);
      }
      repository.AddHandledRequest(HandledRequest(actual, found.interaction));
      error := responseMapper.Convert(context.response, found.interaction.response);
    }
  }

  /** A request no test-scoped interaction matches is reported by the next
      verification as unexpected. */
  lemma UnmatchedRequestFailsVerification(registered: seq<Interaction>, handled: seq<HandledRequest>,
                                          actual: ProviderServiceRequest)
    ensures UnexpectedRequest(actual) in VerificationFailures(registered, handled + [HandledRequest(actual, null)])
  {
    var after := handled + [HandledRequest(actual, null)];
    UnexpectedRequestFailuresAreUnexpected(after);
    assert after[|handled|] == HandledRequest(actual, null);
  }

  /** A matched request adds one use to its interaction and none to any other. */
  lemma MatchedRequestCountsOnce(handled: seq<HandledRequest>, actual: ProviderServiceRequest,
                                 matched: Interaction, other: Interaction)
    requires other != matched
    ensures UsageCount(handled + [HandledRequest(actual, matched)], matched) == UsageCount(handled, matched) + 1
    ensures UsageCount(handled + [HandledRequest(actual, matched)], other) == UsageCount(handled, other)
  {
    var after := handled + [HandledRequest(actual, matched)];
    assert after[..|after| - 1] == handled;
  }
}
