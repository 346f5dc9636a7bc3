/** `MockProviderRepository`: the state a running mock provider shares between its
    request handler and its admin handler. Its implementation is not part of this
    model; the class below keeps the four properties and the operations the
    handlers call, with the behaviour the handlers rely on. Finding the
    interaction that matches a request (the request and body comparers) is an
    outside collaborator, held as `lookup`. */
module Repository {
  import opened Text
  import opened Models

  /** What the lookup of a matching test-scoped interaction gives: the
      interaction, or the exception it throws when none matches. */
  datatype LookupResult = Found(interaction: Interaction) | NotFound(error: Exception)

  class MockProviderRepository {
    /** The interactions registered by the current test. */
    var testScopedInteractions: seq<Interaction>
    /** Every interaction registered since start-up: what the pact file holds. */
    var interactions: seq<Interaction>
    /** Every request the mock provider intercepted, in arrival order. */
    var handledRequests: seq<HandledRequest>
    var testContext: Option<string>
    const lookup: (seq<Interaction>, ProviderServiceRequest) -> LookupResult

    /** A test-scoped interaction is always one of the interactions. */
    ghost predicate Valid()
      reads this
    {
      forall i :: i in testScopedInteractions ==> i in interactions
    }

    constructor (lookup: (seq<Interaction>, ProviderServiceRequest) -> LookupResult)
      ensures Valid() && this.lookup == lookup
      ensures testScopedInteractions == [] && interactions == [] && handledRequests == []
      ensures testContext == None
    {
      this.lookup := lookup;
      testScopedInteractions := [];
      interactions := [];
      handledRequests := [];
      testContext := None;
    }

    /** Forgets the current test's interactions and the requests it made.
      * The interactions kept for the pact file stay. What the clear does to
      * the test context is not stated: the repository's own implementation
      * is not part of this model, and callers may assume nothing about it. */
    method ClearTestScopedState()
      requires Valid()
      modifies this
      ensures Valid()
      ensures testScopedInteractions == [] && handledRequests == []
      ensures interactions == old(interactions)
    {
      testScopedInteractions := [];
      handledRequests := [];
    }

    method AddInteraction(interaction: Interaction)
      requires Valid()
      modifies this
      ensures Valid()
      ensures testScopedInteractions == old(testScopedInteractions) + [interaction]
      ensures interactions == old(interactions) + [interaction]
      ensures handledRequests == old(handledRequests) && testContext == old(testContext)
    {
      testScopedInteractions := testScopedInteractions + [interaction];
      interactions := interactions + [interaction];
    }

    /** Appends to the log of handled requests; never fails. */
    method AddHandledRequest(handled: HandledRequest)
      requires Valid()
      modifies this
      ensures Valid()
      ensures handledRequests == old(handledRequests) + [handled]
      ensures testScopedInteractions == old(testScopedInteractions)
      ensures interactions == old(interactions) && testContext == old(testContext)
    {
      handledRequests := handledRequests + [handled];
    }

    method GetMatchingTestScopedInteraction(request: ProviderServiceRequest) returns (r: LookupResult)
      ensures r == lookup(testScopedInteractions, request)
    {
      r := lookup(testScopedInteractions, request);
    }
  }
}
