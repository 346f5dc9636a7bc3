/** `MockProviderAdminRequestHandler`: the administrative protocol a consumer test
    drives (clear the interactions, register one, verify the requests the mock
    provider saw, write the pact file), together with the capture of the test
    context carried by the first admin request. */
module AdminRequestHandler {
  import opened Text
  import opened Models
  import opened Repository

  const InteractionsPath := "/interactions"
  const InteractionsVerificationPath := "/interactions/verification"
  const PactPath := "/pact"

  const TextPlain := "text/plain"
  const ApplicationJson := "application/json"

  // ---------------------------------------------------------------------------
  // Routing

  datatype AdminAction =
    | DeleteInteractions
    | PostInteractions
    | GetInteractionsVerification
    | PostPact
    | NoAdminAction

  /** The four admin actions, chosen by the method and the path, both compared
      ignoring case (the path as `PathString` equality compares); the first
      matching branch wins. */
  function Route(httpMethod: string, path: string): AdminAction {
    if EqualsIgnoreCase(httpMethod, "DELETE") && EqualsIgnoreCase(path, InteractionsPath) then DeleteInteractions
    else if EqualsIgnoreCase(httpMethod, "POST") && EqualsIgnoreCase(path, InteractionsPath) then PostInteractions
    else if EqualsIgnoreCase(httpMethod, "GET") && EqualsIgnoreCase(path, InteractionsVerificationPath) then GetInteractionsVerification
    else if EqualsIgnoreCase(httpMethod, "POST") && EqualsIgnoreCase(path, PactPath) then PostPact
    else NoAdminAction
  }

  /** Each action is chosen exactly when its method and its path match: the
      branches never overlap. */
  lemma RouteChoice(httpMethod: string, path: string)
    ensures var a := Route(httpMethod, path);
      (a == DeleteInteractions <==> EqualsIgnoreCase(httpMethod, "DELETE") && EqualsIgnoreCase(path, InteractionsPath)) &&
      (a == PostInteractions <==> EqualsIgnoreCase(httpMethod, "POST") && EqualsIgnoreCase(path, InteractionsPath)) &&
      (a == GetInteractionsVerification <==>
        EqualsIgnoreCase(httpMethod, "GET") && EqualsIgnoreCase(path, InteractionsVerificationPath)) &&
      (a == PostPact <==> EqualsIgnoreCase(httpMethod, "POST") && EqualsIgnoreCase(path, PactPath))
  {
    UpperLiteral();
  }

  lemma UpperLiteral()
    ensures Upper("DELETE") == "DELETE" && Upper("POST") == "POST" && Upper("GET") == "GET"
  {
    assert Upper("DELETE") == "DELETE" by { assert forall i :: 0 <= i < 6 ==> Upper("DELETE")[i] == "DELETE"[i]; }
    assert Upper("POST") == "POST" by { assert forall i :: 0 <= i < 4 ==> Upper("POST")[i] == "POST"[i]; }
    assert Upper("GET") == "GET" by { assert forall i :: 0 <= i < 3 ==> Upper("GET")[i] == "GET"[i]; }
  }

  /** The method's case never changes the route: "delete" routes as "DELETE". */
  lemma RouteIgnoresMethodCase(httpMethod: string, path: string)
    ensures Route(httpMethod, path) == Route(Upper(httpMethod), path)
  {
    UpperIdempotent(httpMethod);
  }

  /** The path's case never changes the route: "/Interactions" routes as
      "/interactions". */
  lemma RouteIgnoresPathCase(httpMethod: string, path: string)
    ensures Route(httpMethod, path) == Route(httpMethod, Upper(path))
  {
    UpperIdempotent(path);
  }

  /** Anything but the four method and path pairs is not an admin action. */
  lemma RouteOtherwiseNotFound(httpMethod: string, path: string)
    requires !EqualsIgnoreCase(path, InteractionsPath) && !EqualsIgnoreCase(path, InteractionsVerificationPath)
    requires !EqualsIgnoreCase(path, PactPath)
    ensures Route(httpMethod, path) == NoAdminAction
  {
  }

  function NotFoundMessage(httpMethod: string, path: string): string {
    "The " + httpMethod + " request for path " + path + ", does not have a matching mock provider admin action."
  }

  // ---------------------------------------------------------------------------
  // Test context

  datatype ContextCapture = KeepContext | SetContext(value: string) | CaptureFails(error: Exception)

  /** The test context an admin request sets on the repository: only when none is
      set yet and the request carries the test-context header, whose value list
      must hold exactly one value. */
  function CaptureTestContext(current: Option<string>, headers: map<string, seq<string>>, key: string)
    : (c: ContextCapture)
    ensures !IsNullOrEmpty(current) ==> c == KeepContext
    ensures key !in headers ==> c == KeepContext
    ensures c.SetContext? <==> IsNullOrEmpty(current) && key in headers && |headers[key]| == 1
    ensures c.SetContext? ==> headers[key] == [c.value]
  {
    if IsNullOrEmpty(current) && key in headers then
      var values := headers[key];
      if |values| == 1 then SetContext(values[0])
      else if values == [] then CaptureFails(OtherException("Sequence contains no elements"))
      else CaptureFails(OtherException("Sequence contains more than one element"))
    else KeepContext
  }

  function ContextAfter(current: Option<string>, c: ContextCapture): Option<string> {
    if c.SetContext? then Some(c.value) else current
  }

  /** A test context that is set is never overwritten by a later capture. */
  lemma TestContextSetOnce(current: Option<string>, headers: map<string, seq<string>>, key: string)
    requires IsNullOrEmpty(current)
    requires key in headers && |headers[key]| == 1
    ensures var first := ContextAfter(current, CaptureTestContext(current, headers, key));
      first == Some(headers[key][0]) &&
      (first.value != [] ==>
        forall later: map<string, seq<string>> :: ContextAfter(first, CaptureTestContext(first, later, key)) == first)
  {
  }

  // ---------------------------------------------------------------------------
  // Verification

  /** How many handled requests matched `interaction`, compared by identity. */
  function UsageCount(handled: seq<HandledRequest>, interaction: Interaction): (n: nat)
    ensures n <= |handled|
  {
    if handled == [] then 0
    else UsageCount(handled[..|handled| - 1], interaction) + (if handled[|handled| - 1].matched == interaction then 1 else 0)
  }

  function MatchingIndices(handled: seq<HandledRequest>, interaction: Interaction): set<nat> {
    set j: nat | j < |handled| && handled[j].matched == interaction
  }

  /** The usage count is the number of positions of the log that reference the
      interaction. */
  lemma {:induction false} UsageCountIsIndexCount(handled: seq<HandledRequest>, interaction: Interaction)
    ensures UsageCount(handled, interaction) == |MatchingIndices(handled, interaction)|
  {
    if handled != [] {
      var n := |handled| - 1;
      var front := handled[..n];
      UsageCountIsIndexCount(front, interaction);
      if handled[n].matched == interaction {
        assert MatchingIndices(handled, interaction) == MatchingIndices(front, interaction) + {n};
      } else {
        assert MatchingIndices(handled, interaction) == MatchingIndices(front, interaction);
      }
    }
  }

  /** An interaction was unused exactly when no handled request references it. */
  lemma UsageCountZero(handled: seq<HandledRequest>, interaction: Interaction)
    ensures UsageCount(handled, interaction) == 0 <==> forall j :: 0 <= j < |handled| ==> handled[j].matched != interaction
  {
    UsageCountIsIndexCount(handled, interaction);
    if exists j :: 0 <= j < |handled| && handled[j].matched == interaction {
      var j :| 0 <= j < |handled| && handled[j].matched == interaction;
      assert j in MatchingIndices(handled, interaction);
    }
  }

  function UsedMessage(interaction: Interaction, count: nat): string {
    "The interaction with description '" + interaction.description + "' and provider state '" +
    interaction.providerState + "', was used " + NatToString(count) + " time/s by the test."
  }

  const NoInteractionsMessage := "No interactions were registered, however the mock provider service was called."

  /** The failure one registered interaction contributes. */
  function InteractionFailure(interaction: Interaction, handled: seq<HandledRequest>): seq<Failure> {
    var n := UsageCount(handled, interaction);
    if n == 0 then [MissingInteraction(interaction)]
    else if n > 1 then [ErrorMessage(UsedMessage(interaction, n))]
    else []
  }

  /** The failures of the registered interactions, in registration order. */
  function InteractionFailures(registered: seq<Interaction>, handled: seq<HandledRequest>): seq<Failure> {
    if registered == [] then []
    else InteractionFailures(registered[..|registered| - 1], handled) + InteractionFailure(registered[|registered| - 1], handled)
  }

  /** One unexpected-request failure per unmatched handled request, in arrival order. */
  function UnexpectedRequestFailures(handled: seq<HandledRequest>): seq<Failure> {
    if handled == [] then []
    else
      var last := handled[|handled| - 1];
      UnexpectedRequestFailures(handled[..|handled| - 1]) + (if last.matched == null then [UnexpectedRequest(last.actual)] else [])
  }

  /** Everything verification records, in the order it records it. */
  function VerificationFailures(registered: seq<Interaction>, handled: seq<HandledRequest>): (r: seq<Failure>)
    ensures forall k :: 0 <= k < |r| ==> !r[k].Diff?
  {
    InteractionFailuresNoDiff(registered, handled);
    UnexpectedRequestFailuresAreUnexpected(handled);
    InteractionFailures(registered, handled) + UnexpectedRequestFailures(handled) +
    (if registered == [] && handled != [] then [ErrorMessage(NoInteractionsMessage)] else [])
  }

  lemma {:induction false} InteractionFailuresNoDiff(registered: seq<Interaction>, handled: seq<HandledRequest>)
    ensures forall k :: 0 <= k < |InteractionFailures(registered, handled)| ==>
      !InteractionFailures(registered, handled)[k].Diff? && !InteractionFailures(registered, handled)[k].UnexpectedRequest?
  {
    if registered != [] {
      InteractionFailuresNoDiff(registered[..|registered| - 1], handled);
    }
  }

  /** Unexpected-request failures: exactly one per unmatched handled request. */
  lemma {:induction false} UnexpectedRequestFailuresAreUnexpected(handled: seq<HandledRequest>)
    ensures forall k :: 0 <= k < |UnexpectedRequestFailures(handled)| ==> UnexpectedRequestFailures(handled)[k].UnexpectedRequest?
    ensures forall request :: UnexpectedRequest(request) in UnexpectedRequestFailures(handled) <==>
      exists j :: 0 <= j < |handled| && handled[j] == HandledRequest(request, null)
  {
    if handled != [] {
      var front := handled[..|handled| - 1];
      UnexpectedRequestFailuresAreUnexpected(front);
      forall request
        ensures UnexpectedRequest(request) in UnexpectedRequestFailures(handled) <==>
          exists j :: 0 <= j < |handled| && handled[j] == HandledRequest(request, null)
      {
        if exists j :: 0 <= j < |front| && front[j] == HandledRequest(request, null) {
          var j :| 0 <= j < |front| && front[j] == HandledRequest(request, null);
          assert handled[j] == HandledRequest(request, null);
        }
        if exists j :: 0 <= j < |handled| && handled[j] == HandledRequest(request, null) {
          var j :| 0 <= j < |handled| && handled[j] == HandledRequest(request, null);
          if j < |front| {
            assert front[j] == HandledRequest(request, null);
          }
        }
      }
    }
  }

  /** No unexpected-request failure exactly when every handled request matched. */
  lemma {:induction false} UnexpectedRequestFailuresEmpty(handled: seq<HandledRequest>)
    ensures UnexpectedRequestFailures(handled) == [] <==> forall j :: 0 <= j < |handled| ==> handled[j].matched != null
  {
    if handled != [] {
      var front, last := handled[..|handled| - 1], handled[|handled| - 1];
      UnexpectedRequestFailuresEmpty(front);
      assert (forall j :: 0 <= j < |handled| ==> handled[j].matched != null) <==>
        (forall j :: 0 <= j < |front| ==> front[j].matched != null) && last.matched != null by {
        assert forall j :: 0 <= j < |front| ==> front[j] == handled[j];
      }
    }
  }

  /** No interaction failure exactly when each registered interaction was used once. */
  lemma {:induction false} InteractionFailuresEmpty(registered: seq<Interaction>, handled: seq<HandledRequest>)
    ensures InteractionFailures(registered, handled) == [] <==>
      forall k :: 0 <= k < |registered| ==> UsageCount(handled, registered[k]) == 1
  {
    if registered != [] {
      var front := registered[..|registered| - 1];
      InteractionFailuresEmpty(front, handled);
      if InteractionFailures(registered, handled) == [] {
        forall k | 0 <= k < |registered|
          ensures UsageCount(handled, registered[k]) == 1
        {
          if k < |front| {
            assert registered[k] == front[k];
          }
        }
      }
    }
  }

  /** Verification passes exactly when every registered interaction was used
      once, every handled request matched one, and requests were only made when
      some interaction was registered. */
  lemma VerificationPasses(registered: seq<Interaction>, handled: seq<HandledRequest>)
    ensures VerificationFailures(registered, handled) == [] <==>
      (forall k :: 0 <= k < |registered| ==> UsageCount(handled, registered[k]) == 1) &&
      (forall j :: 0 <= j < |handled| ==> handled[j].matched != null) &&
      (registered == [] ==> handled == [])
  {
    InteractionFailuresEmpty(registered, handled);
    UnexpectedRequestFailuresEmpty(handled);
  }

  /** A missing-interaction failure is recorded exactly for the registered
      interactions that no handled request references. */
  lemma {:induction false} MissingInteractionIff(registered: seq<Interaction>, handled: seq<HandledRequest>, interaction: Interaction)
    ensures MissingInteraction(interaction) in InteractionFailures(registered, handled) <==>
      interaction in registered && UsageCount(handled, interaction) == 0
  {
    if registered != [] {
      var front := registered[..|registered| - 1];
      MissingInteractionIff(front, handled, interaction);
      assert registered == front + [registered[|registered| - 1]];
    }
  }

  /** A registered interaction used `n > 1` times is reported with its usage count. */
  lemma {:induction false} DuplicateUseReported(registered: seq<Interaction>, handled: seq<HandledRequest>, k: nat)
    requires k < |registered| && UsageCount(handled, registered[k]) > 1
    ensures ErrorMessage(UsedMessage(registered[k], UsageCount(handled, registered[k]))) in
      InteractionFailures(registered, handled)
    ensures ErrorMessage(UsedMessage(registered[k], UsageCount(handled, registered[k]))) in
      VerificationFailures(registered, handled)
  {
    var front := registered[..|registered| - 1];
    if k < |front| {
      assert registered[k] == front[k];
      DuplicateUseReported(front, handled, k);
    }
    assert InteractionFailures(registered, handled) <= VerificationFailures(registered, handled);
  }

  /** The unexpected-request failures follow every interaction failure, and the
      "no interactions" message, when recorded, comes last. */
  lemma VerificationOrder(registered: seq<Interaction>, handled: seq<HandledRequest>)
    ensures var r := VerificationFailures(registered, handled);
      var i := |InteractionFailures(registered, handled)|;
      var u := |UnexpectedRequestFailures(handled)|;
      (forall k :: 0 <= k < i ==> !r[k].UnexpectedRequest?) &&
      (forall k :: i <= k < i + u ==> r[k].UnexpectedRequest?) &&
      (registered == [] && handled != [] <==> |r| == i + u + 1) &&
      (|r| == i + u + 1 ==> r[|r| - 1] == ErrorMessage(NoInteractionsMessage))
  {
    InteractionFailuresNoDiff(registered, handled);
    UnexpectedRequestFailuresAreUnexpected(handled);
  }

  /** The handled requests whose matched interaction is `interaction`, counted. */
  method CountUsages(handled: seq<HandledRequest>, interaction: Interaction) returns (usages: nat)
    ensures usages == UsageCount(handled, interaction)
  {
    usages := 0;
    for j := 0 to |handled|
      invariant usages == UsageCount(handled[..j], interaction)
    {
      if handled[j].matched != null && handled[j].matched == interaction {
        usages := usages + 1;
      }
      assert handled[..j + 1][..j] == handled[..j];
    }
    assert handled[..|handled|] == handled;
  }

  lemma InteractionFailuresStep(registered: seq<Interaction>, handled: seq<HandledRequest>, k: nat)
    requires k < |registered|
    ensures InteractionFailures(registered[..k + 1], handled) ==
      InteractionFailures(registered[..k], handled) + InteractionFailure(registered[k], handled)
  {
    assert registered[..k + 1][..k] == registered[..k];
  }

  lemma UnexpectedRequestFailuresStep(handled: seq<HandledRequest>, j: nat)
    requires j < |handled|
    ensures UnexpectedRequestFailures(handled[..j + 1]) == UnexpectedRequestFailures(handled[..j]) +
      (if handled[j].matched == null then [UnexpectedRequest(handled[j].actual)] else [])
  {
    assert handled[..j + 1][..j] == handled[..j];
  }

  /** The collection of verification failures, loop for loop. */
  method CollectVerificationFailures(registered: seq<Interaction>, handled: seq<HandledRequest>)
    returns (failures: seq<Failure>)
    ensures failures == VerificationFailures(registered, handled)
  {
    failures := [];
    if |registered| > 0 {
      for k := 0 to |registered|
        invariant failures == InteractionFailures(registered[..k], handled)
      {
        var usages := CountUsages(handled, registered[k]);
        InteractionFailuresStep(registered, handled, k);
        if usages == 0 {
          failures := failures + [MissingInteraction(registered[k])];
        } else if usages > 1 {
          failures := failures + [ErrorMessage(UsedMessage(registered[k], usages))];
        }
      }
      assert registered[..|registered|] == registered;
    }
    for j := 0 to |handled|
      invariant failures == InteractionFailures(registered, handled) + UnexpectedRequestFailures(handled[..j])
    {
      UnexpectedRequestFailuresStep(handled, j);
      if handled[j].matched == null {
        failures := failures + [UnexpectedRequest(handled[j].actual)];
      }
    }
    assert handled[..|handled|] == handled;
    if |registered| == 0 && |handled| > 0 {
      failures := failures + [ErrorMessage(NoInteractionsMessage)];
    }
  }

  /** `HttpVerb.ToString().ToUpperInvariant()`. */
  function VerbName(verb: HttpVerb): string {
    match verb
    case NotSet => "NOTSET"
    case Get => "GET"
    case Post => "POST"
    case Put => "PUT"
    case Delete => "DELETE"
    case Head => "HEAD"
    case Patch => "PATCH"
    case Options => "OPTIONS"
  }

  /** How a failure names a request: its method and path, or "No Method No Path"
      for a missing request. */
  function DescribeRequest(request: Option<ProviderServiceRequest>): string {
    if request.None? then "No Method No Path"
    else VerbName(request.value.verb) + " " + (if request.value.path.Some? then request.value.path.value else "")
  }

  /** The text of a verification failure, which becomes the exception message. */
  function FailureText(f: Failure): string
    requires !f.Diff?
  {
    match f
    case MissingInteraction(i) =>
      "The interaction with description '" + i.description + "' and provider state '" + i.providerState +
      "', was not used by the test. Missing request " + DescribeRequest(i.request) + "."
    case UnexpectedRequest(request) =>
      "An unexpected request " + DescribeRequest(Some(request)) + " was seen by the mock provider service."
    case ErrorMessage(text) => text
  }

  /** What verification answers: nothing (a 200 follows) or the exception carrying
      the first failure's text. */
  function VerificationError(registered: seq<Interaction>, handled: seq<HandledRequest>): (e: Option<Exception>)
    ensures e.None? <==> VerificationFailures(registered, handled) == []
    ensures e.Some? ==> e.value.PactFailureException?
  {
    var failures := VerificationFailures(registered, handled);
    if failures == [] then None else Some(PactFailureException(FailureText(failures[0])))
  }

  /** One registered interaction matched by exactly one handled request passes. */
  lemma ExactlyOnceScenario(interaction: Interaction, request: ProviderServiceRequest)
    ensures VerificationError([interaction], [HandledRequest(request, interaction)]) == None
  {
    var handled := [HandledRequest(request, interaction)];
    assert handled[..0] == [];
    assert UsageCount(handled, interaction) == 1;
    assert [interaction][..0] == [];
    assert InteractionFailures([interaction], handled) == [];
    assert UnexpectedRequestFailures(handled) == [];
  }

  /** The same interaction matched twice fails, reporting two uses. */
  lemma DuplicateScenario(interaction: Interaction, first: ProviderServiceRequest, second: ProviderServiceRequest)
    ensures VerificationError([interaction], [HandledRequest(first, interaction), HandledRequest(second, interaction)]) ==
      Some(PactFailureException("The interaction with description '" + interaction.description + "' and provider state '" +
        interaction.providerState + "', was used 2 time/s by the test."))
  {
    var handled := [HandledRequest(first, interaction), HandledRequest(second, interaction)];
    assert handled[..1] == [HandledRequest(first, interaction)];
    assert handled[..1][..0] == [];
    assert UsageCount(handled[..1], interaction) == 1;
    assert UsageCount(handled, interaction) == 2;
    assert NatToString(2) == "2";
    assert [interaction][..0] == [];
    assert InteractionFailures([interaction], handled) == [ErrorMessage(UsedMessage(interaction, 2))];
    assert UnexpectedRequestFailures(handled[..1]) == [];
    assert UnexpectedRequestFailures(handled) == [];
    assert VerificationFailures([interaction], handled) == [ErrorMessage(UsedMessage(interaction, 2))];
    assert UsedMessage(interaction, 2) == "The interaction with description '" + interaction.description +
      "' and provider state '" + interaction.providerState + "', was used 2 time/s by the test.";
  }

  /** A handled request that matched nothing is reported by method and path. */
  lemma UnexpectedScenario(interaction: Interaction, matched: ProviderServiceRequest)
    ensures var tester := ProviderServiceRequest(Post, Some("/tester"), None, None, None);
      VerificationError([interaction], [HandledRequest(matched, interaction), HandledRequest(tester, null)]) ==
      Some(PactFailureException("An unexpected request " + "POST /tester" + " was seen by the mock provider service."))
  {
    var tester := ProviderServiceRequest(Post, Some("/tester"), None, None, None);
    var handled := [HandledRequest(matched, interaction), HandledRequest(tester, null)];
    assert handled[..1] == [HandledRequest(matched, interaction)];
    assert handled[..1][..0] == [];
    assert UsageCount(handled[..1], interaction) == 1;
    assert UsageCount(handled, interaction) == 1;
    assert [interaction][..0] == [];
    assert InteractionFailures([interaction], handled) == [];
    assert UnexpectedRequestFailures(handled[..1]) == [];
    assert UnexpectedRequestFailures(handled) == [UnexpectedRequest(tester)];
    assert VerificationFailures([interaction], handled) == [UnexpectedRequest(tester)];
    assert DescribeRequest(Some(tester)) == "POST /tester";
  }

  /** An interaction registered without any request being made is missing. */
  lemma MissingScenario(interaction: Interaction)
    requires interaction.description == "" && interaction.providerState == "" && interaction.request.None?
    ensures VerificationError([interaction], []) ==
      Some(PactFailureException("The interaction with description '" + "" + "' and provider state '" + "" +
        "', was not used by the test. Missing request " + "No Method No Path" + "."))
  {
    assert [interaction][..0] == [];
    assert InteractionFailures([interaction], []) == [MissingInteraction(interaction)];
    assert VerificationFailures([interaction], []) == [MissingInteraction(interaction)];
    assert DescribeRequest(interaction.request) == "No Method No Path";
  }

  /** Requests made while nothing was registered fail with the "no interactions"
      message after the unexpected requests. */
  lemma NothingRegisteredScenario(request: ProviderServiceRequest, stale: Interaction)
    ensures VerificationFailures([], [HandledRequest(request, stale)]) == [ErrorMessage(NoInteractionsMessage)]
    ensures VerificationFailures([], [HandledRequest(request, null)]) ==
      [UnexpectedRequest(request), ErrorMessage(NoInteractionsMessage)]
  {
    assert [HandledRequest(request, stale)][..0] == [];
    assert UnexpectedRequestFailures([HandledRequest(request, stale)]) == [];
    assert [HandledRequest(request, null)][..0] == [];
    assert UnexpectedRequestFailures([HandledRequest(request, null)]) == [UnexpectedRequest(request)];
  }

  // ---------------------------------------------------------------------------
  // Pact file

  /** The consumer and provider named by a POST /pact request. */
  datatype PactDetails = PactDetails(consumer: string, provider: string)

  /** `Path.Combine` with the `/` separator: an empty second part gives the first,
      a rooted second part or an empty first part wins, otherwise the parts are
      joined by exactly one separator. */
  function CombinePath(directory: string, fileName: string): (r: string)
    ensures fileName == [] ==> r == directory
    ensures fileName != [] && fileName[0] == '/' ==> r == fileName
    ensures directory == [] ==> r == fileName
    ensures |r| >= |fileName| && r[|r| - |fileName|..] == fileName
  {
    if fileName == [] then directory
    else if directory == [] || fileName[0] == '/' then fileName
    else if directory[|directory| - 1] == '/' then directory + fileName
    else directory + "/" + fileName
  }

  /** The file system the pact file is written to. Whether a write or a directory
      creation succeeds is outside the model: each takes the next outcome from
      `outcomes` (`None` is success) and succeeds once they run out. */
  class FileSystem {
    var outcomes: seq<Option<Exception>>
    /** Every write attempted, in order. */
    var writes: seq<(string, string)>
    var createdDirectories: seq<string>

    constructor (outcomes: seq<Option<Exception>>)
      ensures this.outcomes == outcomes && writes == [] && createdDirectories == []
    {
      this.outcomes := outcomes;
      writes := [];
      createdDirectories := [];
    }

    function NextOutcome(): Option<Exception>
      reads this
    {
      if outcomes == [] then None else outcomes[0]
    }

    method WriteAllText(path: string, text: string) returns (error: Option<Exception>)
      modifies this
      ensures error == old(NextOutcome())
      ensures outcomes == if old(outcomes) == [] then [] else old(outcomes[1..])
      ensures writes == old(writes) + [(path, text)]
      ensures createdDirectories == old(createdDirectories)
    {
      error := NextOutcome();
      if outcomes != [] {
        outcomes := outcomes[1..];
      }
      writes := writes + [(path, text)];
    }

    method CreateDirectory(path: string) returns (error: Option<Exception>)
      modifies this
      ensures error == old(NextOutcome())
      ensures outcomes == if old(outcomes) == [] then [] else old(outcomes[1..])
      ensures createdDirectories == old(createdDirectories) + (if error.None? then [path] else [])
      ensures writes == old(writes)
    {
      error := NextOutcome();
      if outcomes != [] {
        outcomes := outcomes[1..];
      }
      if error.None? {
        createdDirectories := createdDirectories + [path];
      }
    }
  }

  // ---------------------------------------------------------------------------
  // Responses

  /** What `GenerateResponse` leaves: a cleared response with the status, the
      content type and exactly the message as body. */
  function Generated(statusCode: int, message: string, contentType: string): ResponseState {
    ResponseState(statusCode, None, [], Some(contentType), message)
  }

  method GenerateResponse(response: HttpResponse, statusCode: int, message: string, contentType: string)
    modifies response
    ensures response.State() == Generated(statusCode, message, contentType)
  {
    response.Clear();
    response.statusCode := statusCode;
    response.contentType := Some(contentType);
    response.Write(message);
  }

  /** What a deserialised interaction carries. */
  datatype InteractionData = InteractionData(
    description: string,
    providerState: string,
    request: Option<ProviderServiceRequest>,
    response: Option<ProviderServiceResponse>)

  /** The message `StreamReader` throws for a null stream. */
  const NullStreamError := ArgumentException("Value cannot be null. (Parameter 'stream')")

  /** What logging the method of a registered interaction without a request
      throws, after the interaction is registered. */
  const NoRequestError := NullReferenceException("Object reference not set to an instance of an object.")

  class MockProviderAdminRequestHandler {
    const repository: MockProviderRepository
    const fileSystem: FileSystem
    const pactDir: string
    const testContextHeaderKey: string
    /** UTF-8 decoding of the request body. */
    const decodeUtf8: seq<Byte> -> string
    const deserializeInteraction: string -> Attempt<InteractionData>
    const deserializePactDetails: string -> Attempt<PactDetails>
    const pactFileName: PactDetails -> string
    /** The pact file's JSON for the given participants and interactions. */
    const serializePactFile: (PactDetails, seq<Interaction>) -> string
    /** How many requests this handler was given. */
    ghost var calls: nat

    constructor (repository: MockProviderRepository, fileSystem: FileSystem, pactDir: string,
                 testContextHeaderKey: string, decodeUtf8: seq<Byte> -> string,
                 deserializeInteraction: string -> Attempt<InteractionData>,
                 deserializePactDetails: string -> Attempt<PactDetails>,
                 pactFileName: PactDetails -> string,
                 serializePactFile: (PactDetails, seq<Interaction>) -> string)
      ensures this.repository == repository && this.fileSystem == fileSystem && this.pactDir == pactDir
      ensures this.testContextHeaderKey == testContextHeaderKey && this.decodeUtf8 == decodeUtf8
      ensures this.deserializeInteraction == deserializeInteraction
      ensures this.deserializePactDetails == deserializePactDetails
      ensures this.pactFileName == pactFileName && this.serializePactFile == serializePactFile
      ensures calls == 0
    {
      this.repository := repository;
      this.fileSystem := fileSystem;
      this.pactDir := pactDir;
      this.testContextHeaderKey := testContextHeaderKey;
      this.decodeUtf8 := decodeUtf8;
      this.deserializeInteraction := deserializeInteraction;
      this.deserializePactDetails := deserializePactDetails;
      this.pactFileName := pactFileName;
      this.serializePactFile := serializePactFile;
      calls := 0;
    }

    /** The text of a request body: its bytes from the current position, decoded. */
    function BodyText(request: HttpRequest): Attempt<string>
      reads BodyFootprint(request)
      requires BodyValid(request)
    {
      if request.body == null then Threw(NullStreamError) else Done(decodeUtf8(request.body.Remaining()))
    }

    method ReadContent(request: HttpRequest) returns (content: Attempt<string>)
      requires BodyValid(request)
      modifies BodyFootprint(request)
      ensures BodyValid(request)
      ensures content == old(BodyText(request))
    {
      if request.body == null {
        content := Threw(NullStreamError);
      } else {
        var bytes := request.body.ReadToEnd();
        content := Done(decodeUtf8(bytes));
      }
    }

    /** DELETE /interactions: clears the test-scoped state through the
      * repository, so the test context afterwards is whatever the clear
      * leaves, which is not stated. */
    method HandleDeleteInteractions(response: HttpResponse)
      requires repository.Valid()
      modifies repository, response
      ensures repository.Valid()
      ensures repository.testScopedInteractions == [] && repository.handledRequests == []
      ensures repository.interactions == old(repository.interactions)
      ensures response.State() == Generated(200, "Deleted interactions", TextPlain)
    {
      repository.ClearTestScopedState();
      GenerateResponse(response, 200, "Deleted interactions", TextPlain);
    }

    /** POST /interactions: registers the deserialised interaction as a new object. */
    method HandlePostInteractions(request: HttpRequest, response: HttpResponse) returns (error: Option<Exception>)
      requires repository.Valid() && BodyValid(request)
      modifies repository, response, BodyFootprint(request)
      ensures repository.Valid() && BodyValid(request)
      ensures repository.handledRequests == old(repository.handledRequests)
      ensures repository.testContext == old(repository.testContext)
      ensures var json := old(BodyText(request));
        var data := if json.Done? then deserializeInteraction(json.value) else Threw(json.error);
        if data.Threw? then
          error == Some(data.error) &&
          repository.testScopedInteractions == old(repository.testScopedInteractions) &&
          repository.interactions == old(repository.interactions) &&
          response.State() == old(response.State())
        else
          |repository.testScopedInteractions| == |old(repository.testScopedInteractions)| + 1 &&
          var added := repository.testScopedInteractions[|repository.testScopedInteractions| - 1];
          fresh(added) &&
          repository.testScopedInteractions == old(repository.testScopedInteractions) + [added] &&
          repository.interactions == old(repository.interactions) + [added] &&
          InteractionData(added.description, added.providerState, added.request, added.response) == data.value &&
          if data.value.request.None? then
            error == Some(NoRequestError) && response.State() == old(response.State())
          else
            error == None && response.State() == Generated(200, "Added interaction", TextPlain)
    {
      var json := ReadContent(request);
      if json.Threw? {
        return Some(json.error);
      }
      var data := deserializeInteraction(json.value);
      if data.Threw? {
        return Some(data.error);
      }
      var d := data.value;
      var interaction := new Interaction(d.description, d.providerState, d.request, d.response);
      repository.AddInteraction(interaction);
      if d.request.None? {
        return Some(NoRequestError);
      }
      GenerateResponse(response, 200, "Added interaction", TextPlain);
      error := None;
    }

    /** GET /interactions/verification. */
    method HandleGetInteractionsVerification(response: HttpResponse) returns (error: Option<Exception>)
      modifies response
      ensures error == VerificationError(repository.testScopedInteractions, repository.handledRequests)
      ensures error.None? ==> response.State() == Generated(200, "Interactions matched", TextPlain)
      ensures error.Some? ==> response.State() == old(response.State())
    {
      var failures := CollectVerificationFailures(repository.testScopedInteractions, repository.handledRequests);
      if failures == [] {
        GenerateResponse(response, 200, "Interactions matched", TextPlain);
        return None;
      }
      error := Some(PactFailureException(FailureText(failures[0])));
    }

    /** Writes the pact file, creating the directory and writing once more when
        the first write finds no directory; a failed creation ends it. */
    method WritePactFile(path: string, json: string) returns (error: Option<Exception>)
      modifies fileSystem
      ensures PactWriteEffect(path, json, pactDir, old(fileSystem.outcomes), old(fileSystem.writes),
        old(fileSystem.createdDirectories), fileSystem.writes, fileSystem.createdDirectories, error)
    {
      error := fileSystem.WriteAllText(path, json);
      if error.Some? && error.value.DirectoryNotFoundException? {
        error := fileSystem.CreateDirectory(pactDir);
        if error.None? {
          error := fileSystem.WriteAllText(path, json);
        }
      }
    }

    /** The participants POST /pact names, or why they cannot be read. */
    function PactRequest(json: Attempt<string>): Attempt<PactDetails> {
      if json.Done? then deserializePactDetails(json.value) else Threw(json.error)
    }

    /** What POST /pact leaves, given the body's text, the registered interactions,
        and the file system and response before and after. */
    predicate PostPactEffect(json: Attempt<string>, interactions: seq<Interaction>,
                             outcomes: seq<Option<Exception>>, writesBefore: seq<(string, string)>,
                             directoriesBefore: seq<string>, writesAfter: seq<(string, string)>,
                             directoriesAfter: seq<string>, responseBefore: ResponseState,
                             responseAfter: ResponseState, error: Option<Exception>)
    {
      var details := PactRequest(json);
      if details.Threw? then
        error == Some(details.error) && responseAfter == responseBefore &&
        writesAfter == writesBefore && directoriesAfter == directoriesBefore
      else
        var pact := serializePactFile(details.value, interactions);
        PactWriteEffect(CombinePath(pactDir, pactFileName(details.value)), pact, pactDir, outcomes,
          writesBefore, directoriesBefore, writesAfter, directoriesAfter, error) &&
        (error.None? ==> responseAfter == Generated(200, pact, ApplicationJson)) &&
        (error.Some? ==> responseAfter == responseBefore)
    }

    /** POST /pact: the pact file holds every interaction registered since start-up. */
    method HandlePostPact(request: HttpRequest, response: HttpResponse) returns (error: Option<Exception>)
      requires BodyValid(request)
      modifies fileSystem, response, BodyFootprint(request)
      ensures BodyValid(request)
      ensures PostPactEffect(old(BodyText(request)), repository.interactions, old(fileSystem.outcomes),
        old(fileSystem.writes), old(fileSystem.createdDirectories), fileSystem.writes,
        fileSystem.createdDirectories, old(response.State()), response.State(), error)
    {
      ghost var before := response.State();
      var json := ReadContent(request);
      assert response.State() == before;
      if json.Threw? {
        return Some(json.error);
      }
      var details := deserializePactDetails(json.value);
      if details.Threw? {
        return Some(details.error);
      }
      var path := CombinePath(pactDir, pactFileName(details.value));
      var pact := serializePactFile(details.value, repository.interactions);
      error := WritePactFile(path, pact);
      assert response.State() == before;
      if error.None? {
        GenerateResponse(response, 200, pact, ApplicationJson);
      }
      assert PactWriteEffect(path, pact, pactDir, old(fileSystem.outcomes), old(fileSystem.writes),
        old(fileSystem.createdDirectories), fileSystem.writes, fileSystem.createdDirectories, error);
      assert details == PactRequest(old(BodyText(request)));
    }

    /** What the admin handler's actions read and change. */
    function State(): AdminState
      reads repository, fileSystem
    {
      AdminState(repository.testContext, repository.testScopedInteractions, repository.interactions,
                 repository.handledRequests, fileSystem.outcomes, fileSystem.writes, fileSystem.createdDirectories)
    }

    /** What the action `route` leaves, given the request body's text: the state
        from `before` to `after`, the response from `responseBefore` to
        `responseAfter`, and the exception. Every route keeps what it does not
        name, except that the test context after `DELETE /interactions` is what
        the repository's clear leaves, which is not stated; `POST /interactions`
        is stated by its counts. */
    predicate Routed(route: AdminAction, request: HttpRequest, json: Attempt<string>, before: AdminState,
                     after: AdminState, responseBefore: ResponseState, responseAfter: ResponseState,
                     error: Option<Exception>)
    {
      (route.DeleteInteractions? || after.testContext == before.testContext) &&
      match route
      case DeleteInteractions =>
        error == None &&
        after == before.(testContext := after.testContext, testScopedInteractions := [], handledRequests := []) &&
        responseAfter == Generated(200, "Deleted interactions", TextPlain)
      case PostInteractions =>
        after.handledRequests == before.handledRequests && after.outcomes == before.outcomes &&
        after.writes == before.writes && after.createdDirectories == before.createdDirectories &&
        |after.interactions| <= |before.interactions| + 1 &&
        (error.None? ==> |after.interactions| == |before.interactions| + 1)
      case GetInteractionsVerification =>
        after == before && error == VerificationError(before.testScopedInteractions, before.handledRequests) &&
        (error.None? ==> responseAfter == Generated(200, "Interactions matched", TextPlain)) &&
        (error.Some? ==> responseAfter == responseBefore)
      case PostPact =>
        after.testScopedInteractions == before.testScopedInteractions &&
        after.interactions == before.interactions && after.handledRequests == before.handledRequests &&
        PostPactEffect(json, before.interactions, before.outcomes, before.writes, before.createdDirectories,
          after.writes, after.createdDirectories, responseBefore, responseAfter, error)
      case NoAdminAction =>
        error == None && after == before &&
        responseAfter == Generated(404, NotFoundMessage(request.httpMethod, request.path), TextPlain)
    }

    /** What `Handle` leaves: a failed context capture throws and changes nothing;
        otherwise the context is updated as captured and the routed action runs. */
    predicate Handled(request: HttpRequest, json: Attempt<string>, before: AdminState, after: AdminState,
                      responseBefore: ResponseState, responseAfter: ResponseState, error: Option<Exception>)
    {
      var capture := CaptureTestContext(before.testContext, request.headers, testContextHeaderKey);
      if capture.CaptureFails? then
        error == Some(capture.error) && after == before && responseAfter == responseBefore
      else
        Routed(Route(request.httpMethod, request.path), request, json,
          before.(testContext := ContextAfter(before.testContext, capture)), after,
          responseBefore, responseAfter, error)
    }

    /** Runs the action a request routes to. */
    method Dispatch(request: HttpRequest, response: HttpResponse, route: AdminAction) returns (error: Option<Exception>)
      requires route == Route(request.httpMethod, request.path)
      requires repository.Valid() && BodyValid(request)
      modifies repository, fileSystem, response, BodyFootprint(request)
      ensures repository.Valid() && BodyValid(request)
      ensures Routed(route, request, old(BodyText(request)), old(State()), State(),
        old(response.State()), response.State(), error)
    {
      match route {
        case DeleteInteractions =>
          HandleDeleteInteractions(response);
          error := None;
        case PostInteractions =>
          error := HandlePostInteractions(request, response);
        case GetInteractionsVerification =>
          error := HandleGetInteractionsVerification(response);
        case PostPact =>
          error := HandlePostPact(request, response);
        case NoAdminAction =>
          GenerateResponse(response, 404, NotFoundMessage(request.httpMethod, request.path), TextPlain);
          error := None;
      }
    }

    /** `Handle`: captures the test context, then runs the routed action. A
        failed capture throws before any action runs. */
    method Handle(context: HttpContext) returns (error: Option<Exception>)
      requires repository.Valid() && BodyValid(context.request)
      modifies this, repository, fileSystem, context.response, BodyFootprint(context.request)
      ensures repository.Valid() && BodyValid(context.request)
      ensures calls == old(calls) + 1
      ensures Handled(context.request, old(BodyText(context.request)), old(State()), State(),
        old(context.response.State()), context.response.State(), error)
    {
      calls := calls + 1;
      var request := context.request;
      ghost var before, text := State(), BodyText(request);
      var capture := CaptureTestContext(repository.testContext, request.headers, testContextHeaderKey);
      if capture.CaptureFails? {
        return Some(capture.error);
      }
      if capture.SetContext? {
        repository.testContext := Some(capture.value);
      }
      assert State() == before.(testContext := ContextAfter(before.testContext, capture));
      assert BodyText(request) == text;
      error := Dispatch(request, context.response, Route(request.httpMethod, request.path));
    }
  }

  /** The admin handler's state: the repository's four properties and the file
      system's script and record. */
  datatype AdminState = AdminState(
    testContext: Option<string>,
    testScopedInteractions: seq<Interaction>,
    interactions: seq<Interaction>,
    handledRequests: seq<HandledRequest>,
    outcomes: seq<Option<Exception>>,
    writes: seq<(string, string)>,
    createdDirectories: seq<string>)

  /** The `i`th scripted file-system outcome; success once they run out. */
  function OutcomeAt(outcomes: seq<Option<Exception>>, i: nat): Option<Exception> {
    if i < |outcomes| then outcomes[i] else None
  }

  /** The first write of the pact file finds no directory. */
  predicate FindsNoDirectory(outcomes: seq<Option<Exception>>) {
    OutcomeAt(outcomes, 0).Some? && OutcomeAt(outcomes, 0).value.DirectoryNotFoundException?
  }

  /** The first write finds no directory and creating it succeeds, so the file
      is written a second time. */
  predicate CreatesDirectory(outcomes: seq<Option<Exception>>) {
    FindsNoDirectory(outcomes) && OutcomeAt(outcomes, 1).None?
  }

  /** The error writing the pact file ends with: that of the first write, of the
      directory creation, or of the second write. */
  function PactWriteError(outcomes: seq<Option<Exception>>): Option<Exception> {
    if !FindsNoDirectory(outcomes) then OutcomeAt(outcomes, 0)
    else if !CreatesDirectory(outcomes) then OutcomeAt(outcomes, 1)
    else OutcomeAt(outcomes, 2)
  }

  /** Writing `text` to `path`, with `directory` created on the way when needed:
      the writes and created directories it appends and the error it ends with. */
  predicate PactWriteEffect(path: string, text: string, directory: string, outcomes: seq<Option<Exception>>,
                            writesBefore: seq<(string, string)>, directoriesBefore: seq<string>,
                            writesAfter: seq<(string, string)>, directoriesAfter: seq<string>,
                            error: Option<Exception>)
  {
    var twice := CreatesDirectory(outcomes);
    writesAfter == writesBefore + (if twice then [(path, text), (path, text)] else [(path, text)]) &&
    directoriesAfter == directoriesBefore + (if twice then [directory] else []) &&
    error == PactWriteError(outcomes)
  }

  /** The pact file is written at most twice, a second time only after the first
      write found no directory and the directory was created; every write is of
      the same text to the same path, and the handler succeeds only when the
      last write does. */
  lemma PactWriteRetriesOnce(path: string, text: string, directory: string, outcomes: seq<Option<Exception>>,
                             writesBefore: seq<(string, string)>, directoriesBefore: seq<string>,
                             writesAfter: seq<(string, string)>, directoriesAfter: seq<string>,
                             error: Option<Exception>)
    requires PactWriteEffect(path, text, directory, outcomes, writesBefore, directoriesBefore,
      writesAfter, directoriesAfter, error)
    ensures var added := writesAfter[|writesBefore|..];
      writesBefore <= writesAfter && 1 <= |added| <= 2 &&
      (forall i :: 0 <= i < |added| ==> added[i] == (path, text)) &&
      (|added| == 2 <==> FindsNoDirectory(outcomes) && OutcomeAt(outcomes, 1).None?) &&
      (|added| == 2 <==> directoriesAfter == directoriesBefore + [directory]) &&
      (|added| == 1 <==> directoriesAfter == directoriesBefore)
    ensures error == OutcomeAt(outcomes, |writesAfter| - |writesBefore| + (if FindsNoDirectory(outcomes) then 1 else 0) - 1)
  {
  }
}
