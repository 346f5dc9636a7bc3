/** The records the mock provider service passes between its mappers, handlers and
    repository: the transport-level request and response, the pact-level request
    and response, interactions, handled requests, comparison failures and the
    exceptions a handler can raise. */
module Models {
  import opened Text

  type Byte = bv8

  datatype HttpVerb = NotSet | Get | Post | Put | Delete | Head | Patch | Options

  /** A body as the body-content mapper decodes it (JSON tree, text or bytes);
      its structure is not looked into by the modelled code. */
  datatype DynamicBody = DynamicBody(repr: string)

  /** Result of the body-content mapper for a response: the text to write and
      the media type to announce. */
  datatype HttpBodyContent = HttpBodyContent(content: string, mediaType: string)

  /** `ProviderServiceRequest`: the pact-level view of a request. Nullable
      properties are `Option`s. */
  datatype ProviderServiceRequest = ProviderServiceRequest(
    verb: HttpVerb,
    path: Option<string>,
    query: Option<string>,
    headers: Option<map<string, string>>,
    body: Option<DynamicBody>)

  /** `ProviderServiceResponse`; its header dictionary keeps insertion order. */
  datatype ProviderServiceResponse = ProviderServiceResponse(
    status: int,
    headers: Option<seq<(string, string)>>,
    body: Option<DynamicBody>)

  /** A registered interaction. It is a class so that `==` is reference identity,
      the comparison the verifier uses; its properties never change. A null
      description or provider state reads as the empty string, the only way
      the modelled code uses them. */
  class Interaction {
    const description: string
    const providerState: string
    const request: Option<ProviderServiceRequest>
    const response: Option<ProviderServiceResponse>

    constructor (description: string, providerState: string,
                 request: Option<ProviderServiceRequest>, response: Option<ProviderServiceResponse>)
      ensures this.description == description && this.providerState == providerState
      ensures this.request == request && this.response == response
    {
      this.description := description;
      this.providerState := providerState;
      this.request := request;
      this.response := response;
    }
  }

  /** One intercepted request and the interaction it matched (`null` when none did). */
  datatype HandledRequest = HandledRequest(actual: ProviderServiceRequest, matched: Interaction?)

  /** The failure leaves of a `ComparisonResult`. */
  datatype Failure =
    | Diff(expected: Option<string>, actual: Option<string>)
    | MissingInteraction(interaction: Interaction)
    | UnexpectedRequest(request: ProviderServiceRequest)
    | ErrorMessage(text: string)

  datatype ComparisonResult = ComparisonResult(summary: string, failures: seq<Failure>)
  {
    predicate HasFailure() { failures != [] }
  }

  /** The exceptions that leave a handler; the middleware tells only
      `PactFailureException` apart from the rest. */
  datatype Exception =
    | PactFailureException(message: string)
    | ArgumentException(message: string)
    | DirectoryNotFoundException(message: string)
    | NullReferenceException(message: string)
    | OtherException(message: string)

  /** The outcome of a collaborator call that may throw. */
  datatype Attempt<T> = Done(value: T) | Threw(error: Exception)

  /** A readable stream with a position, as the request body is. */
  class ByteStream {
    var data: seq<Byte>
    var position: nat

    ghost predicate Valid()
      reads this
    {
      position <= |data|
    }

    /** What a read from the current position to the end yields. */
    function Remaining(): seq<Byte>
      reads this
      requires Valid()
    {
      data[position..]
    }

    constructor (data: seq<Byte>)
      ensures Valid() && this.data == data && position == 0
    {
      this.data := data;
      position := 0;
    }

    /** `Stream.CopyTo` into a fresh buffer: everything from the current position
        on, leaving the position at the end. */
    method ReadToEnd() returns (bytes: seq<Byte>)
      requires Valid()
      modifies this
      ensures Valid() && data == old(data)
      ensures bytes == old(Remaining())
      ensures Remaining() == []
    {
      bytes := data[position..];
      position := |data|;
    }
  }

  /** The transport-level request: the raw method (`httpMethod`), path and query string (`""`
      when absent, otherwise starting with `?`), headers by name with their values
      in arrival order, and the body stream. */
  datatype HttpRequest = HttpRequest(
    httpMethod: string,
    path: string,
    queryString: string,
    headers: map<string, seq<string>>,
    body: ByteStream?)

  /** The objects a request's body stream contributes to a frame. */
  function BodyFootprint(request: HttpRequest): set<object> {
    if request.body == null then {} else {request.body}
  }

  ghost predicate BodyValid(request: HttpRequest)
    reads BodyFootprint(request)
  {
    request.body != null ==> request.body.Valid()
  }

  /** The bytes a read of the body would yield, `None` for a null stream. */
  function BodyBytes(request: HttpRequest): Option<seq<Byte>>
    reads BodyFootprint(request)
    requires BodyValid(request)
  {
    if request.body == null then None else Some(request.body.Remaining())
  }

  /** Everything observable about a transport-level response. */
  datatype ResponseState = ResponseState(
    statusCode: int,
    reasonPhrase: Option<string>,
    headers: seq<(string, string)>,
    contentType: Option<string>,
    body: string)

  /** The state `HttpResponse.Clear` leaves: status 200, nothing else set. */
  const ClearedResponse := ResponseState(200, None, [], None, "")

  class HttpResponse {
    var statusCode: int
    var reasonPhrase: Option<string>
    var headers: seq<(string, string)>
    var contentType: Option<string>
    var body: string

    function State(): ResponseState
      reads this
    {
      ResponseState(statusCode, reasonPhrase, headers, contentType, body)
    }

    constructor ()
      ensures State() == ClearedResponse
    {
      statusCode := 200;
      reasonPhrase := None;
      headers := [];
      contentType := None;
      body := "";
    }

    method Clear()
      modifies this
      ensures State() == ClearedResponse
    {
      statusCode := 200;
      reasonPhrase := None;
      headers := [];
      contentType := None;
      body := "";
    }

    /** `WriteAsync`: appends to what was written before. */
    method Write(text: string)
      modifies this
      ensures State() == old(State()).(body := old(body) + text)
    {
      body := body + text;
    }
  }

  class HttpContext {
    const request: HttpRequest
    const response: HttpResponse

    constructor (request: HttpRequest, response: HttpResponse)
      ensures this.request == request && this.response == response
    {
      this.request := request;
      this.response := response;
    }
  }
}
