/** `PactMiddleware`: the entry point of the mock provider's HTTP pipeline. A
    request carrying the administrative header goes to the admin handler, any
    other to the request handler; an exception either throws becomes a 500
    response whose reason phrase and body carry the escaped message. */
module PactMiddleware {
  import opened Text
  import opened Models
  import opened Repository
  import opened AdminRequestHandler
  import opened RequestHandler
  import opened JsonString

  /** `IsAdminRequest`: some header is named exactly `adminHeaderKey`. A request
      without headers is held as one with an empty header map. */
  predicate IsAdminRequest(request: HttpRequest, adminHeaderKey: string) {
    adminHeaderKey in request.headers
  }

  /** The message text inside the JSON literal: the literal with exactly its two
      delimiting quotes removed. */
  function ExceptionMessageText(message: string): (r: string)
    ensures Quote(message) == ['"'] + r + ['"']
    ensures Unescape(r) == Some(message)
    ensures forall k :: 0 <= k < |r| ==> r[k] >= ' '
  {
    var literal := Quote(message);
    EscapeRoundTrip(message);
    EscapePrintable(message);
    assert literal[1..|literal| - 1] == Escape(message);
    literal[1..|literal| - 1]
  }

  /** The message text as line 80 of the middleware computes it:
      `Trim('"')` removes every quote at either end of the literal, not only
      the delimiters. */
  function ExceptionMessageTextAsWritten(message: string): string {
    Trim(Quote(message), '"')
  }

  /** Where the error text sends the reader: the resolved log path of a named
      logger, otherwise "logs". */
  function LogLocation(loggerName: Option<string>, resolveLogPath: string -> string): string {
    if !IsNullOrEmpty(loggerName) then resolveLogPath(loggerName.value) else "logs"
  }

  function ErrorText(message: string, location: string): string {
    ExceptionMessageText(message) + " See " + location + " for details."
  }

  /** The error text starts with the escaped message, which decodes back to the
      message, and holds no control character unless the location does. */
  lemma ErrorTextDecodes(message: string, location: string)
    ensures var r := ErrorText(message, location);
      var n := |r| - |" See " + location + " for details."|;
      0 <= n && Unescape(r[..n]) == Some(message)
    ensures (forall k :: 0 <= k < |location| ==> location[k] >= ' ') ==>
      forall k :: 0 <= k < |ErrorText(message, location)| ==> ErrorText(message, location)[k] >= ' '
  {
    var m := ExceptionMessageText(message);
    var r := ErrorText(message, location);
    assert r[..|m|] == m;
  }

  lemma TrimQuotedLiteral(message: string)
    ensures message == [] || message[|message| - 1] != '"' ==>
      ExceptionMessageTextAsWritten(message) == Escape(message)
    ensures message != [] && message[|message| - 1] == '"' ==>
      var e := Escape(message);
      |e| >= 2 && ExceptionMessageTextAsWritten(message) == e[..|e| - 1]
  {
    var e := Escape(message);
    assert Quote(message) == ['"'] + e + ['"'];
    EscapeEnd(message);
    if message == [] || message[|message| - 1] != '"' {
      TrimDelimited(e, '"');
    } else {
      TrimDelimitedEndingWith(e, '"');
    }
  }

  /** As written, the text is the intended one exactly when the message does not
      end with a quote. */
  lemma AsWrittenAgreesUnlessTrailingQuote(message: string)
    ensures ExceptionMessageTextAsWritten(message) == ExceptionMessageText(message) <==>
      message == [] || message[|message| - 1] != '"'
  {
    TrimQuotedLiteral(message);
    assert ExceptionMessageText(message) == Escape(message);
  }

  /** As written, a message ending with a quote loses that quote and leaves a
      dangling backslash: the text no longer decodes at all. */
  lemma AsWrittenUndecodable(message: string)
    requires message != [] && message[|message| - 1] == '"'
    ensures Unescape(ExceptionMessageTextAsWritten(message)) == None
  {
    var front := message[..|message| - 1];
    AsWrittenDanglingBackslash(message);
    UnescapeEscapeAppend(front, ['\\']);
  }

  /** The quote that `Trim` removes is the second half of the escape `\"`. */
  lemma AsWrittenDanglingBackslash(message: string)
    requires message != [] && message[|message| - 1] == '"'
    ensures ExceptionMessageTextAsWritten(message) == Escape(message[..|message| - 1]) + ['\\']
  {
    var front := message[..|message| - 1];
    assert message == front + ['"'];
    EscapeAppend(front, '"');
    TrimQuotedLiteral(message);
    DropClosingQuote(Escape(front), Escape(message));
  }

  lemma DropClosingQuote(front: string, e: string)
    requires e == front + ['\\', '"']
    ensures e[..|e| - 1] == front + ['\\']
  {
    assert e[..|e| - 1] == (front + ['\\', '"'])[..|front| + 1];
  }

  lemma EscapeQuoted(a: string, b: string)
    requires forall k :: 0 <= k < |a| ==> Plain(a[k])
    requires forall k :: 0 <= k < |b| ==> Plain(b[k])
    ensures Escape(a + ['"'] + b + ['"']) == a + ['\\', '"'] + b + ['\\', '"']
  {
    var q := ['"'];
    assert Escape(q) == ['\\', '"'];
    assert Escape(a) == a by { EscapePlain(a); }
    assert Escape(b) == b by { EscapePlain(b); }
    assert Escape(a + q) == a + ['\\', '"'] by { EscapeConcat(a, q); }
    assert Escape(a + q + b) == a + ['\\', '"'] + b by { EscapeConcat(a + q, b); }
    EscapeConcat(a + q + b, q);
  }

  /** A message such as `Say "hi"` comes out as `Say \"hi\` instead of
      `Say \"hi\"`: the closing escaped quote loses its quote. */
  lemma AsWrittenDropsClosingQuote(a: string, b: string)
    requires forall k :: 0 <= k < |a| ==> Plain(a[k])
    requires forall k :: 0 <= k < |b| ==> Plain(b[k])
    ensures ExceptionMessageTextAsWritten(a + ['"'] + b + ['"']) == a + ['\\', '"'] + b + ['\\']
    ensures ExceptionMessageText(a + ['"'] + b + ['"']) == a + ['\\', '"'] + b + ['\\', '"']
  {
    var message := a + ['"'] + b + ['"'];
    EscapeQuoted(a, b);
    TrimQuotedLiteral(message);
    var e := Escape(message);
    assert e[..|e| - 1] == a + ['\\', '"'] + b + ['\\'];
  }

  lemma EscapeThree(a: string, b: string, c: string)
    ensures Escape(a + b + c) == Escape(a) + Escape(b) + Escape(c)
  {
    EscapeConcat(a, b);
    EscapeConcat(a + b, c);
  }

  /** A message with a line break, a tab and a backslash between plain text (as
      `Something\r\n \t \\ failed.`) keeps them as their two-character
      escapes, on one line, before the pointer to the logs. */
  lemma ErrorTextExample(head: string, tail: string, location: string)
    requires forall k :: 0 <= k < |head| ==> Plain(head[k])
    requires forall k :: 0 <= k < |tail| ==> Plain(tail[k])
    ensures ErrorText(head + "\r\n \t \\" + tail, location) ==
      head + "\\r\\n \\t \\\\" + tail + " See " + location + " for details."
  {
    var mid := "\r\n \t \\";
    EscapePlain(head);
    EscapePlain(tail);
    EscapeBreaksAndBackslash();
    EscapeThree(head, mid, tail);
    MessageTextIsEscape(head + mid + tail);
  }

  lemma EscapeBreaksAndBackslash()
    ensures Escape("\r\n \t \\") == "\\r\\n \\t \\\\"
  {
    assert Escape("\\") == "\\\\";
    assert Escape(" \\") == " \\\\";
    assert Escape("\t \\") == "\\t \\\\";
    assert Escape(" \t \\") == " \\t \\\\";
    assert Escape("\n \t \\") == "\\n \\t \\\\";
  }

  /** The message text is the escaped message. */
  lemma MessageTextIsEscape(message: string)
    ensures ExceptionMessageText(message) == Escape(message)
  {
    var r := ExceptionMessageText(message);
    assert ['"'] + r + ['"'] == ['"'] + Escape(message) + ['"'];
    assert r == (['"'] + r + ['"'])[1..|r| + 1];
  }

  class PactMiddleware {
    const requestHandler: MockProviderRequestHandler
    const adminRequestHandler: MockProviderAdminRequestHandler
    const adminHeaderKey: string
    const loggerName: Option<string>
    const resolveLogPath: string -> string
    /** The exceptions written to the log as errors. */
    ghost var loggedErrors: seq<Exception>

    constructor (requestHandler: MockProviderRequestHandler, adminRequestHandler: MockProviderAdminRequestHandler,
                 adminHeaderKey: string, loggerName: Option<string>, resolveLogPath: string -> string)
      ensures this.requestHandler == requestHandler && this.adminRequestHandler == adminRequestHandler
      ensures this.adminHeaderKey == adminHeaderKey && this.loggerName == loggerName
      ensures this.resolveLogPath == resolveLogPath
      ensures loggedErrors == []
    {
      this.requestHandler := requestHandler;
      this.adminRequestHandler := adminRequestHandler;
      this.adminHeaderKey := adminHeaderKey;
      this.loggerName := loggerName;
      this.resolveLogPath := resolveLogPath;
      loggedErrors := [];
    }

    /** The handler chosen by the administrative header handles the request, and
        only it; `thrown` is what that handler threw. */
    method Dispatch(context: HttpContext) returns (thrown: Option<Exception>)
      requires requestHandler.repository.Valid() && adminRequestHandler.repository.Valid()
      requires BodyValid(context.request)
      modifies requestHandler, adminRequestHandler, requestHandler.repository, adminRequestHandler.repository
      modifies adminRequestHandler.fileSystem, context.response, BodyFootprint(context.request)
      ensures IsAdminRequest(context.request, adminHeaderKey) ==>
        adminRequestHandler.calls == old(adminRequestHandler.calls) + 1 && requestHandler.calls == old(requestHandler.calls)
      ensures !IsAdminRequest(context.request, adminHeaderKey) ==>
        requestHandler.calls == old(requestHandler.calls) + 1 && adminRequestHandler.calls == old(adminRequestHandler.calls)
      ensures IsAdminRequest(context.request, adminHeaderKey) ==>
        adminRequestHandler.Handled(context.request, old(adminRequestHandler.BodyText(context.request)),
          old(adminRequestHandler.State()), adminRequestHandler.State(),
          old(context.response.State()), context.response.State(), thrown)
      ensures var actual := requestHandler.Actual(context.request, old(BodyBytes(context.request)));
        var found := requestHandler.repository.lookup(old(requestHandler.repository.testScopedInteractions), actual);
        !IsAdminRequest(context.request, adminHeaderKey) ==>
          requestHandler.repository.handledRequests ==
            old(requestHandler.repository.handledRequests) + [HandledRequest(actual, MatchedBy(found))] &&
          (found.NotFound? ==> thrown == Some(found.error) && context.response.State() == old(context.response.State())) &&
          (found.Found? ==>
            (context.response.State(), thrown) ==
              requestHandler.responseMapper.MapResponse(old(context.response.State()), found.interaction.response))
    {
      if IsAdminRequest(context.request, adminHeaderKey) {
        thrown := adminRequestHandler.Handle(context);
      } else {
        thrown := requestHandler.Handle(context);
      }
    }

    /** The catch block: the exception is logged unless it is a
        `PactFailureException`; the response gets status 500 and the error text
        as reason phrase, and the text is appended to its body. */
    method ReportFailure(response: HttpResponse, ex: Exception)
      modifies this, response
      ensures unchanged(requestHandler, adminRequestHandler, requestHandler.repository)
      ensures adminRequestHandler.State() == old(adminRequestHandler.State())
      ensures loggedErrors == old(loggedErrors) + (if ex.PactFailureException? then [] else [ex])
      ensures var text := ErrorText(ex.message, LogLocation(loggerName, resolveLogPath));
        response.State() == old(response.State()).(statusCode := 500, reasonPhrase := Some(text), body := old(response.body) + text)
    {
      if !ex.PactFailureException? {
        loggedErrors := loggedErrors + [ex];
      }
      var text := ErrorText(ex.message, LogLocation(loggerName, resolveLogPath));
      response.statusCode := 500;
      response.reasonPhrase := Some(text);
      response.Write(text);
    }

    /** `Invoke` on a context: the chosen handler runs, and whatever it throws
        is turned into the error response. `thrown` is what the handler threw
        and `handled` the response as the handler left it. */
    method InvokeOn(context: HttpContext) returns (ghost thrown: Option<Exception>, ghost handled: ResponseState)
      requires requestHandler.repository.Valid() && adminRequestHandler.repository.Valid()
      requires BodyValid(context.request)
      modifies this, requestHandler, adminRequestHandler, requestHandler.repository, adminRequestHandler.repository
      modifies adminRequestHandler.fileSystem, context.response, BodyFootprint(context.request)
      ensures IsAdminRequest(context.request, adminHeaderKey) ==>
        adminRequestHandler.calls == old(adminRequestHandler.calls) + 1 && requestHandler.calls == old(requestHandler.calls)
      ensures !IsAdminRequest(context.request, adminHeaderKey) ==>
        requestHandler.calls == old(requestHandler.calls) + 1 && adminRequestHandler.calls == old(adminRequestHandler.calls)
      ensures loggedErrors == old(loggedErrors) +
        (if thrown.Some? && !thrown.value.PactFailureException? then [thrown.value] else [])
      ensures thrown.None? ==> context.response.State() == handled
      ensures thrown.Some? ==>
        var text := ErrorText(thrown.value.message, LogLocation(loggerName, resolveLogPath));
        context.response.State() == handled.(statusCode := 500, reasonPhrase := Some(text), body := handled.body + text)
      ensures IsAdminRequest(context.request, adminHeaderKey) ==>
        adminRequestHandler.Handled(context.request, old(adminRequestHandler.BodyText(context.request)),
          old(adminRequestHandler.State()), adminRequestHandler.State(),
          old(context.response.State()), handled, thrown)
    {
      var caught := Dispatch(context);
      thrown, handled := caught, context.response.State();
      if caught.Some? {
        ReportFailure(context.response, caught.value);
      }
    }

    /** `Invoke`. A null context is refused; otherwise nothing leaves the
        middleware. `thrown` is what the chosen handler threw and `handled` the
        response as the handler left it: kept as it is when nothing was thrown,
        otherwise turned into a 500 carrying the error text. */
    method Invoke(context: HttpContext?)
      returns (error: Option<Exception>, ghost thrown: Option<Exception>, ghost handled: ResponseState)
      requires context != null ==>
        requestHandler.repository.Valid() && adminRequestHandler.repository.Valid() && BodyValid(context.request)
      modifies this, requestHandler, adminRequestHandler, requestHandler.repository, adminRequestHandler.repository
      modifies adminRequestHandler.fileSystem
      modifies if context == null then {} else {context.response} + BodyFootprint(context.request)
      ensures context == null ==> error == Some(ArgumentException("context is null")) && thrown.None?
      ensures context == null ==>
        requestHandler.calls == old(requestHandler.calls) && adminRequestHandler.calls == old(adminRequestHandler.calls)
      ensures context != null ==> error.None?
      ensures context != null && IsAdminRequest(context.request, adminHeaderKey) ==>
        adminRequestHandler.calls == old(adminRequestHandler.calls) + 1 && requestHandler.calls == old(requestHandler.calls)
      ensures context != null && !IsAdminRequest(context.request, adminHeaderKey) ==>
        requestHandler.calls == old(requestHandler.calls) + 1 && adminRequestHandler.calls == old(adminRequestHandler.calls)
      ensures loggedErrors == old(loggedErrors) +
        (if thrown.Some? && !thrown.value.PactFailureException? then [thrown.value] else [])
      ensures context != null && thrown.None? ==> context.response.State() == handled
      ensures context != null && thrown.Some? ==>
        var text := ErrorText(thrown.value.message, LogLocation(loggerName, resolveLogPath));
        context.response.State() == handled.(statusCode := 500, reasonPhrase := Some(text), body := handled.body + text)
      ensures context != null && IsAdminRequest(context.request, adminHeaderKey) ==>
        adminRequestHandler.Handled(context.request, old(adminRequestHandler.BodyText(context.request)),
          old(adminRequestHandler.State()), adminRequestHandler.State(),
          old(context.response.State()), handled, thrown)
    {
      if context == null {
        return Some(ArgumentException("context is null")), None, ClearedResponse;
      }
      thrown, handled := InvokeOn(context);
      error := None;
    }
  }
}
