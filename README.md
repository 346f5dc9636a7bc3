# PactNet mock provider service, modelled in Dafny

This project models the core of the PactNet mock provider service: the HTTP
server a consumer test runs against in place of the real provider. The model
covers the following pieces.

- **`PactMiddleware`**: the pipeline entry point. A request that carries the
  administrative header goes to the admin handler, and any other request goes
  to the request handler. An exception either handler throws becomes a
  500 response. Its reason phrase and body both carry the exception message,
  JSON-escaped, followed by a pointer to the logs.
- **`MockProviderRequestHandler`**: serves a request from the code under test.
  1. The request is mapped to a pact request.
  2. The matching test-scoped interaction is looked up.
  3. The request is recorded as handled, matched or not.
  4. The interaction's response is written back.
- **`MockProviderAdminRequestHandler`**: the admin protocol a consumer test
  drives. `DELETE /interactions` clears the test's interactions and handled
  requests. `POST /interactions` registers an interaction.
  `GET /interactions/verification` checks that every registered interaction
  was used exactly once and that no unexpected request arrived.
  `POST /pact` writes the pact file. Anything else gets a 404. The first admin
  request that carries the test-context header sets the repository's test
  context.
- **`ProviderServiceRequestMapper`** and **`HttpResponseMapper`**: convert
  between the transport request and response and the pact-level request and
  response.
- **`HttpQueryStringComparer`**: the query-string part of request matching.
  Both query strings are normalised: lower-case `%xx` escapes are upper-cased
  and trailing `&` are trimmed. Then they are parsed into dictionaries whose
  keys compare ignoring case, and compared.

The modules follow the source files:

| module | file |
|---|---|
| `Text` | .NET string helpers: trims, ordinal ignore-case compare, upper-casing |
| `Models` | requests, responses, interactions, failures, exceptions |
| `Repository` | the state shared by the two handlers |
| `QueryStringComparer` | the query-string comparer |
| `RequestMapper` | the request mapper |
| `ResponseMapper` | the response mapper |
| `AdminRequestHandler` | the admin handler |
| `RequestHandler` | the request handler |
| `JsonString` | the `JsonConvert.ToString` escaping the middleware uses, and an RFC 8259 section 7 decoder as its partner |
| `PactMiddleware` | the middleware |

Code that mutates objects is modelled as classes whose methods have `modifies`
clauses: the repository, responses, request body streams, the handlers and
the middleware. Each such method is specified by functions: `MapRequest`,
`MapResponse`, `VerificationFailures`, `VerificationError` and `ErrorText`.
The properties are lemmas about those functions.

## Model

All source paths are relative to the repository root.

| member | source | states |
|---|---|---|
| Text.TrimStart | PactNet/Mocks/MockHttpService/Mappers/ProviderServiceRequestMapper.cs:41 | `TrimStart('?')`: the result is a suffix of the input that does not start with the character, and every character removed is that character |
| Text.TrimEnd | PactNet/Mocks/MockHttpService/Comparers/HttpQueryStringComparer.cs:61 | `TrimEnd('&')`: the result is a prefix that does not end with the character, and every character removed is that character |
| Text.TrimStartPrefix | PactNet/Mocks/MockHttpService/Mappers/ProviderServiceRequestMapper.cs:41 | putting back as many removed characters as were trimmed gives the input: for the query string, the leading question marks and the rest make up the raw query |
| Text.NatToStringRoundTrip | PactNet/Mocks/MockHttpService/Host/MockProviderAdminRequestHandler.cs:122 | the usage count written into the "was used N time/s" message reads back as N |
| QueryStringComparer.Normalise | PactNet/Mocks/MockHttpService/Comparers/HttpQueryStringComparer.cs:58-63 | a null query stays null and a present query stays present |
| QueryStringComparer.UpperCaseEscapesAt | PactNet/Mocks/MockHttpService/Comparers/HttpQueryStringComparer.cs:61 | the left-to-right replacement of `%[0-9a-f][0-9a-f]`, position by position: the two digits of a match are upper-cased and every other character is kept |
| QueryStringComparer.UpperCaseEscapesLeavesNoLowerEscape | PactNet/Mocks/MockHttpService/Comparers/HttpQueryStringComparer.cs:61 | after the replacement, no `%xx` match has a lower-case digit |
| QueryStringComparer.UpperCaseEscapesFixpoint | PactNet/Mocks/MockHttpService/Comparers/HttpQueryStringComparer.cs:61 | a string whose `%xx` escapes are already upper-case is left unchanged by the replacement |
| QueryStringComparer.NormaliseIdempotent | PactNet/Mocks/MockHttpService/Comparers/HttpQueryStringComparer.cs:58-63 | normalising an already normalised query changes nothing |
| QueryStringComparer.Compare | PactNet/Mocks/MockHttpService/Comparers/HttpQueryStringComparer.cs:11-56 | every early return records at most one failure, and that failure is a diff |
| QueryStringComparer.NoMismatchIffFoldedEqual | PactNet/Mocks/MockHttpService/Comparers/HttpQueryStringComparer.cs:31-53 | for parsed dictionaries that, like `ParseQuery`'s, never hold two keys equal ignoring case, the key-count check and the per-key check (keys looked up ignoring case) pass exactly when the two hold the same items once their keys are put in one case |
| QueryStringComparer.CompareNoQueryStrings | PactNet/Mocks/MockHttpService/Comparers/HttpQueryStringComparer.cs:13-16 | two null-or-empty queries pass, labelled "has no query strings" |
| QueryStringComparer.CompareOneNull | PactNet/Mocks/MockHttpService/Comparers/HttpQueryStringComparer.cs:22-26 | one null query against a non-empty one fails with a diff of the raw strings |
| QueryStringComparer.CompareVerdict | PactNet/Mocks/MockHttpService/Comparers/HttpQueryStringComparer.cs:11-56 | no failure if and only if both queries are null-or-empty, or both are present and, after normalisation, parse to the same items up to the case of their keys |
| QueryStringComparer.CompareFailureNormalised | PactNet/Mocks/MockHttpService/Comparers/HttpQueryStringComparer.cs:18-53 | for two present queries, the label names the normalised expected query, and a failure is a diff of the normalised strings |
| QueryStringComparer.CompareKeyCountDiffers | PactNet/Mocks/MockHttpService/Comparers/HttpQueryStringComparer.cs:31-35 | different numbers of parsed keys always fail |
| QueryStringComparer.CompareKeyMismatch | PactNet/Mocks/MockHttpService/Comparers/HttpQueryStringComparer.cs:37-52 | an expected key that no actual key equals ignoring case, or whose actual values differ in content or order, always fails |
| QueryStringComparer.CompareKeyCaseIgnored | PactNet/Mocks/MockHttpService/Comparers/HttpQueryStringComparer.cs:37-46 | a key the actual query spells in another case still matches: `a=1` against `A=1` passes |
| QueryStringComparer.CompareDependsOnItems | PactNet/Mocks/MockHttpService/Comparers/HttpQueryStringComparer.cs:28-53 | queries that parse to the same items get the same verdict, e.g. the same keys in a different order |
| RequestMapper.SplitJoinValues | PactNet/Mocks/MockHttpService/Mappers/ProviderServiceRequestMapper.cs:46 | joining a header's values with ", " and splitting the result gives the values back, when there is at least one and none contains the separator |
| RequestMapper.JoinHeaders | PactNet/Mocks/MockHttpService/Mappers/ProviderServiceRequestMapper.cs:44-48 | no headers leaves the property null; otherwise it has the same names, each with its values joined |
| RequestMapper.ProviderServiceRequestMapper.MapRequest | PactNet/Mocks/MockHttpService/Mappers/ProviderServiceRequestMapper.cs:35-59 | the verb is mapped from the upper-cased method; the path is copied; the query is the raw query without leading `?`; the headers are joined; the body is set if and only if some byte was read, and it is the body mapper applied to those bytes |
| RequestMapper.ProviderServiceRequestMapper.MapRequestAsWritten | PactNet/Mocks/MockHttpService/Mappers/ProviderServiceRequestMapper.cs:50-59 | as written, the request differs from `MapRequest` only in its body: the body mapper receives the empty byte sequence |
| RequestMapper.ProviderServiceRequestMapper.ConvertAsWritten | PactNet/Mocks/MockHttpService/Mappers/ProviderServiceRequestMapper.cs:28-71 | a null request maps to null; otherwise the result is `MapRequestAsWritten` of the bytes the body held before the call |
| RequestMapper.ProviderServiceRequestMapper.Convert | PactNet/Mocks/MockHttpService/Mappers/ProviderServiceRequestMapper.cs:28-71 | a null request maps to null; otherwise the result is `MapRequest` of the bytes the body held before the call, and the stream is left at its end |
| RequestMapper.ProviderServiceRequestMapper.MethodCaseIgnored | PactNet/Mocks/MockHttpService/Mappers/ProviderServiceRequestMapper.cs:35 | "get" and "GET" map to the same pact request |
| RequestMapper.AsWrittenLosesBody | PactNet/Mocks/MockHttpService/Mappers/ProviderServiceRequestMapper.cs:52-57 | with a text body mapper, body "A" maps to "" as written and to "A" once the mapper receives the bytes read |
| ResponseMapper.AddHeaders | PactNet/Mocks/MockHttpService/Mappers/HttpResponseMapper.cs:29-33 | headers are only appended; if nothing throws, every declared header is appended in order; a throw is the duplicate-key error |
| ResponseMapper.AddHeadersDistinct | PactNet/Mocks/MockHttpService/Mappers/HttpResponseMapper.cs:29-33 | with names distinct ignoring case, and none already present, all headers are added in order and nothing throws |
| ResponseMapper.AddHeadersRepeatedName | PactNet/Mocks/MockHttpService/Mappers/HttpResponseMapper.cs:32 | a name added twice throws, and keeps only the first header |
| ResponseMapper.HttpResponseMapper.Convert | PactNet/Mocks/MockHttpService/Mappers/HttpResponseMapper.cs:21-41 | the new response state and the exception are exactly `MapResponse` of the old state |
| ResponseMapper.MapFreshResponse | PactNet/Mocks/MockHttpService/Mappers/HttpResponseMapper.cs:21-41 | on a fresh response with distinct header names: no error, the status is copied, the headers are exactly the declared ones; a null body leaves no body and no content type; otherwise the body and content type are the mapped content |
| ResponseMapper.MapNullResponse | PactNet/Mocks/MockHttpService/Mappers/HttpResponseMapper.cs:23-26 | a null response changes nothing |
| Repository.MockProviderRepository.ClearTestScopedState | PactNet/Mocks/MockHttpService/Host/MockProviderAdminRequestHandler.cs:84 | the clear that `DELETE /interactions` calls: afterwards the test-scoped interactions and the handled requests are empty and the interactions kept for the pact file are the same; the test context afterwards is not stated |
| Repository.MockProviderRepository.AddInteraction | PactNet/Mocks/MockHttpService/Host/MockProviderAdminRequestHandler.cs:95 | appends the interaction to the test-scoped list and to the pact-file list; test-scoped interactions stay among all interactions |
| Repository.MockProviderRepository.AddHandledRequest | PactNet/Mocks/MockHttpService/Host/MockProviderRequestHandler.cs:50-58 | appends to the handled-request log and changes nothing else |
| Repository.MockProviderRepository.GetMatchingTestScopedInteraction | PactNet/Mocks/MockHttpService/Host/MockProviderRequestHandler.cs:49 | the lookup among the test-scoped interactions: the match, or the exception thrown when none matches |
| AdminRequestHandler.RouteChoice | PactNet/Mocks/MockHttpService/Host/MockProviderAdminRequestHandler.cs:49-77 | each action is chosen if and only if the method and the path both match ignoring case (`PathString` equality ignores case) |
| AdminRequestHandler.RouteIgnoresMethodCase | PactNet/Mocks/MockHttpService/Host/MockProviderAdminRequestHandler.cs:49-68 | upper-casing the method never changes the route |
| AdminRequestHandler.RouteIgnoresPathCase | PactNet/Mocks/MockHttpService/Host/MockProviderAdminRequestHandler.cs:49-68 | upper-casing the path never changes the route |
| AdminRequestHandler.RouteOtherwiseNotFound | PactNet/Mocks/MockHttpService/Host/MockProviderAdminRequestHandler.cs:73-77 | a path equal, ignoring case, to none of the three admin paths is not an admin action, whatever the method |
| AdminRequestHandler.CaptureTestContext | PactNet/Mocks/MockHttpService/Host/MockProviderAdminRequestHandler.cs:41-47 | a context already set, or a missing header, keeps the context; it is set if and only if none is set and the header has exactly one value, which becomes the context; otherwise `Single()` throws |
| AdminRequestHandler.TestContextSetOnce | PactNet/Mocks/MockHttpService/Host/MockProviderAdminRequestHandler.cs:41-47 | the first capture sets the context to the header's single value; once that value is non-empty, no later capture changes it, whatever headers it sees |
| AdminRequestHandler.UsageCount | PactNet/Mocks/MockHttpService/Host/MockProviderAdminRequestHandler.cs:114 | the number of usages is at most the number of handled requests |
| AdminRequestHandler.UsageCountIsIndexCount | PactNet/Mocks/MockHttpService/Host/MockProviderAdminRequestHandler.cs:114 | the usage count is the number of log positions whose matched interaction is this interaction (compared by reference) |
| AdminRequestHandler.UsageCountZero | PactNet/Mocks/MockHttpService/Host/MockProviderAdminRequestHandler.cs:114-119 | the count is zero if and only if no handled request references the interaction |
| AdminRequestHandler.VerificationFailures | PactNet/Mocks/MockHttpService/Host/MockProviderAdminRequestHandler.cs:103-142 | verification never records a diff failure |
| AdminRequestHandler.InteractionFailuresNoDiff | PactNet/Mocks/MockHttpService/Host/MockProviderAdminRequestHandler.cs:110-125 | the per-interaction loop records only missing-interaction and error-message failures |
| AdminRequestHandler.UnexpectedRequestFailuresAreUnexpected | PactNet/Mocks/MockHttpService/Host/MockProviderAdminRequestHandler.cs:127-134 | the second loop records only unexpected-request failures, one for exactly each unmatched handled request |
| AdminRequestHandler.UnexpectedRequestFailuresEmpty | PactNet/Mocks/MockHttpService/Host/MockProviderAdminRequestHandler.cs:127-134 | no unexpected request is recorded if and only if every handled request matched |
| AdminRequestHandler.InteractionFailuresEmpty | PactNet/Mocks/MockHttpService/Host/MockProviderAdminRequestHandler.cs:110-125 | the first loop records nothing if and only if each registered interaction was used exactly once |
| AdminRequestHandler.VerificationPasses | PactNet/Mocks/MockHttpService/Host/MockProviderAdminRequestHandler.cs:103-150 | verification passes if and only if each registered interaction was used once, every handled request matched, and requests arrived only when something was registered |
| AdminRequestHandler.MissingInteractionIff | PactNet/Mocks/MockHttpService/Host/MockProviderAdminRequestHandler.cs:116-119 | a missing-interaction failure is recorded for exactly the registered interactions no handled request references |
| AdminRequestHandler.DuplicateUseReported | PactNet/Mocks/MockHttpService/Host/MockProviderAdminRequestHandler.cs:120-123 | an interaction used more than once is reported with its usage count |
| AdminRequestHandler.VerificationOrder | PactNet/Mocks/MockHttpService/Host/MockProviderAdminRequestHandler.cs:109-142 | interaction failures come first, then the unexpected requests; the "no interactions" message is recorded if and only if nothing was registered and some request arrived, and it comes last |
| AdminRequestHandler.CollectVerificationFailures | PactNet/Mocks/MockHttpService/Host/MockProviderAdminRequestHandler.cs:107-142 | the two loops and the final check build exactly `VerificationFailures` |
| AdminRequestHandler.VerificationError | PactNet/Mocks/MockHttpService/Host/MockProviderAdminRequestHandler.cs:144-178 | nothing is thrown if and only if there are no failures; otherwise the exception is a `PactFailureException` carrying the first failure's text |
| AdminRequestHandler.ExactlyOnceScenario | PactNet.Tests/Mocks/MockHttpService/Nancy/MockProviderAdminRequestHandlerTests.cs:282-303 | one interaction matched once passes |
| AdminRequestHandler.DuplicateScenario | PactNet.Tests/Mocks/MockHttpService/Nancy/MockProviderAdminRequestHandlerTests.cs:321-343 | one interaction matched twice fails with "was used 2 time/s by the test." |
| AdminRequestHandler.UnexpectedScenario | PactNet.Tests/Mocks/MockHttpService/Nancy/MockProviderAdminRequestHandlerTests.cs:400-429 | an unmatched POST /tester fails with "An unexpected request POST /tester was seen by the mock provider service." |
| AdminRequestHandler.MissingScenario | PactNet.Tests/Mocks/MockHttpService/Nancy/MockProviderAdminRequestHandlerTests.cs:432-444 | an unused interaction with no request fails with "... was not used by the test. Missing request No Method No Path." |
| AdminRequestHandler.NothingRegisteredScenario | PactNet.Tests/Mocks/MockHttpService/Nancy/MockProviderAdminRequestHandlerTests.cs:346-358 | requests with nothing registered fail with the "no interactions" message, after any unexpected request |
| AdminRequestHandler.CombinePath | PactNet/Mocks/MockHttpService/Host/MockProviderAdminRequestHandler.cs:185 | `Path.Combine`: an empty file name gives the directory; a rooted file name or an empty directory gives the file name; the result always ends with the file name |
| AdminRequestHandler.FileSystem.WriteAllText | PactNet/Mocks/MockHttpService/Host/MockProviderAdminRequestHandler.cs:198 | the write is recorded, and its outcome is the next scripted one |
| AdminRequestHandler.FileSystem.CreateDirectory | PactNet/Mocks/MockHttpService/Host/MockProviderAdminRequestHandler.cs:202 | the creation's outcome is the next scripted one, and the directory is recorded as created only when it succeeds |
| AdminRequestHandler.GenerateResponse | PactNet/Mocks/MockHttpService/Host/MockProviderAdminRequestHandler.cs:209-217 | the response is cleared, then has exactly the status, the content type and the message as body |
| AdminRequestHandler.MockProviderAdminRequestHandler.ReadContent | PactNet/Mocks/MockHttpService/Host/MockProviderAdminRequestHandler.cs:219-225 | the decoded remaining bytes of the body, or the null-stream exception |
| AdminRequestHandler.MockProviderAdminRequestHandler.HandleDeleteInteractions | PactNet/Mocks/MockHttpService/Host/MockProviderAdminRequestHandler.cs:82-89 | the handler calls the repository's clear (line 84) and answers (line 88): afterwards the test-scoped interactions and handled requests are empty, the interactions kept for the pact file are the same, and the response is 200 "Deleted interactions" in `text/plain`; the test context afterwards is not stated |
| AdminRequestHandler.MockProviderAdminRequestHandler.HandlePostInteractions | PactNet/Mocks/MockHttpService/Host/MockProviderAdminRequestHandler.cs:91-101 | a read or deserialisation failure throws and changes nothing; otherwise one new interaction with the deserialised data is registered, then it answers 200 "Added interaction", or throws a null reference (and answers nothing) if the interaction has no request |
| AdminRequestHandler.MockProviderAdminRequestHandler.HandleGetInteractionsVerification | PactNet/Mocks/MockHttpService/Host/MockProviderAdminRequestHandler.cs:103-179 | the thrown exception is `VerificationError` of the repository; a pass answers 200 "Interactions matched"; a failure leaves the response alone |
| AdminRequestHandler.MockProviderAdminRequestHandler.WritePactFile | PactNet/Mocks/MockHttpService/Host/MockProviderAdminRequestHandler.cs:196-204 | one write; a directory-not-found failure creates the pact directory; a failed creation ends it with that error, otherwise the file is written again and the outcome is the second write's |
| AdminRequestHandler.PactWriteRetriesOnce | PactNet/Mocks/MockHttpService/Host/MockProviderAdminRequestHandler.cs:196-204 | the pact file is written at most twice, always the same text to the same path; a second time exactly when the first write found no directory and creating it succeeded, which is also exactly when the directory is recorded as created; the error is the outcome of the last file-system operation |
| AdminRequestHandler.MockProviderAdminRequestHandler.HandlePostPact | PactNet/Mocks/MockHttpService/Host/MockProviderAdminRequestHandler.cs:181-207 | unreadable details throw and touch nothing; otherwise the pact file at the combined path holds every interaction since start-up, written as `WritePactFile` states (directory creation included), and success answers 200 with the pact JSON while a failure leaves the response as it was |
| AdminRequestHandler.MockProviderAdminRequestHandler.Dispatch | PactNet/Mocks/MockHttpService/Host/MockProviderAdminRequestHandler.cs:49-79 | `Routed`: each route runs its action and keeps every part of the repository and file system it does not name; DELETE empties the test-scoped interactions and handled requests, keeps the rest of the state apart from the test context (not stated), and answers 200 "Deleted interactions"; the verification route throws the verification error or answers 200 "Interactions matched"; POST /pact has `HandlePostPact`'s whole effect; an unknown route answers 404 with the "does not have a matching mock provider admin action" message |
| AdminRequestHandler.MockProviderAdminRequestHandler.Handle | PactNet/Mocks/MockHttpService/Host/MockProviderAdminRequestHandler.cs:37-80 | `Handled`: a failing context capture throws before any action and changes neither the state nor the response; otherwise the context is updated as captured and the routed action has the effect `Routed` states |
| RequestHandler.MatchedBy | PactNet/Mocks/MockHttpService/Host/MockProviderRequestHandler.cs:50-58 | the logged interaction is null if and only if the lookup threw |
| RequestHandler.MockProviderRequestHandler.Handle | PactNet/Mocks/MockHttpService/Host/MockProviderRequestHandler.cs:36-63 | exactly one handled request is logged whatever the lookup does; a failed lookup rethrows its exception and writes nothing; a match writes `MapResponse` of its response |
| RequestHandler.UnmatchedRequestFailsVerification | PactNet/Mocks/MockHttpService/Host/MockProviderRequestHandler.cs:58 | a request logged without a match is reported as unexpected by the next verification |
| RequestHandler.MatchedRequestCountsOnce | PactNet/Mocks/MockHttpService/Host/MockProviderRequestHandler.cs:49-50 | logging a matched request adds one use to that interaction and none to any other |
| JsonString.EscapeChar | PactNet/Mocks/MockHttpService/Host/PactMiddleware.cs:80 | one character's escape is never empty, does not start with a quote, and ends with a quote if and only if the character is a quote |
| JsonString.Escape | PactNet/Mocks/MockHttpService/Host/PactMiddleware.cs:80 | the escaped text is at least as long as the input and does not start with a quote |
| JsonString.EscapePrintable | PactNet/Mocks/MockHttpService/Host/PactMiddleware.cs:80 | the escaped text holds no control character, so the reason phrase stays on one line |
| JsonString.Hex4RoundTrip | PactNet/Mocks/MockHttpService/Host/PactMiddleware.cs:80 | the four hex digits of a `\u` escape read back as the code unit |
| JsonString.EscapeConcat | PactNet/Mocks/MockHttpService/Host/PactMiddleware.cs:80 | escaping works character by character: escaping a concatenation concatenates the escapes |
| JsonString.EscapePlain | PactNet/Mocks/MockHttpService/Host/PactMiddleware.cs:80 | text without quotes, backslashes or control characters is written as it is |
| JsonString.EscapeEnd | PactNet/Mocks/MockHttpService/Host/PactMiddleware.cs:80 | the escaped text ends with a quote if and only if the message does, and that quote then follows a backslash |
| JsonString.EscapeRoundTrip | PactNet/Mocks/MockHttpService/Host/PactMiddleware.cs:80 | decoding the escaped text gives the message back |
| JsonString.EscapeLineBreaks | PactNet.Tests/Mocks/MockHttpService/Host/MockProviderPactMiddlewareTests.cs:138-155 | carriage return, line feed and tab come out as `\r`, `\n` and `\t` |
| PactMiddleware.ExceptionMessageText | PactNet/Mocks/MockHttpService/Host/PactMiddleware.cs:79-81 | the literal without exactly its two delimiting quotes: it decodes back to the message and holds no control character |
| PactMiddleware.TrimQuotedLiteral | PactNet/Mocks/MockHttpService/Host/PactMiddleware.cs:80 | `Trim('"')` of the literal is the escaped message, or, when the message ends with a quote, the escaped message without its last character |
| PactMiddleware.AsWrittenAgreesUnlessTrailingQuote | PactNet/Mocks/MockHttpService/Host/PactMiddleware.cs:80 | the as-written text equals the intended one if and only if the message does not end with a quote |
| PactMiddleware.AsWrittenUndecodable | PactNet/Mocks/MockHttpService/Host/PactMiddleware.cs:80 | as written, a message ending with a quote gives text that no longer decodes |
| PactMiddleware.AsWrittenDropsClosingQuote | PactNet/Mocks/MockHttpService/Host/PactMiddleware.cs:80 | `a"b"` comes out as `a\"b\` as written, and as `a\"b\"` once corrected |
| PactMiddleware.ErrorTextDecodes | PactNet/Mocks/MockHttpService/Host/PactMiddleware.cs:79-81 | the error text begins with text that decodes to the message; it holds no control character unless the log location does |
| PactMiddleware.ErrorTextExample | PactNet.Tests/Mocks/MockHttpService/Host/MockProviderPactMiddlewareTests.cs:138-155 | a message like `Something\r\n \t \\ failed.` becomes `Something\r\n \t \\ failed. See <location> for details.`, escapes included |
| PactMiddleware.PactMiddleware.Dispatch | PactNet/Mocks/MockHttpService/Host/PactMiddleware.cs:61-71 | the admin header chooses the admin handler, otherwise the request handler; exactly the chosen handler runs, and its exception is passed on: for an admin request, the state, response and exception are those `Handled` states; for another request, the handled request is logged and the exception is the lookup's or that of `MapResponse` |
| PactMiddleware.PactMiddleware.ReportFailure | PactNet/Mocks/MockHttpService/Host/PactMiddleware.cs:72-86 | logs the exception unless it is a `PactFailureException`; sets status 500 and the error text as reason phrase, and appends the text to the body |
| PactMiddleware.PactMiddleware.Invoke | PactNet/Mocks/MockHttpService/Host/PactMiddleware.cs:54-87 | a null context throws and no handler runs; otherwise nothing escapes: exactly the chosen handler runs; for an admin request, the exception, the response the handler left and the new state are those `Handled` states; that response is kept when nothing was thrown and becomes the 500 error response when something was, and the exception is logged unless it is a `PactFailureException` |
| PactMiddleware.PactMiddleware.InvokeOn | PactNet/Mocks/MockHttpService/Host/PactMiddleware.cs:61-86 | the try/catch on a context: exactly the chosen handler runs; for an admin request, the exception, the response the handler left and the new state are those `Handled` states; when it throws, the exception is logged unless it is a `PactFailureException` and the response becomes the 500 error response |

## Left out

- Logging, asynchrony and the ASP.NET pipeline are left out. The errors the middleware logs are kept as a ghost list.
- `HttpVerbMapper`, both body-content mappers, JSON (de)serialisation, UTF-8 decoding, `QueryHelpers.ParseQuery`, pact file name generation and log-path resolution are outside collaborators. They are function fields or parameters, taken as given.
- `MockProviderRepository` is not part of this model; its implementation is not in the modelled files. Its four properties and the operations the handlers call are modelled as the handlers use them. Finding the matching interaction, and the request and body comparers behind it, is a `lookup` function field. Its result is the match or the exception it throws.
- Repository.MockProviderRepository.GetMatchingTestScopedInteraction: the matcher `lookup` is unconstrained; nothing says a found interaction is one of the test-scoped interactions it was given, which the comparers behind it ensure.
- AdminRequestHandler.MockProviderAdminRequestHandler.HandlePostInteractions: deserialisation is an `Attempt`, so the null `DeserializeObject` returns for an empty body, and the `NullReferenceException` that `AddInteraction(null)` and the later dereference give, are not modelled.
- A response's content type is kept apart from its headers. In ASP.NET, setting `ContentType` writes the `Content-Type` header, so a declared `Content-Type` header and the mapped content type are one entry there and two here.
- The file system is a class whose writes and directory creations consume scripted outcomes; the disk itself is not modelled.
- `Path.Combine` is modelled with `/` as the only separator.
- `Constants.cs` is not part of this model. The admin and test-context header keys are constructor parameters. The three admin paths are `/interactions`, `/interactions/verification` and `/pact`, as the admin tests use them.
- AdminRequestHandler.Route: compares the path ignoring case, as `PathString` equality does, although the path is sometimes described as matched exactly. The code is followed here.
- Text.Upper: upper-cases ASCII letters only, so methods compare ignoring case over ASCII only, not with full Unicode case folding.
- `Interaction` is a class with constant fields, so `==` compares references, as the verification loop does. A null description or provider state is read as the empty string.
- Nullable request headers are an empty map in the model. The source treats null and empty the same.
- JsonString.Unescape: rejects `\u` escapes of surrogates. Pairing them is not modelled, so the round trip is stated over the text `Escape` produces, which never contains such escapes.
- JsonString.Escape: writes out Newtonsoft.Json's default escaping. Newtonsoft.Json itself is not part of this model.
- The failure texts of missing and unexpected requests are reconstructed from the messages the admin tests expect. The failure classes are not part of this model.
- QueryStringComparer.CompareVerdict: holds for parsed dictionaries that never hold two keys equal ignoring case. `ParseQuery` builds its dictionary with an ordinal ignore-case comparer, so it always meets this.
- QueryStringComparer.NoMismatchIffFoldedEqual: the same condition as `CompareVerdict`, for the same reason.
- RequestMapper.ProviderServiceRequestMapper.MapRequest: copies the path as given. In the source the path is `PathString`'s text, which is URI-escaped (a space becomes `%20`); the model's request path stands for that escaped text, and the escaping is not modelled.
- AdminRequestHandler.NotFoundMessage: the path it names is likewise the escaped text of `PathString`.
- RequestHandler.MockProviderRequestHandler.Handle: maps the request with the corrected `Convert`, not `ConvertAsWritten` (first row of the findings). As written, the logged request of a request with a body has no body.
- PactMiddleware.PactMiddleware.Dispatch: logs the request as the corrected `Convert` maps it, for the same reason.
- PactMiddleware.PactMiddleware.Dispatch: for an admin `POST /interactions`, states only what `Routed` states for that route. That is the count of `interactions` (at most one more, exactly one more on success) and that the handled requests, the test context and the file system are kept. It does not state the test-scoped interactions, the response or what is thrown. `HandlePostInteractions` states those.
- PactMiddleware.PactMiddleware.ReportFailure: writes the error text built on the corrected `ExceptionMessageText`, not the `Trim('"')` text the source writes (second row of the findings). The two differ only for messages that end with a quote.
- PactMiddleware.PactMiddleware.Invoke: writes the error text of the corrected `ExceptionMessageText`, as `ReportFailure` does.
- PactMiddleware.PactMiddleware.InvokeOn: writes the error text of the corrected `ExceptionMessageText`, as `ReportFailure` does.
- AdminRequestHandler.MockProviderAdminRequestHandler.Dispatch: for `POST /interactions`, states only what `Routed` states for that route. That is the count of `interactions` (at most one more, exactly one more on success) and that the handled requests, the test context and the file system are kept. It does not state the test-scoped interactions, the response or what is thrown. `HandlePostInteractions` states those.
- AdminRequestHandler.MockProviderAdminRequestHandler.Handle: for `POST /interactions`, states only what `Routed` states for that route, after the context capture. That is the count of `interactions` (at most one more, exactly one more on success) and that the handled requests, the test context and the file system are kept. It does not state the test-scoped interactions, the response or what is thrown. `HandlePostInteractions` states those.
- PactMiddleware.PactMiddleware.InvokeOn: for an admin `POST /interactions`, states only what `Routed` states for that route. That is the count of `interactions` (at most one more, exactly one more on success) and that the handled requests, the test context and the file system are kept. It does not state the test-scoped interactions, the response the handler left or what it threw. `HandlePostInteractions` states those.
- PactMiddleware.PactMiddleware.Invoke: for an admin `POST /interactions`, states only what `Routed` states for that route. That is the count of `interactions` (at most one more, exactly one more on success) and that the handled requests, the test context and the file system are kept. It does not state the test-scoped interactions, the response the handler left or what it threw. `HandlePostInteractions` states those.
- Repository.MockProviderRepository.ClearTestScopedState: the repository's implementation is not part of this model, so what the clear does to the test context is not stated; only the emptied test-scoped interactions and handled requests, and the kept interactions, are.
- AdminRequestHandler.MockProviderAdminRequestHandler.HandleDeleteInteractions: the test context after `DELETE /interactions` is whatever the repository's clear leaves, which is not stated. `Routed`, `Handled` and the members that use them state the same for that route.
- PactMiddleware.PactMiddleware.Invoke: keeps what the handler threw, and the response it left, as ghost outputs. The real method returns nothing.
- PactMiddleware.PactMiddleware.Invoke: does not restate, for a request from the code under test (not an admin request), which handled request is logged and which response is written. `PactMiddleware.Dispatch` and `MockProviderRequestHandler.Handle` state that.
- PactMiddleware.PactMiddleware.InvokeOn: the same as `Invoke`, for requests from the code under test only; admin requests are stated through `Handled`, within the limits the `POST /interactions` and `DELETE /interactions` lines above give.

## Findings

| source | as written | input that shows it | evidently intended | confidence | as-written member | corrected member |
|---|---|---|---|---|---|---|
| PactNet/Mocks/MockHttpService/Mappers/ProviderServiceRequestMapper.cs:55 | the body stream is read a second time after the first read consumed it, so the body mapper receives no bytes | a POST whose body is the single byte `A`: the mapped body is empty instead of "A" | the bytes already read (`streamBytes`) are passed to the body mapper | not executed | RequestMapper.ProviderServiceRequestMapper.ConvertAsWritten | RequestMapper.ProviderServiceRequestMapper.Convert |
| PactNet/Mocks/MockHttpService/Host/PactMiddleware.cs:80 | `Trim('"')` removes every quote at either end of the JSON literal. The escaped closing quote of a message that ends with `"` is removed too, leaving a dangling backslash | the message `Say "hi"` gives `Say \"hi\` | only the two delimiting quotes are removed, giving `Say \"hi\"`, which decodes back to the message | not executed | PactMiddleware.ExceptionMessageTextAsWritten | PactMiddleware.ExceptionMessageText |
