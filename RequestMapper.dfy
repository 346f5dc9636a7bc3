/** `ProviderServiceRequestMapper`: turns the intercepted transport request into
    the pact-level `ProviderServiceRequest` the repository matches against. The
    verb mapper and the body-content mapper are outside collaborators, held as
    function fields. */
module RequestMapper {
  import opened Text
  import opened Models

  const HeaderSeparator := ", "

  /** `String.Join(", ", values)`. */
  function JoinValues(values: seq<string>): string {
    if values == [] then ""
    else if |values| == 1 then values[0]
    else JoinValues(values[..|values| - 1]) + HeaderSeparator + values[|values| - 1]
  }

  /** `s` holds the separator starting at position `i`. */
  predicate SeparatorAt(s: string, i: int) {
    0 <= i && i + 1 < |s| && s[i] == ',' && s[i + 1] == ' '
  }

  /** Position of the first separator in `s`, or `|s|` when there is none. */
  function FirstSeparator(s: string): (n: nat)
    ensures n <= |s|
    ensures n < |s| ==> SeparatorAt(s, n)
    ensures forall i :: 0 <= i < n ==> !SeparatorAt(s, i)
  {
    if |s| < 2 then |s|
    else if SeparatorAt(s, 0) then 0
    else
      var n := 1 + FirstSeparator(s[1..]);
      assert forall i :: 1 <= i < |s| ==> (SeparatorAt(s, i) <==> SeparatorAt(s[1..], i - 1));
      n
  }

  /** Splitting at every separator, left to right: the inverse of `JoinValues`. */
  function SplitValues(s: string): seq<string>
    decreases |s|
  {
    var n := FirstSeparator(s);
    if n == |s| then [s] else [s[..n]] + SplitValues(s[n + 2..])
  }

  predicate ContainsSeparator(s: string) {
    exists i :: 0 <= i < |s| && SeparatorAt(s, i)
  }

  lemma FirstSeparatorAfter(a: string, b: string)
    requires !ContainsSeparator(a)
    ensures FirstSeparator(a + HeaderSeparator + b) == |a|
  {
    var s := a + HeaderSeparator + b;
    assert SeparatorAt(s, |a|);
    forall i | 0 <= i < |a|
      ensures !SeparatorAt(s, i)
    {
      if i + 1 < |a| {
        assert !SeparatorAt(a, i);
      }
    }
  }

  /** A value without the separator splits to itself. */
  lemma SplitSingle(v: string)
    requires !ContainsSeparator(v)
    ensures SplitValues(v) == [v]
  {
  }

  /** Joining the values of a header and splitting the result gives the values
      back, as long as there is at least one and none contains the separator. */
  lemma {:induction false} SplitJoinValues(values: seq<string>)
    requires values != []
    requires forall k :: 0 <= k < |values| ==> !ContainsSeparator(values[k])
    ensures SplitValues(JoinValues(values)) == values
  {
    if |values| == 1 {
      SplitSingle(values[0]);
    } else {
      var front := values[..|values| - 1];
      var last := values[|values| - 1];
      assert JoinValues(values) == JoinValues(front) + HeaderSeparator + last;
      assert forall k :: 0 <= k < |front| ==> front[k] == values[k];
      SplitJoinFront(front, last);
      assert front + [last] == values;
    }
  }

  /** Splitting `JoinValues(front) + ", " + last` gives `front + [last]`. */
  lemma {:induction false} SplitJoinFront(front: seq<string>, last: string)
    requires front != []
    requires forall k :: 0 <= k < |front| ==> !ContainsSeparator(front[k])
    requires !ContainsSeparator(last)
    ensures SplitValues(JoinValues(front) + HeaderSeparator + last) == front + [last]
    decreases |front|
  {
    var head := front[0];
    var tail := front[1..];
    if tail == [] {
      assert JoinValues(front) == head;
      SplitAfter(head, last);
      SplitSingle(last);
      assert front + [last] == [head] + [last];
    } else {
      var rest := JoinValues(tail) + HeaderSeparator + last;
      assert JoinValues(front) + HeaderSeparator + last == head + HeaderSeparator + rest by {
        JoinValuesHead(front);
      }
      SplitAfter(head, rest);
      SplitJoinFront(tail, last);
      ConsAppend(front, last);
    }
  }

  lemma ConsAppend(front: seq<string>, last: string)
    requires front != []
    ensures [front[0]] + (front[1..] + [last]) == front + [last]
  {
    assert front == [front[0]] + front[1..];
  }

  /** A first value without the separator is split off whole. */
  lemma SplitAfter(head: string, rest: string)
    requires !ContainsSeparator(head)
    ensures SplitValues(head + HeaderSeparator + rest) == [head] + SplitValues(rest)
  {
    var s := head + HeaderSeparator + rest;
    FirstSeparatorAfter(head, rest);
    assert s[|head| + 2..] == rest;
    assert s[..|head|] == head;
  }

  /** `JoinValues` read from the front. */
  lemma {:induction false} JoinValuesHead(values: seq<string>)
    requires |values| >= 2
    ensures JoinValues(values) == values[0] + HeaderSeparator + JoinValues(values[1..])
    decreases |values|
  {
    if |values| > 2 {
      var front := values[..|values| - 1];
      JoinValuesHead(front);
      assert front[1..] == values[1..][..|values[1..]| - 1];
    } else {
      assert values[1..] == [values[1]];
    }
  }

  /** The headers as the pact request holds them: each name with its values
      joined; no headers at all leaves the property unset. */
  function JoinHeaders(headers: map<string, seq<string>>): (r: Option<map<string, string>>)
    ensures r.None? <==> |headers| == 0
    ensures r.Some? ==> r.value.Keys == headers.Keys
    ensures r.Some? ==> forall name :: name in headers ==> r.value[name] == JoinValues(headers[name])
  {
    if |headers| == 0 then None
    else Some(map name | name in headers :: JoinValues(headers[name]))
  }

  class ProviderServiceRequestMapper {
    const verbMapper: string -> HttpVerb
    /** The body-content mapper: the body decoded from the bytes read, in the
        light of the request's headers. */
    const bodyMapper: (seq<Byte>, Option<map<string, string>>) -> DynamicBody

    constructor (verbMapper: string -> HttpVerb, bodyMapper: (seq<Byte>, Option<map<string, string>>) -> DynamicBody)
      ensures this.verbMapper == verbMapper && this.bodyMapper == bodyMapper
    {
      this.verbMapper := verbMapper;
      this.bodyMapper := bodyMapper;
    }

    /** The pact request for a transport request whose body reads as `bytes`
        (`None` for no body stream): the body is set only when some byte was read. */
    function MapRequest(request: HttpRequest, bytes: Option<seq<Byte>>): (r: ProviderServiceRequest)
      ensures r.verb == verbMapper(Upper(request.httpMethod))
      ensures r.path == Some(request.path)
      ensures r.query == Some(TrimStart(request.queryString, '?'))
      ensures r.headers == JoinHeaders(request.headers)
      ensures r.body.Some? <==> bytes.Some? && bytes.value != []
      ensures r.body.Some? ==> r.body == Some(bodyMapper(bytes.value, r.headers))
    {
      var headers := JoinHeaders(request.headers);
      var body := if bytes.Some? && |bytes.value| > 0 then Some(bodyMapper(bytes.value, headers)) else None;
      ProviderServiceRequest(verbMapper(Upper(request.httpMethod)), Some(request.path),
        Some(TrimStart(request.queryString, '?')), headers, body)
    }

    /** The request as the mapper builds it when the bytes handed to the body
        mapper come from a second read of a stream the first read left at its
        end. */
    function MapRequestAsWritten(request: HttpRequest, bytes: Option<seq<Byte>>): (r: ProviderServiceRequest)
      ensures r.body.Some? <==> bytes.Some? && bytes.value != []
      ensures r.body.Some? ==> r.body == Some(bodyMapper([], r.headers))
      ensures r.(body := None) == MapRequest(request, bytes).(body := None)
    {
      var headers := JoinHeaders(request.headers);
      var body := if bytes.Some? && |bytes.value| > 0 then Some(bodyMapper([], headers)) else None;
      ProviderServiceRequest(verbMapper(Upper(request.httpMethod)), Some(request.path),
        Some(TrimStart(request.queryString, '?')), headers, body)
    }

    /** `Convert` as written: the body stream is read twice, and the second read
        finds nothing left. */
    method ConvertAsWritten(from: Option<HttpRequest>) returns (r: Option<ProviderServiceRequest>)
      requires from.Some? ==> BodyValid(from.value)
      modifies if from.Some? then BodyFootprint(from.value) else {}
      ensures from.None? ==> r.None?
      ensures from.Some? ==> BodyValid(from.value) && r == Some(MapRequestAsWritten(from.value, old(BodyBytes(from.value))))
    {
      if from.None? {
        return None;
      }
      var request := from.value;
      var verb := verbMapper(Upper(request.httpMethod));
      var headers := JoinHeaders(request.headers);
      var body: Option<DynamicBody> := None;
      if request.body != null {
        var streamBytes := request.body.ReadToEnd();
        if |streamBytes| > 0 {
          var reread := request.body.ReadToEnd();
          body := Some(bodyMapper(reread, headers));
        }
      }
      r := Some(ProviderServiceRequest(verb, Some(request.path), Some(TrimStart(request.queryString, '?')), headers, body));
    }

    /** `Convert`, reading the body once and handing those bytes to the body mapper. */
    method Convert(from: Option<HttpRequest>) returns (r: Option<ProviderServiceRequest>)
      requires from.Some? ==> BodyValid(from.value)
      modifies if from.Some? then BodyFootprint(from.value) else {}
      ensures from.None? ==> r.None?
      ensures from.Some? ==> BodyValid(from.value) && r == Some(MapRequest(from.value, old(BodyBytes(from.value))))
      ensures from.Some? && from.value.body != null ==> from.value.body.Remaining() == []
    {
      if from.None? {
        return None;
      }
      var request := from.value;
      var verb := verbMapper(Upper(request.httpMethod));
      var headers := JoinHeaders(request.headers);
      var body: Option<DynamicBody> := None;
      if request.body != null {
        var streamBytes := request.body.ReadToEnd();
        if |streamBytes| > 0 {
          body := Some(bodyMapper(streamBytes, headers));
        }
      }
      r := Some(ProviderServiceRequest(verb, Some(request.path), Some(TrimStart(request.queryString, '?')), headers, body));
    }

    /** "Get" and "GET" give the same pact request. */
    lemma MethodCaseIgnored(request: HttpRequest, bytes: Option<seq<Byte>>)
      ensures MapRequest(request, bytes) == MapRequest(request.(httpMethod := Upper(request.httpMethod)), bytes)
    {
      UpperIdempotent(request.httpMethod);
    }
  }

  /** The body mapper that decodes text; with it the as-written mapper loses the
      body of any request whose body is not empty. */
  function DecodeAscii(bytes: seq<Byte>, headers: Option<map<string, string>>): DynamicBody {
    DynamicBody(seq(|bytes|, k requires 0 <= k < |bytes| => (bytes[k] as int) as char))
  }

  /** The discrepancy on one input: a POST with body "A" maps to an empty body as
      written, and to "A" once the bytes read are the bytes mapped. */
  lemma AsWrittenLosesBody(mapper: ProviderServiceRequestMapper, request: HttpRequest)
    requires mapper.bodyMapper == DecodeAscii
    ensures mapper.MapRequestAsWritten(request, Some([65])).body == Some(DynamicBody(""))
    ensures mapper.MapRequest(request, Some([65])).body == Some(DynamicBody("A"))
  {
    var h := JoinHeaders(request.headers);
    var decoded := DecodeAscii([65], h).repr;
    assert |decoded| == 1 && decoded[0] == 'A';
    assert decoded == "A";
    assert DecodeAscii([], h).repr == "";
  }
}
