/** `HttpResponseMapper`: writes the response of a matched interaction onto the
    transport response: status, each declared header, then the body through the
    body-content mapper, an outside collaborator held as a function field. */
module ResponseMapper {
  import opened Text
  import opened Models

  /** What the response header dictionary throws when a name is added twice. */
  const DuplicateHeaderError := ArgumentException("An item with the same key has already been added.")

  /** The response already carries a header of that name; header names compare
      ignoring case. */
  predicate HasHeader(headers: seq<(string, string)>, name: string) {
    exists j :: 0 <= j < |headers| && EqualsIgnoreCase(headers[j].0, name)
  }

  /** Adding `entries` one after the other to `current`: the headers that end up
      on the response and the exception, if a name was already there. Headers
      added before the failing one stay. */
  function AddHeaders(current: seq<(string, string)>, entries: seq<(string, string)>)
    : (r: (seq<(string, string)>, Option<Exception>))
    ensures current <= r.0 && |r.0| <= |current| + |entries|
    ensures r.1.None? ==> r.0 == current + entries
    ensures r.1.Some? ==> r.1 == Some(DuplicateHeaderError)
    decreases |entries|
  {
    if entries == [] then (current, None)
    else if HasHeader(current, entries[0].0) then (current, Some(DuplicateHeaderError))
    else
      var r := AddHeaders(current + [entries[0]], entries[1..]);
      assert current + [entries[0]] + entries[1..] == current + entries;
      r
  }

  /** No two names equal ignoring case, and none already on `current`. */
  predicate DistinctNames(current: seq<(string, string)>, entries: seq<(string, string)>) {
    (forall k :: 0 <= k < |entries| ==> !HasHeader(current, entries[k].0)) &&
    (forall k, l :: 0 <= k < l < |entries| ==> !EqualsIgnoreCase(entries[k].0, entries[l].0))
  }

  /** With distinct names every header is added, in order, and nothing throws. */
  lemma {:induction false} AddHeadersDistinct(current: seq<(string, string)>, entries: seq<(string, string)>)
    requires DistinctNames(current, entries)
    ensures AddHeaders(current, entries) == (current + entries, None)
    decreases |entries|
  {
    if entries != [] {
      var next := current + [entries[0]];
      forall k | 0 <= k < |entries[1..]|
        ensures !HasHeader(next, entries[1..][k].0)
      {
        var name := entries[k + 1].0;
        assert !HasHeader(current, name);
        assert !EqualsIgnoreCase(entries[0].0, name);
        forall j | 0 <= j < |next|
          ensures !EqualsIgnoreCase(next[j].0, name)
        {
          if j < |current| {
            assert next[j] == current[j];
          }
        }
      }
      AddHeadersDistinct(next, entries[1..]);
      assert next + entries[1..] == current + entries;
    }
  }

  /** A name added twice makes the mapper throw. */
  lemma AddHeadersRepeatedName(name: string, first: string, second: string)
    ensures AddHeaders([], [(name, first), (name, second)]) == ([(name, first)], Some(DuplicateHeaderError))
  {
    var entries := [(name, first), (name, second)];
    assert !HasHeader([], name);
    assert entries[1..] == [(name, second)];
    assert [] + [entries[0]] == [(name, first)];
    assert AddHeaders([], entries) == AddHeaders([(name, first)], [(name, second)]);
    assert HasHeader([(name, first)], name) by {
      assert EqualsIgnoreCase([(name, first)][0].0, name);
    }
  }

  class HttpResponseMapper {
    const bodyMapper: (DynamicBody, Option<seq<(string, string)>>) -> HttpBodyContent

    constructor (bodyMapper: (DynamicBody, Option<seq<(string, string)>>) -> HttpBodyContent)
      ensures this.bodyMapper == bodyMapper
    {
      this.bodyMapper := bodyMapper;
    }

    /** The response after `Convert`, and what it throws. */
    function MapResponse(state: ResponseState, from: Option<ProviderServiceResponse>): (ResponseState, Option<Exception>) {
      if from.None? then (state, None)
      else
        var response := from.value;
        var entries := if response.headers.Some? then response.headers.value else [];
        var added := AddHeaders(state.headers, entries);
        var withHeaders := state.(statusCode := response.status, headers := added.0);
        if added.1.Some? then (withHeaders, added.1)
        else if response.body.None? then (withHeaders, None)
        else
          var content := bodyMapper(response.body.value, response.headers);
          (withHeaders.(contentType := Some(content.mediaType), body := state.body + content.content), None)
    }

    method Convert(response: HttpResponse, from: Option<ProviderServiceResponse>) returns (error: Option<Exception>)
      modifies response
      ensures (response.State(), error) == MapResponse(old(response.State()), from)
    {
      if from.None? {
        return None;
      }
      var source := from.value;
      response.statusCode := source.status;
      if source.headers.Some? && |source.headers.value| > 0 {
        var entries := source.headers.value;
        var i := 0;
        while i < |entries|
          invariant 0 <= i <= |entries|
          invariant response.State() == old(response.State()).(statusCode := source.status, headers := response.headers)
          invariant AddHeaders(response.headers, entries[i..]) == AddHeaders(old(response.headers), entries)
        {
          if HasHeader(response.headers, entries[i].0) {
            return Some(DuplicateHeaderError);
          }
          assert entries[i..][1..] == entries[i + 1..];
          response.headers := response.headers + [entries[i]];
          i := i + 1;
        }
      }
      if source.body.Some? {
        var content := bodyMapper(source.body.value, source.headers);
        response.contentType := Some(content.mediaType);
        response.Write(content.content);
      }
      error := None;
    }
  }

  /** On a fresh response with distinct header names: the status is copied, every
      declared header is there and nothing else, and the body is exactly the
      mapped content (nothing at all for a null body). */
  lemma MapFreshResponse(mapper: HttpResponseMapper, from: ProviderServiceResponse)
    requires from.headers.Some? ==> DistinctNames([], from.headers.value)
    ensures var (state, error) := mapper.MapResponse(ClearedResponse, Some(from));
      error.None? && state.statusCode == from.status &&
      state.headers == (if from.headers.Some? then from.headers.value else []) &&
      (from.body.None? ==> state.body == "" && state.contentType.None?) &&
      (from.body.Some? ==>
        var content := mapper.bodyMapper(from.body.value, from.headers);
        state.body == content.content && state.contentType == Some(content.mediaType))
  {
    if from.headers.Some? {
      AddHeadersDistinct([], from.headers.value);
    }
  }

  /** A null response leaves the transport response as it was. */
  lemma MapNullResponse(mapper: HttpResponseMapper, state: ResponseState)
    ensures mapper.MapResponse(state, None) == (state, None)
  {
  }
}
