/** `HeaderHelper.PutHeaderOnRequest`: static headers replace same-named
    request headers. */
module HeaderHelper {
  import opened Http

  /** The request headers after every key of `headers` has been replaced by
      its single value. */
  function Override(h: map<string, seq<string>>, headers: map<string, string>): map<string, seq<string>>
  {
    map k | k in h.Keys + headers.Keys :: if k in headers then [headers[k]] else h[k]
  }

  /** Each key of `headers` carries exactly its one value afterwards; every
      other header is left as it was; an empty `headers` changes nothing. */
  lemma OverrideSpec(h: map<string, seq<string>>, headers: map<string, string>)
    ensures forall k :: k in headers ==> k in Override(h, headers) && Override(h, headers)[k] == [headers[k]]
    ensures forall k :: k !in headers ==> (k in Override(h, headers) <==> k in h)
    ensures forall k :: k !in headers && k in h ==> Override(h, headers)[k] == h[k]
    ensures headers == map[] ==> Override(h, headers) == h
  {
  }

  /** Applying the same headers twice is applying them once. */
  lemma OverrideIdempotent(h: map<string, seq<string>>, headers: map<string, string>)
    ensures Override(Override(h, headers), headers) == Override(h, headers)
  {
  }

  /** Overriding one more key is updating that key. */
  lemma OverrideStep(h: map<string, seq<string>>, headers: map<string, string>, key: string, value: string)
    ensures Override(h, headers[key := value]) == Override(h, headers)[key := [value]]
  {
  }

  /** The entries of `headers` whose keys are in `keys`. */
  function Chosen(headers: map<string, string>, keys: set<string>): map<string, string>
    requires keys <= headers.Keys
  {
    map k | k in keys :: headers[k]
  }

  /** Choosing one more key adds its entry. */
  lemma ChosenAdd(headers: map<string, string>, keys: set<string>, key: string)
    requires keys <= headers.Keys && key in headers
    ensures Chosen(headers, keys + {key}) == Chosen(headers, keys)[key := headers[key]]
  {
  }

  /** Replacing `key` by its one value in headers overridden by `done`
      gives the headers overridden by `done` and `key`. */
  lemma ReplaceStep(h: map<string, seq<string>>, headers: map<string, string>, done: set<string>, key: string,
                    current: map<string, seq<string>>, removed: map<string, seq<string>>)
    requires done <= headers.Keys && key in headers
    requires current == Override(h, Chosen(headers, done)) && removed == current - {key}
    ensures removed[key := [] + [headers[key]]] == Override(h, Chosen(headers, done + {key}))
  {
    assert [] + [headers[key]] == [headers[key]];
    assert removed[key := [headers[key]]] == current[key := [headers[key]]];
    OverrideStep(h, Chosen(headers, done), key, headers[key]);
    ChosenAdd(headers, done, key);
  }

  /** `PutHeaderOnRequest`: the same request, its headers overridden in
      place, its content untouched. */
  method PutHeaderOnRequest(request: HttpRequestMessage, headers: map<string, string>) returns (r: HttpRequestMessage)
    modifies request
    ensures r == request
    ensures request.headers == Override(old(request.headers), headers)
    ensures request.content == old(request.content)
  {
    var pending := headers.Keys;
    ghost var done: set<string> := {};
    while pending != {}
      invariant done == headers.Keys - pending && pending <= headers.Keys
      invariant request.headers == Override(old(request.headers), Chosen(headers, done))
      invariant request.content == old(request.content)
      decreases pending
    {
      var key :| key in pending;
      ghost var current := request.headers;
      if request.Contains(key) {
        request.RemoveHeader(key);
      } else {
        assert request.headers == current - {key};
      }
      ReplaceStep(old(request.headers), headers, done, key, current, request.headers);
      request.AddHeader(key, headers[key]);
      pending := pending - {key};
      done := done + {key};
    }
    assert Chosen(headers, done) == headers;
    return request;
  }
}
