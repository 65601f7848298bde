/** `CookiesHelper`: reading cookies out of `Set-Cookie` response headers
    and writing a jar into a request's `Cookie` header.  The parsing follows
    section 5.2 of RFC 6265 loosely: only the text before the first `;` is
    read, the name ends at the first `=`, and every `=` is removed from the
    value.  The header follows section 5.4 loosely: `name=value;` for each
    entry, with a trailing `;` and no space. */
module CookiesHelper {
  import opened Common
  import opened Text
  import opened Http
  import Dictionary
  import StringExtension

  /** The part of a `Set-Cookie` value before its attributes. */
  function FirstSegment(value: string): (r: string)
    ensures ';' !in r
    ensures |r| <= |value| && r == value[..|r|]
  {
    SplitHead(value, ';');
    SplitPiecesFree(value, ';');
    Split(value, ';')[0]
  }

  /** The (name, value) pair one `Set-Cookie` value contributes, if any. */
  function ParseSetCookie(value: string): Option<(string, string)>
  {
    var c := FirstSegment(value);
    if c == "" then None
    else
      match IndexOf(c, '=')
      case None => None
      case Some(index) => Some((c[..index], RemoveChar(c[index..], '=')))
  }

  /** Whether a `Set-Cookie` value sets a cookie called `name`. */
  predicate Names(value: string, name: string)
  {
    ParseSetCookie(value).Some? && ParseSetCookie(value).value.0 == name
  }

  /** A value contributes nothing exactly when its first segment has no `=`
      (an empty segment has none).  Otherwise the name is the text before the
      first `=`, so the value starts with `name=`, and the cookie's value is
      the rest of the segment with every `=` removed; neither name nor value
      contains `=` or `;`. */
  lemma ParseSetCookieSpec(value: string)
    ensures ParseSetCookie(value).None? <==> '=' !in FirstSegment(value)
    ensures ParseSetCookie(value).Some? ==>
      var (name, v) := ParseSetCookie(value).value;
      OccursAt(value, name + "=", 0)
      && '=' !in name && ';' !in name && '=' !in v && ';' !in v
      && v == RemoveChar(FirstSegment(value)[|name| + 1..], '=')
  {
    var c := FirstSegment(value);
    if c != "" && '=' in c {
      var index := IndexOf(c, '=').value;
      var name := c[..index];
      assert name + "=" == value[..index + 1];
      RemoveCharFree(c[index..], '=', ';');
      assert c[index..][1..] == c[index + 1..];
    }
  }

  /** Attributes after the first `;` are ignored. */
  lemma ParseIgnoresAttributes(c: string, attributes: string)
    requires ';' !in c
    ensures ParseSetCookie(c + ";" + attributes) == ParseSetCookie(c)
  {
    var v := c + ";" + attributes;
    IndexOfAt(v, ';', |c|);
    assert v[..|c|] == c;
    assert FirstSegment(v) == c;
    SplitHead(c, ';');
  }

  /** A name without `=` and `;` and a value without them come back out of
      `name=value`, whatever attributes follow. */
  lemma ParseRoundTrip(name: string, v: string, attributes: string)
    requires '=' !in name && ';' !in name && '=' !in v && ';' !in v
    ensures ParseSetCookie(name + "=" + v + ";" + attributes) == Some((name, v))
    ensures ParseSetCookie(name + "=" + v) == Some((name, v))
  {
    var c := name + "=" + v;
    ParseIgnoresAttributes(c, attributes);
    SplitHead(c, ';');
    assert c[..|name|] == name;
    IndexOfAt(c, '=', |name|);
    assert c[|name|..] == "=" + v;
    RemoveCharNoOp(v, '=');
  }

  /** Removing a character keeps the absence of any other. */
  lemma {:induction false} RemoveCharFree(s: string, c: char, d: char)
    requires d !in s
    ensures d !in RemoveChar(s, c)
    decreases |s|
  {
    if |s| > 0 { RemoveCharFree(s[1..], c, d); }
  }

  /** Removing a character is filtering it out: every other character
      stays, in order and as often as it occurs. */
  lemma {:induction false} RemoveCharFilters(s: string, c: char)
    ensures RemoveChar(s, c) == StringExtension.Filter(s, StringExtension.Outside([c]))
    ensures forall d :: d != c ==> multiset(RemoveChar(s, c))[d] == multiset(s)[d]
    decreases |s|
  {
    if |s| > 0 {
      RemoveCharFilters(s[1..], c);
    }
    StringExtension.FilterCounts(s, StringExtension.Outside([c]));
  }

  lemma {:induction false} RemoveCharNoOp(s: string, c: char)
    requires c !in s
    ensures RemoveChar(s, c) == s
    decreases |s|
  {
    if |s| > 0 { RemoveCharNoOp(s[1..], c); }
  }

  lemma RemoveCharLeading(s: string, c: char)
    requires c !in s
    ensures RemoveChar([c] + s, c) == s
  {
    assert ([c] + s)[1..] == s;
    RemoveCharNoOp(s, c);
  }

  /** The jar `ExtractCookiesFromResponse` builds from the `Set-Cookie`
      values, taken in order, each overwriting an earlier one of that name. */
  function Extracted(values: seq<string>): Dictionary.Entries
  {
    if |values| == 0 then []
    else
      var d := Extracted(values[..|values| - 1]);
      match ParseSetCookie(values[|values| - 1])
      case None => d
      case Some(p) => Dictionary.Put(d, p.0, p.1)
  }

  /** The extracted jar never holds a name twice, and none of its values
      contains `=`. */
  lemma {:induction false} ExtractedValid(values: seq<string>)
    ensures Dictionary.Valid(Extracted(values))
    ensures forall i :: 0 <= i < |Extracted(values)| ==> '=' !in Extracted(values)[i].1
  {
    if |values| > 0 {
      var d := Extracted(values[..|values| - 1]);
      ExtractedValid(values[..|values| - 1]);
      ParseSetCookieSpec(values[|values| - 1]);
      match ParseSetCookie(values[|values| - 1]) {
        case None =>
        case Some(p) => Dictionary.PutGet(d, p.0, p.1);
      }
    }
  }

  /** A name is in the extracted jar exactly when some value sets it. */
  lemma {:induction false} ExtractedKeys(values: seq<string>, name: string)
    ensures Dictionary.HasKey(Extracted(values), name) <==> SetsName(values, name)
  {
    if |values| > 0 {
      var front := values[..|values| - 1];
      var last := values[|values| - 1];
      ExtractedKeys(front, name);
      ExtractedValid(front);
      var d := Extracted(front);
      match ParseSetCookie(last) {
        case None =>
          assert Extracted(values) == d && !Names(last, name);
        case Some(p) =>
          var r := Dictionary.Put(d, p.0, p.1);
          assert Extracted(values) == r;
          Dictionary.PutGet(d, p.0, p.1);
          if p.0 == name {
            assert Dictionary.Get(r, name).Some?;
          } else {
            assert Dictionary.Get(r, name) == Dictionary.Get(d, name);
          }
      }
      SetsNameSnoc(values, name);
    }
  }

  /** Some value of `values` sets a cookie called `name`. */
  predicate SetsName(values: seq<string>, name: string)
  {
    exists i :: 0 <= i < |values| && Names(values[i], name)
  }

  /** Some element of `values` satisfies `p`. */
  predicate Any(values: seq<string>, p: string -> bool)
  {
    exists i :: 0 <= i < |values| && p(values[i])
  }

  /** Some element satisfies `p` exactly when one before the last does or
      the last one does. */
  lemma AnySnoc(values: seq<string>, p: string -> bool)
    requires |values| > 0
    ensures Any(values, p) <==> Any(values[..|values| - 1], p) || p(values[|values| - 1])
  {
    var front := values[..|values| - 1];
    if Any(values, p) {
      var i :| 0 <= i < |values| && p(values[i]);
      if i < |front| {
        assert front[i] == values[i];
      }
    }
    if Any(front, p) {
      var i :| 0 <= i < |front| && p(front[i]);
      assert values[i] == front[i];
    }
  }

  /** `SetsName` is `Any` for the test of naming `name`. */
  lemma SetsNameSnoc(values: seq<string>, name: string)
    requires |values| > 0
    ensures SetsName(values, name) <==> SetsName(values[..|values| - 1], name) || Names(values[|values| - 1], name)
  {
    var p := v => Names(v, name);
    assert SetsName(values, name) <==> Any(values, p);
    assert SetsName(values[..|values| - 1], name) <==> Any(values[..|values| - 1], p);
    AnySnoc(values, p);
  }

  /** Last wins: the extracted value of a name is the one from the last
      value that sets it. */
  lemma {:induction false} ExtractedLastWins(values: seq<string>, i: nat, name: string)
    requires i < |values| && Names(values[i], name)
    requires forall j :: i < j < |values| ==> !Names(values[j], name)
    ensures Dictionary.Get(Extracted(values), name) == Some(ParseSetCookie(values[i]).value.1)
  {
    var front := values[..|values| - 1];
    var d := Extracted(front);
    ExtractedValid(front);
    match ParseSetCookie(values[|values| - 1]) {
      case None =>
        ExtractedLastWins(front, i, name);
      case Some(p) =>
        Dictionary.PutGet(d, p.0, p.1);
        if i < |values| - 1 {
          ExtractedLastWins(front, i, name);
        }
    }
  }

  /** `ExtractCookiesFromResponse`. */
  method ExtractCookiesFromResponse(response: Reply) returns (result: Dictionary.Entries)
    ensures result == Extracted(response.setCookies)
  {
    var values := response.setCookies;
    result := [];
    for i := 0 to |values|
      invariant result == Extracted(values[..i])
    {
      assert values[..i + 1][..i] == values[..i];
      match ParseSetCookie(values[i]) {
        case None =>
        case Some(p) => result := Dictionary.Put(result, p.0, p.1);
      }
    }
    assert values[..|values|] == values;
  }

  /** The `i`th value is the first to set a cookie called `name`. */
  predicate FirstNaming(values: seq<string>, i: int, name: string)
  {
    0 <= i < |values| && Names(values[i], name) && forall j :: 0 <= j < i ==> !Names(values[j], name)
  }

  /** `GetCookiesFromResponse`: first wins, and "" when no value sets the
      name. */
  method GetCookiesFromResponse(response: Reply, nomeCookie: string) returns (cookie: string)
    ensures (forall i :: 0 <= i < |response.setCookies| ==> !Names(response.setCookies[i], nomeCookie)) ==> cookie == ""
    ensures forall i :: FirstNaming(response.setCookies, i, nomeCookie) ==> cookie == ParseSetCookie(response.setCookies[i]).value.1
  {
    var values := response.setCookies;
    cookie := "";
    var i := 0;
    while i < |values|
      invariant 0 <= i <= |values|
      invariant forall j :: 0 <= j < i ==> !Names(values[j], nomeCookie)
    {
      match ParseSetCookie(values[i]) {
        case None =>
        case Some(p) =>
          if p.0 == nomeCookie {
            cookie := p.1;
            return;
          }
      }
      i := i + 1;
    }
  }

  /** One entry of a `Cookie` header. */
  function Pair(e: (string, string)): string
  {
    e.0 + "=" + e.1 + ";"
  }

  /** The `Cookie` header for a jar: its entries in enumeration order. */
  function Serialize(d: Dictionary.Entries): string
  {
    if |d| == 0 then "" else Serialize(d[..|d| - 1]) + Pair(d[|d| - 1])
  }

  lemma {:induction false} SerializeCons(d: Dictionary.Entries)
    requires |d| > 0
    ensures Serialize(d) == Pair(d[0]) + Serialize(d[1..])
  {
    if |d| > 1 {
      SerializeCons(d[..|d| - 1]);
      assert d[..|d| - 1][1..] == d[1..][..|d| - 2];
    } else {
      assert d[..0] == [];
    }
  }

  /** Reading a `Cookie` header back: each `;`-terminated piece split at its
      first `=`; pieces without `=` and text after the last `;` are skipped. */
  function DecodeCookieHeader(f: string): Dictionary.Entries
    decreases |f|
  {
    match IndexOf(f, ';')
    case None => []
    case Some(i) =>
      var piece := f[..i];
      var rest := DecodeCookieHeader(f[i + 1..]);
      match IndexOf(piece, '=')
      case None => rest
      case Some(j) => [(piece[..j], piece[j + 1..])] + rest
  }

  /** A jar whose names hold no `=` or `;` and whose values hold no `;`. */
  predicate WellFormed(d: Dictionary.Entries)
  {
    forall i :: 0 <= i < |d| ==> '=' !in d[i].0 && ';' !in d[i].0 && ';' !in d[i].1
  }

  /** The header carries exactly the jar: decoding it gives back every entry,
      in order. */
  lemma {:induction false} SerializeDecode(d: Dictionary.Entries)
    requires WellFormed(d)
    ensures DecodeCookieHeader(Serialize(d)) == d
    decreases |d|
  {
    if |d| == 0 {
      assert IndexOf("", ';') == None;
    } else {
      SerializeCons(d);
      DecodeStep(d[0].0, d[0].1, Serialize(d[1..]));
      SerializeDecode(d[1..]);
    }
  }

  /** The first `name=value;` of a header decodes to its entry. */
  lemma DecodeStep(k: string, v: string, rest: string)
    requires '=' !in k && ';' !in k && ';' !in v
    ensures DecodeCookieHeader((k + "=" + v) + ";" + rest) == [(k, v)] + DecodeCookieHeader(rest)
  {
    var piece := k + "=" + v;
    var f := piece + ";" + rest;
    assert f[..|piece|] == piece && f[|piece| + 1..] == rest;
    IndexOfAt(f, ';', |piece|);
    assert piece[..|k|] == k && piece[|k| + 1..] == v;
    IndexOfAt(piece, '=', |k|);
  }

  /** Every entry contributes `name=value;`, so a non-empty header ends
      in `;`, and its length is the sum of the entries' lengths plus two
      per entry. */
  lemma {:induction false} SerializeShape(d: Dictionary.Entries)
    ensures |d| > 0 ==> |Serialize(d)| > 0 && Serialize(d)[|Serialize(d)| - 1] == ';'
    ensures |Serialize(d)| == EntriesLength(d) + 2 * |d|
  {
    if |d| > 0 { SerializeShape(d[..|d| - 1]); }
  }

  function EntriesLength(d: Dictionary.Entries): nat
  {
    if |d| == 0 then 0 else EntriesLength(d[..|d| - 1]) + |d[|d| - 1].0| + |d[|d| - 1].1|
  }

  /** `PutCookiesOnRequest`: an empty jar leaves the request as it was;
      otherwise the request ends with exactly one `Cookie` header, the
      serialised jar, whatever it had before. */
  method PutCookiesOnRequest(request: HttpRequestMessage, cookies: Dictionary.Entries) returns (r: HttpRequestMessage)
    requires Dictionary.Valid(cookies)
    modifies request
    ensures r == request
    ensures |cookies| == 0 ==> request.headers == old(request.headers)
    ensures |cookies| > 0 ==> request.headers == old(request.headers)["Cookie" := [Serialize(cookies)]]
    ensures request.content == old(request.content)
  {
    if |cookies| == 0 {
      return request;
    }
    if request.Contains("Cookie") {
      request.RemoveHeader("Cookie");
    }
    var formatCookies := "";
    var keys := Dictionary.Keys(cookies);
    for i := 0 to |keys|
      invariant formatCookies == Serialize(cookies[..i])
      invariant request.headers == old(request.headers) - {"Cookie"}
      invariant request.content == old(request.content)
    {
      Dictionary.ValidGet(cookies, keys[i], cookies[i].1);
      var value := Dictionary.Get(cookies, keys[i]).value;
      assert cookies[..i + 1][..i] == cookies[..i];
      formatCookies := formatCookies + keys[i] + "=" + value + ";";
    }
    assert cookies[..|keys|] == cookies;
    assert "Cookie" !in request.headers;
    ghost var before := request.headers;
    request.AddHeader("Cookie", formatCookies);
    assert [] + [formatCookies] == [formatCookies];
    assert request.headers == before["Cookie" := [formatCookies]];
    assert request.headers == (old(request.headers) - {"Cookie"})["Cookie" := [formatCookies]];
    return request;
  }

  /** `CopyCookiesFromResponse`: the extracted jar put on the request. */
  method CopyCookiesFromResponse(request: HttpRequestMessage, response: Reply) returns (r: HttpRequestMessage)
    modifies request
    ensures r == request
    ensures var jar := Extracted(response.setCookies);
      request.headers == if |jar| == 0 then old(request.headers) else old(request.headers)["Cookie" := [Serialize(jar)]]
    ensures request.content == old(request.content)
  {
    var jar := ExtractCookiesFromResponse(response);
    ExtractedValid(response.setCookies);
    r := PutCookiesOnRequest(request, jar);
  }
}
