/**
 * Responses (yaaf/responses.py): the response value, its header list, and the normalisation of
 * whatever a handler returns into a response.
 */
module Responses {
  import opened Wrappers
  import opened Text

  newtype byte = x: int | 0 <= x < 256

  type Bytes = seq<byte>

  /** `Response(body, status, headers)`; `headers` is `None` or a list of encoded pairs. */
  datatype Response = Response(body: Bytes, status: int, headers: Option<seq<(Bytes, Bytes)>>)
  {
    /** `with_status`: the same body and headers under another status. */
    function WithStatus(status': int): (r: Response)
      ensures r.body == body && r.headers == headers && r.status == status'
    {
      Response(body, status', headers)
    }
  }

  /**
   * What a handler may return. `Tuple` is any tuple, `Dict` and `List` the JSON containers, and
   * `Other` every remaining value (numbers, None, objects), known to the model only by `str`.
   */
  datatype Value =
    | Resp(response: Response)
    | Raw(bytes: Bytes)
    | Str(text: string)
    | Tuple(items: seq<Value>)
    | Dict(entries: seq<(Value, Value)>)
    | List(elements: seq<Value>)
    | Other(id: nat)

  /**
   * The library calls the module makes: `str.encode()`, `json.dumps(v, ensure_ascii=True)`,
   * `str(v)` and `int(v)` (`None` where `int` raises).
   */
  datatype Library = Library(
    encode: string -> Bytes,
    jsonDumps: Value -> string,
    str: Value -> string,
    toInt: Value -> Option<int>)

  /** `base_headers` after the optional `extend`: the content type, then the extras. */
  function BaseHeaders(mediaType: string, headers: Option<seq<(string, string)>>): seq<(string, string)>
  {
    [("content-type", mediaType)] + (if headers.Some? then headers.value else [])
  }

  /** `_with_type`: the body with its content type, the extra headers and its content length. */
  function WithType(body: Bytes, mediaType: string, status: int, headers: Option<seq<(string, string)>>, encode: string -> Bytes): Response
  {
    var encoded := ConvertPairs(BaseHeaders(mediaType, headers), encode);
    Response(body, status, Some(encoded + [(encode("content-length"), encode(Decimal(|body|)))]))
  }

  /** `_with_type` step by step: the base list, the `extend`, the encoding, the `append`. */
  method BuildResponse(body: Bytes, mediaType: string, status: int, headers: Option<seq<(string, string)>>, encode: string -> Bytes)
    returns (r: Response)
    ensures r == WithType(body, mediaType, status, headers, encode)
  {
    var baseHeaders := [("content-type", mediaType)];
    if headers.Some? && headers.value != [] {
      baseHeaders := baseHeaders + headers.value;
    }
    assert baseHeaders == BaseHeaders(mediaType, headers);
    var encoded: seq<(Bytes, Bytes)> := [];
    for i := 0 to |baseHeaders|
      invariant encoded == ConvertPairs(baseHeaders[..i], encode)
    {
      encoded := encoded + [(encode(baseHeaders[i].0), encode(baseHeaders[i].1))];
    }
    assert baseHeaders[..|baseHeaders|] == baseHeaders;
    encoded := encoded + [(encode("content-length"), encode(Decimal(|body|)))];
    return Response(body, status, Some(encoded));
  }

  /**
   * The header list `_with_type` builds: the content type first, then every extra header in the
   * given order, then a content length whose digits spell `len(body)`.
   */
  lemma WithTypeHeaders(body: Bytes, mediaType: string, status: int, headers: Option<seq<(string, string)>>, encode: string -> Bytes)
    ensures var r := WithType(body, mediaType, status, headers, encode);
      var extras := if headers.Some? then headers.value else [];
      && r.body == body && r.status == status && r.headers.Some?
      && |r.headers.value| == |extras| + 2
      && r.headers.value[0] == (encode("content-type"), encode(mediaType))
      && (forall i :: 0 <= i < |extras| ==> r.headers.value[i + 1] == (encode(extras[i].0), encode(extras[i].1)))
      && r.headers.value[|extras| + 1] == (encode("content-length"), encode(Decimal(|body|)))
      && DecimalValue(Decimal(|body|)) == |body|
  {
    WithTypeEnds(body, mediaType, status, headers, encode);
    WithTypeExtras(body, mediaType, status, headers, encode);
    DecimalRoundTrip(|body|);
  }

  /** The headers start with the content type and end with the content length. */
  lemma WithTypeEnds(body: Bytes, mediaType: string, status: int, headers: Option<seq<(string, string)>>, encode: string -> Bytes)
    ensures var r := WithType(body, mediaType, status, headers, encode);
      var extras := if headers.Some? then headers.value else [];
      && r.body == body && r.status == status && r.headers.Some?
      && |r.headers.value| == |extras| + 2
      && r.headers.value[0] == (encode("content-type"), encode(mediaType))
      && r.headers.value[|extras| + 1] == (encode("content-length"), encode(Decimal(|body|)))
  {
    var enc := ConvertPairs(BaseHeaders(mediaType, headers), encode);
    assert WithType(body, mediaType, status, headers, encode).headers.value == enc + [(encode("content-length"), encode(Decimal(|body|)))];
  }

  /** Between them come the extra headers, encoded, in their given order. */
  lemma WithTypeExtras(body: Bytes, mediaType: string, status: int, headers: Option<seq<(string, string)>>, encode: string -> Bytes)
    ensures var r := WithType(body, mediaType, status, headers, encode);
      var extras := if headers.Some? then headers.value else [];
      && r.headers.Some? && |r.headers.value| == |extras| + 2
      && forall i :: 0 <= i < |extras| ==> r.headers.value[i + 1] == (encode(extras[i].0), encode(extras[i].1))
  {
    var extras := if headers.Some? then headers.value else [];
    var base := BaseHeaders(mediaType, headers);
    var enc := ConvertPairs(base, encode);
    var hs := enc + [(encode("content-length"), encode(Decimal(|body|)))];
    assert WithType(body, mediaType, status, headers, encode).headers.value == hs;
    forall i | 0 <= i < |extras|
      ensures hs[i + 1] == (encode(extras[i].0), encode(extras[i].1))
    {
      assert base[i + 1] == extras[i];
      assert hs[i + 1] == enc[i + 1];
    }
  }

  /** `Response.text`: the encoded text as `text/plain`. */
  function PlainText(content: string, status: int, headers: Option<seq<(string, string)>>, lib: Library): Response
  {
    WithType(lib.encode(content), "text/plain; charset=utf-8", status, headers, lib.encode)
  }

  /** `Response.json`: the encoded JSON text as `application/json`. */
  function JsonBody(content: Value, status: int, headers: Option<seq<(string, string)>>, lib: Library): Response
  {
    WithType(lib.encode(lib.jsonDumps(content)), "application/json", status, headers, lib.encode)
  }

  /** What `int(status)` raises in the 2-tuple case. */
  datatype ResponseError = BadStatus(status: Value)

  /** `as_response`: the case analysis, with the 2-tuple `(body, status)` unwrapped recursively. */
  function AsResponse(v: Value, lib: Library): Result<Response, ResponseError>
  {
    match v
    case Resp(r) => Success(r)
    case Raw(b) => Success(WithType(b, "application/octet-stream", 200, None, lib.encode))
    case Str(s) => Success(PlainText(s, 200, None, lib))
    case Tuple(items) =>
      if |items| == 2 then
        match AsResponse(items[0], lib)
        case Failure(e) => Failure(e)
        case Success(r) =>
          match lib.toInt(items[1])
          case None => Failure(BadStatus(items[1]))
          case Some(n) => Success(r.WithStatus(n))
      else Success(PlainText(lib.str(v), 200, None, lib))
    case Dict(_) => Success(JsonBody(v, 200, None, lib))
    case List(_) => Success(JsonBody(v, 200, None, lib))
    case Other(_) => Success(PlainText(lib.str(v), 200, None, lib))
  }

  /** The content-type header of a response built by `_with_type`, if any. */
  function ContentType(r: Response): Option<Bytes>
  {
    if r.headers.Some? && |r.headers.value| > 0 then Some(r.headers.value[0].1) else None
  }

  /** A successful normalisation into status 200 with the given body and content type. */
  predicate Yields(r: Result<Response, ResponseError>, body: Bytes, contentType: Bytes)
  {
    r.Success? && r.value.body == body && r.value.status == 200 && ContentType(r.value) == Some(contentType)
  }

  /** Each kind of value and the response it becomes. */
  lemma AsResponseCases(v: Value, lib: Library)
    ensures v.Resp? ==> AsResponse(v, lib) == Success(v.response)
    ensures v.Raw? ==>
      Yields(AsResponse(v, lib), v.bytes, lib.encode("application/octet-stream"))
    ensures v.Str? ==>
      Yields(AsResponse(v, lib), lib.encode(v.text), lib.encode("text/plain; charset=utf-8"))
    ensures v.Dict? || v.List? ==>
      Yields(AsResponse(v, lib), lib.encode(lib.jsonDumps(v)), lib.encode("application/json"))
    ensures v.Other? || (v.Tuple? && |v.items| != 2) ==>
      Yields(AsResponse(v, lib), lib.encode(lib.str(v)), lib.encode("text/plain; charset=utf-8"))
  {
  }

  /**
   * A 2-tuple `(body, status)` is the response for `body` under status `int(status)`, with the
   * same body and headers; it fails exactly when the inner value fails or `int` raises.
   */
  lemma TupleUnwraps(body: Value, status: Value, lib: Library)
    ensures var r := AsResponse(Tuple([body, status]), lib);
      && (r.Success? <==> AsResponse(body, lib).Success? && lib.toInt(status).Some?)
      && (r.Success? ==>
            && r.value.status == lib.toInt(status).value
            && r.value.body == AsResponse(body, lib).value.body
            && r.value.headers == AsResponse(body, lib).value.headers)
  {
  }

  /** In nested pairs the outermost status wins: `((v, s1), s2)` has status `int(s2)`. */
  lemma OuterStatusWins(v: Value, s1: Value, s2: Value, lib: Library)
    requires AsResponse(v, lib).Success? && lib.toInt(s1).Some? && lib.toInt(s2).Some?
    ensures AsResponse(Tuple([Tuple([v, s1]), s2]), lib)
      == Success(AsResponse(v, lib).value.WithStatus(lib.toInt(s2).value))
  {
    TupleUnwraps(v, s1, lib);
    TupleUnwraps(Tuple([v, s1]), s2, lib);
  }

  /** Normalising a response is the identity, so normalising twice changes nothing. */
  lemma AsResponseIdempotent(v: Value, lib: Library)
    requires AsResponse(v, lib).Success?
    ensures AsResponse(Resp(AsResponse(v, lib).value), lib) == AsResponse(v, lib)
  {
  }

  /** `as_response(("nope", 404))`: status 404 and the encoded "nope" as the body. */
  lemma TupleStatusExample(lib: Library)
    requires lib.toInt(Other(404)) == Some(404)
    ensures AsResponse(Tuple([Str("nope"), Other(404)]), lib).Success?
    ensures AsResponse(Tuple([Str("nope"), Other(404)]), lib).value.status == 404
    ensures AsResponse(Tuple([Str("nope"), Other(404)]), lib).value.body == lib.encode("nope")
  {
    TupleUnwraps(Str("nope"), Other(404), lib);
  }
}
