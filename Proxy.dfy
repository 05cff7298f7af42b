/**
 * The request pipeline: fetch the remote resource under the byte cap,
 * assemble the forwarded headers, and hand the body to the transcode
 * stage, or to the single-image path when `static` is present.
 */
module Proxy {
  import opened Wrappers
  import opened Bytes
  import opened Headers
  import opened Fetch
  import opened Frames
  import opened Codec
  import opened Transcode

  /** What the upstream server sent once the request went out: headers, declared length, body stream. */
  datatype Upstream = Upstream(headers: HeaderMap, contentLength: Option<nat>, chunks: seq<Chunk>)

  /**
   * The headers every fetched response starts from: the requested URL,
   * every upstream Content-Disposition value, every upstream Content-Type
   * value, then the fixed content-security policy.
   */
  function ForwardedHeaders(url: string, remote: HeaderMap): HeaderMap {
    EMPTY.Append(REMOTE_URL, url)
      .AppendAll(CONTENT_DISPOSITION, remote.GetAll(CONTENT_DISPOSITION))
      .AppendAll(CONTENT_TYPE, remote.GetAll(CONTENT_TYPE))
      .Append(CONTENT_SECURITY_POLICY, CSP_POLICY)
  }

  /**
   * The forwarded headers hold the URL once, the upstream disposition and
   * content-type values in their upstream order, the policy once, and
   * nothing else.
   */
  lemma ForwardedContents(url: string, remote: HeaderMap, k: string)
    ensures ForwardedHeaders(url, remote).GetAll(k) ==
      if k == REMOTE_URL then [url]
      else if k == CONTENT_DISPOSITION || k == CONTENT_TYPE then remote.GetAll(k)
      else if k == CONTENT_SECURITY_POLICY then [CSP_POLICY]
      else []
  {
    var h3 := EMPTY.Append(REMOTE_URL, url)
      .AppendAll(CONTENT_DISPOSITION, remote.GetAll(CONTENT_DISPOSITION))
      .AppendAll(CONTENT_TYPE, remote.GetAll(CONTENT_TYPE));
    var h4 := h3.Append(CONTENT_SECURITY_POLICY, CSP_POLICY);
    assert ForwardedHeaders(url, remote) == h4;
    assert h4.GetAll(k) == h3.GetAll(k) + (if k == CONTENT_SECURITY_POLICY then [CSP_POLICY] else []);
    ForwardedPrefix(url, remote, k);
    ForwardedNamesDistinct();
    if k == REMOTE_URL {
      assert h4.GetAll(k) == [url];
    } else if k == CONTENT_DISPOSITION || k == CONTENT_TYPE {
      assert h4.GetAll(k) == remote.GetAll(k);
    } else if k == CONTENT_SECURITY_POLICY {
      assert h4.GetAll(k) == [CSP_POLICY];
    } else {
      assert h4.GetAll(k) == [];
    }
  }

  /** The first three steps of ForwardedHeaders: the URL, the upstream disposition values, the upstream content types. */
  lemma ForwardedPrefix(url: string, remote: HeaderMap, k: string)
    ensures EMPTY.Append(REMOTE_URL, url)
      .AppendAll(CONTENT_DISPOSITION, remote.GetAll(CONTENT_DISPOSITION))
      .AppendAll(CONTENT_TYPE, remote.GetAll(CONTENT_TYPE)).GetAll(k) ==
      (if k == REMOTE_URL then [url] else [])
      + (if k == CONTENT_DISPOSITION then remote.GetAll(k) else [])
      + (if k == CONTENT_TYPE then remote.GetAll(k) else [])
  {
    var h1 := EMPTY.Append(REMOTE_URL, url);
    var h2 := h1.AppendAll(CONTENT_DISPOSITION, remote.GetAll(CONTENT_DISPOSITION));
    assert EMPTY.GetAll(k) == [];
    GetAllAppendAll(h1, CONTENT_DISPOSITION, remote.GetAll(CONTENT_DISPOSITION), k);
    GetAllAppendAll(h2, CONTENT_TYPE, remote.GetAll(CONTENT_TYPE), k);
  }

  /** The four names the fetch stage writes are pairwise different. */
  lemma ForwardedNamesDistinct()
    ensures REMOTE_URL != CONTENT_DISPOSITION && REMOTE_URL != CONTENT_TYPE
    ensures REMOTE_URL != CONTENT_SECURITY_POLICY && CONTENT_DISPOSITION != CONTENT_TYPE
    ensures CONTENT_DISPOSITION != CONTENT_SECURITY_POLICY && CONTENT_TYPE != CONTENT_SECURITY_POLICY
  {
  }

  /** add_remote_header: append every upstream value of `key`, in order. */
  method AddRemoteHeader(key: string, headers: HeaderMap, remote: HeaderMap) returns (out: HeaderMap)
    ensures out == headers.AppendAll(key, remote.GetAll(key))
  {
    var values := remote.GetAll(key);
    out := headers;
    for i := 0 to |values|
      invariant out.AppendAll(key, values[i..]) == headers.AppendAll(key, values)
    {
      assert values[i..][1..] == values[i + 1..];
      out := out.Append(key, values[i]);
    }
    assert values[|values|..] == [];
  }

  /**
   * get_file as a value: a failed send answers 400 with only the URL
   * header; a declared length above the cap answers 502 before the body
   * is read; a chunk that would take the total above the cap answers 502;
   * a stream error answers 502 with the error; a complete body goes to the
   * single-image path when `static` is present, whatever its value, and to
   * the transcode stage otherwise.
   */
  function Serve(url: string, staticParam: Option<string>, maxSize: nat,
                 upstream: Result<Upstream, seq<byte>>, codecs: Codecs): Response
  {
    match upstream
    case Failure(e) => Response(STATUS_BAD_REQUEST, EMPTY.Append(REMOTE_URL, url), e)
    case Success(up) =>
      var headers := ForwardedHeaders(url, up.headers);
      if LengthHint(up.contentLength, maxSize) > maxSize then Response(STATUS_BAD_GATEWAY, headers, [])
      else match Accumulate(up.chunks, maxSize)
        case TooLarge => Response(STATUS_BAD_GATEWAY, headers, [])
        case Broken(e) => Response(STATUS_BAD_GATEWAY, headers, e)
        case Complete(body) => Dispatch(headers, staticParam, body, codecs)
  }

  /** The step after a complete read: the single-image path when `static` is present, the transcode stage otherwise. */
  function Dispatch(headers: HeaderMap, staticParam: Option<string>, body: seq<byte>, codecs: Codecs): Response {
    if staticParam.Some? then EncodeSingle(headers, body, codecs)
    else EncodeResponse(headers, body, codecs)
  }

  /**
   * The step after the read changes no header other than the diagnostics
   * and the content type, and the content type only into `image/webp` on a
   * 200 answer.
   */
  lemma DispatchKeepsHeaders(headers: HeaderMap, staticParam: Option<string>, body: seq<byte>,
                             codecs: Codecs, k: string)
    requires k != CODEC_ERROR && k != PROXY_ERROR
    ensures var r := Dispatch(headers, staticParam, body, codecs);
      && (k != CONTENT_TYPE ==> r.headers.GetAll(k) == headers.GetAll(k))
      && (|| r.headers.GetAll(CONTENT_TYPE) == headers.GetAll(CONTENT_TYPE)
          || (r.status == STATUS_OK && r.headers.GetAll(CONTENT_TYPE) == [WEBP_TYPE]))
  {
    var r := Dispatch(headers, staticParam, body, codecs);
    if staticParam.None? {
      EncodeOutcomes(headers, body, codecs);
    }
    if Transcoded(headers, r) {
      assert r.headers.GetAll(k) == if k == CONTENT_TYPE then [WEBP_TYPE] else headers.GetAll(k);
      assert r.headers.GetAll(CONTENT_TYPE) == [WEBP_TYPE];
    } else if Degraded(headers, body, r) {
      assert r.headers.GetAll(k) == headers.GetAll(k);
      assert r.headers.GetAll(CONTENT_TYPE) == headers.GetAll(CONTENT_TYPE);
    } else {
      assert r.headers.GetAll(k) == headers.GetAll(k) + (if k == PROXY_ERROR then [NO_AVAILABLE_FRAMES] else []);
      assert r.headers.GetAll(CONTENT_TYPE) == headers.GetAll(CONTENT_TYPE)
        + (if CONTENT_TYPE == PROXY_ERROR then [NO_AVAILABLE_FRAMES] else []);
    }
  }

  /**
   * The body-reading loop of get_file: append each data chunk while the
   * running total stays within the cap, stop at the first chunk that would
   * exceed it or at the first stream error.
   */
  method ReadBody(chunks: seq<Chunk>, maxSize: nat) returns (outcome: BodyOutcome)
    ensures outcome == Accumulate(chunks, maxSize)
  {
    var responseBytes: seq<byte> := [];
    var i := 0;
    assert chunks[0..] == chunks;
    while i < |chunks|
      invariant 0 <= i <= |chunks|
      invariant |responseBytes| <= maxSize
      invariant Accumulate(chunks, maxSize)
             == Accumulate(chunks[i..], maxSize - |responseBytes|).After(responseBytes)
    {
      AccumulateFrom(chunks, i, maxSize - |responseBytes|);
      if chunks[i].StreamError? {
        return Broken(chunks[i].detail);
      }
      var b := chunks[i].bytes;
      if |responseBytes| + |b| > maxSize {
        return TooLarge;
      }
      AfterAfter(Accumulate(chunks[i + 1..], maxSize - |responseBytes| - |b|), responseBytes, b);
      responseBytes := responseBytes + b;
      i := i + 1;
    }
    assert chunks[i..] == [];
    outcome := Complete(responseBytes);
  }

  /** get_file: the request handler, reading the body stream chunk by chunk. */
  method GetFile(url: string, staticParam: Option<string>, maxSize: nat,
                 upstream: Result<Upstream, seq<byte>>, codecs: Codecs) returns (resp: Response)
    ensures resp == Serve(url, staticParam, maxSize, upstream, codecs)
  {
    var headers := EMPTY.Append(REMOTE_URL, url);
    if upstream.Failure? {
      return Response(STATUS_BAD_REQUEST, headers, upstream.error);
    }
    var up := upstream.value;
    headers := AddRemoteHeader(CONTENT_DISPOSITION, headers, up.headers);
    headers := AddRemoteHeader(CONTENT_TYPE, headers, up.headers);
    headers := headers.Append(CONTENT_SECURITY_POLICY, CSP_POLICY);
    var lenHint := LengthHint(up.contentLength, maxSize);
    assert headers == ForwardedHeaders(url, up.headers);
    if lenHint > maxSize {
      return Response(STATUS_BAD_GATEWAY, headers, []);
    }
    var read := ReadBody(up.chunks, maxSize);
    match read
    case TooLarge =>
      resp := Response(STATUS_BAD_GATEWAY, headers, []);
    case Broken(e) =>
      resp := Response(STATUS_BAD_GATEWAY, headers, e);
    case Complete(responseBytes) =>
      if staticParam.Some? {
        resp := EncodeSingle(headers, responseBytes, codecs);
      } else {
        resp := Encode(headers, responseBytes, codecs);
      }
      assert resp == Dispatch(headers, staticParam, responseBytes, codecs);
  }

  /** A failed send answers 400 with the error; the URL is the only header, the policy is not yet there. */
  lemma SendFailure(url: string, staticParam: Option<string>, maxSize: nat, e: seq<byte>, codecs: Codecs, k: string)
    ensures Serve(url, staticParam, maxSize, Failure(e), codecs).status == STATUS_BAD_REQUEST
    ensures Serve(url, staticParam, maxSize, Failure(e), codecs).body == e
    ensures Serve(url, staticParam, maxSize, Failure(e), codecs).headers.GetAll(k)
         == if k == REMOTE_URL then [url] else []
  {
  }

  /**
   * A declared length above the cap answers 502 with no body, whatever the
   * stream holds and whatever the codecs would do: no chunk is consumed.
   */
  lemma DeclaredLengthTooLarge(url: string, staticParam: Option<string>, maxSize: nat,
                               up: Upstream, n: nat, other: seq<Chunk>, codecs: Codecs, codecs': Codecs)
    requires up.contentLength == Some(n) && n > maxSize
    ensures Serve(url, staticParam, maxSize, Success(up), codecs).status == STATUS_BAD_GATEWAY
    ensures Serve(url, staticParam, maxSize, Success(up), codecs).body == []
    ensures Serve(url, staticParam, maxSize, Success(up), codecs)
         == Serve(url, staticParam, maxSize, Success(up.(chunks := other)), codecs')
  {
  }

  /**
   * A stream error at the first chunk that is not data, with the data
   * before it within the cap, answers 502 with the error as body and never
   * reaches a codec.
   */
  lemma StreamErrorAnswers(url: string, staticParam: Option<string>, maxSize: nat,
                           up: Upstream, i: nat, codecs: Codecs, codecs': Codecs)
    requires LengthHint(up.contentLength, maxSize) <= maxSize
    requires i < |up.chunks| && up.chunks[i].StreamError?
    requires AllData(up.chunks[..i]) && |Flatten(up.chunks[..i])| <= maxSize
    ensures Serve(url, staticParam, maxSize, Success(up), codecs)
         == Response(STATUS_BAD_GATEWAY, ForwardedHeaders(url, up.headers), up.chunks[i].detail)
    ensures Serve(url, staticParam, maxSize, Success(up), codecs)
         == Serve(url, staticParam, maxSize, Success(up), codecs')
  {
    AccumulateStreamError(up.chunks, i, maxSize);
  }

  /**
   * The body handed to any codec is the in-order concatenation of the
   * chunks, all of which were data, and it is no larger than the cap.
   */
  lemma FetchedBody(maxSize: nat, up: Upstream)
    requires Accumulate(up.chunks, maxSize).Complete?
    ensures AllData(up.chunks)
    ensures Accumulate(up.chunks, maxSize).body == Flatten(up.chunks)
    ensures |Flatten(up.chunks)| <= maxSize
  {
    AccumulateComplete(up.chunks, maxSize);
  }

  /**
   * With `static` present, whatever its value, a fetched body takes the
   * single-image path: the answer is 200 and does not depend on the
   * sniffer or on the animated encoder.
   */
  lemma StaticIsSingle(url: string, s: string, maxSize: nat, up: Upstream, codecs: Codecs,
                       sniff': seq<byte> -> Sniffed, convert': TimedFrame -> bool,
                       encodeAnim': (nat, nat, seq<TimedFrame>) -> seq<byte>)
    requires LengthHint(up.contentLength, maxSize) <= maxSize
    requires AllData(up.chunks) && |Flatten(up.chunks)| <= maxSize
    ensures Serve(url, Some(s), maxSize, Success(up), codecs)
         == EncodeSingle(ForwardedHeaders(url, up.headers), Flatten(up.chunks), codecs)
    ensures Serve(url, Some(s), maxSize, Success(up), codecs).status == STATUS_OK
    ensures Serve(url, Some(s), maxSize, Success(up), codecs)
         == Serve(url, Some(s), maxSize, Success(up),
                  codecs.(sniff := sniff', convertFrame := convert', encodeAnim := encodeAnim'))
  {
    AccumulateComplete(up.chunks, maxSize);
  }

  /**
   * Without `static`, a body whose format cannot be guessed answers 200
   * with exactly the fetched bytes and the sniffer's error appended under
   * X-Codec-Error.
   */
  lemma UnrecognisedPassesThrough(url: string, maxSize: nat, up: Upstream, codecs: Codecs)
    requires LengthHint(up.contentLength, maxSize) <= maxSize
    requires AllData(up.chunks) && |Flatten(up.chunks)| <= maxSize
    requires codecs.sniff(Flatten(up.chunks)).Unrecognised?
    ensures var r := Serve(url, None, maxSize, Success(up), codecs);
      && r.status == STATUS_OK
      && r.body == Flatten(up.chunks)
      && Diagnosed(ForwardedHeaders(url, up.headers), r, CODEC_ERROR, codecs.sniff(Flatten(up.chunks)).detail)
  {
    AccumulateComplete(up.chunks, maxSize);
    EncodeOutcomes(ForwardedHeaders(url, up.headers), Flatten(up.chunks), codecs);
  }

  /**
   * Once the upstream answered, every response keeps the URL, the
   * forwarded Content-Disposition values in upstream order and the policy
   * header; its content type is either the forwarded values untouched or,
   * on a successful transcode with status 200, exactly `image/webp`.
   */
  lemma ForwardedHeadersSurvive(url: string, staticParam: Option<string>, maxSize: nat,
                                up: Upstream, codecs: Codecs)
    ensures var r := Serve(url, staticParam, maxSize, Success(up), codecs);
      && r.headers.GetAll(REMOTE_URL) == [url]
      && r.headers.GetAll(CONTENT_DISPOSITION) == up.headers.GetAll(CONTENT_DISPOSITION)
      && r.headers.GetAll(CONTENT_SECURITY_POLICY) == [CSP_POLICY]
      && (|| r.headers.GetAll(CONTENT_TYPE) == up.headers.GetAll(CONTENT_TYPE)
          || (r.status == STATUS_OK && r.headers.GetAll(CONTENT_TYPE) == [WEBP_TYPE]))
  {
    var h := ForwardedHeaders(url, up.headers);
    ForwardedContents(url, up.headers, REMOTE_URL);
    ForwardedContents(url, up.headers, CONTENT_DISPOSITION);
    ForwardedContents(url, up.headers, CONTENT_SECURITY_POLICY);
    ForwardedContents(url, up.headers, CONTENT_TYPE);
    if LengthHint(up.contentLength, maxSize) <= maxSize && Accumulate(up.chunks, maxSize).Complete? {
      var body := Accumulate(up.chunks, maxSize).body;
      DispatchKeepsHeaders(h, staticParam, body, codecs, REMOTE_URL);
      DispatchKeepsHeaders(h, staticParam, body, codecs, CONTENT_DISPOSITION);
      DispatchKeepsHeaders(h, staticParam, body, codecs, CONTENT_SECURITY_POLICY);
    }
  }
}
