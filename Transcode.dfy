/**
 * The transcode stage: the response envelope, the single-image encoder,
 * the animated encoder and the format dispatch that chooses between them.
 */
module Transcode {
  import opened Wrappers
  import opened Headers
  import opened Bytes
  import opened Frames
  import opened Codec

  const STATUS_OK: nat := 200
  const STATUS_BAD_REQUEST: nat := 400
  const STATUS_BAD_GATEWAY: nat := 502

  // Header names, in the canonical lower-case form the header map stores.
  const REMOTE_URL := "x-remote-url"
  const CONTENT_DISPOSITION := "content-disposition"
  const CONTENT_TYPE := "content-type"
  const CONTENT_SECURITY_POLICY := "content-security-policy"
  const CODEC_ERROR := "x-codec-error"
  const PROXY_ERROR := "x-proxy-error"

  const CSP_POLICY := "default-src 'none'; img-src 'self'; media-src 'self'; style-src 'unsafe-inline'"
  const WEBP_TYPE := "image/webp"
  const NO_AVAILABLE_FRAMES := "NoAvailableFrames"
  const DECODE_ERROR_TAG := "DecodeError_"
  const ENCODE_ERROR_TAG := "EncodeError_"

  /**
   * The (status, headers, body) tuple a handler returns, before the web
   * framework turns it into an HTTP response (which may add a default
   * content type when the header map has none).
   */
  datatype Response = Response(status: nat, headers: HeaderMap, body: seq<byte>)

  /** `r` carries `h` plus exactly one more value, `value` under `key`, at the end of that key's list. */
  ghost predicate Diagnosed(h: HeaderMap, r: Response, key: string, value: string) {
    forall k :: r.headers.GetAll(k) == h.GetAll(k) + (if k == key then [value] else [])
  }

  /** A successful transcode: status 200, one content type `image/webp`, every other header of `h` as it was. */
  ghost predicate Transcoded(h: HeaderMap, r: Response) {
    && r.status == STATUS_OK
    && forall k :: r.headers.GetAll(k) == if k == CONTENT_TYPE then [WEBP_TYPE] else h.GetAll(k)
  }

  /** A degraded answer: status 200, the original bytes, and only diagnostic headers added to `h`. */
  ghost predicate Degraded(h: HeaderMap, body: seq<byte>, r: Response) {
    && r.status == STATUS_OK
    && r.body == body
    && forall k :: k != CODEC_ERROR && k != PROXY_ERROR ==> r.headers.GetAll(k) == h.GetAll(k)
  }

  /** The animated encoder found no frame to buffer: 502, no body, the NoAvailableFrames tag. */
  ghost predicate NoFrames(h: HeaderMap, r: Response) {
    && r.status == STATUS_BAD_GATEWAY
    && r.body == []
    && Diagnosed(h, r, PROXY_ERROR, NO_AVAILABLE_FRAMES)
  }

  lemma AppendDiagnoses(h: HeaderMap, key: string, value: string, status: nat, body: seq<byte>)
    ensures Diagnosed(h, Response(status, h.Append(key, value), body), key, value)
  {
    forall k ensures h.Append(key, value).GetAll(k) == h.GetAll(k) + (if k == key then [value] else []) {
    }
  }

  lemma WebPContentType(h: HeaderMap, body: seq<byte>)
    ensures Transcoded(h, Response(STATUS_OK, h.Remove(CONTENT_TYPE).Append(CONTENT_TYPE, WEBP_TYPE), body))
  {
    forall k ensures h.Remove(CONTENT_TYPE).Append(CONTENT_TYPE, WEBP_TYPE).GetAll(k)
                  == if k == CONTENT_TYPE then [WEBP_TYPE] else h.GetAll(k) {
      ReplaceValues(h, CONTENT_TYPE, WEBP_TYPE, k);
    }
  }

  /**
   * The single-image path: decode with full format detection, resize,
   * encode to WebP. A decode or encode failure answers 200 with the
   * original bytes and a tagged X-Proxy-Error; success answers 200 with the
   * WebP bytes and the content type replaced by `image/webp`.
   */
  function EncodeSingle(headers: HeaderMap, body: seq<byte>, codecs: Codecs): (r: Response)
    ensures r.status == STATUS_OK
    ensures codecs.load(body).Failure? ==>
      r.body == body && Diagnosed(headers, r, PROXY_ERROR, DECODE_ERROR_TAG + codecs.load(body).error)
    ensures codecs.load(body).Success? && codecs.writeWebP(codecs.load(body).value).Failure? ==>
      r.body == body
      && Diagnosed(headers, r, PROXY_ERROR, ENCODE_ERROR_TAG + codecs.writeWebP(codecs.load(body).value).error)
    ensures codecs.load(body).Success? && codecs.writeWebP(codecs.load(body).value).Success? ==>
      r.body == codecs.writeWebP(codecs.load(body).value).value && Transcoded(headers, r)
  {
    match codecs.load(body)
    case Failure(e) =>
      var tag := DECODE_ERROR_TAG + e;
      AppendDiagnoses(headers, PROXY_ERROR, tag, STATUS_OK, body);
      Response(STATUS_OK, headers.Append(PROXY_ERROR, tag), body)
    case Success(img) =>
      match codecs.writeWebP(Resize(img))
      case Success(buf) =>
        WebPContentType(headers, buf);
        Response(STATUS_OK, headers.Remove(CONTENT_TYPE).Append(CONTENT_TYPE, WEBP_TYPE), buf)
      case Failure(e) =>
        var tag := ENCODE_ERROR_TAG + e;
        AppendDiagnoses(headers, PROXY_ERROR, tag, STATUS_OK, body);
        Response(STATUS_OK, headers.Append(PROXY_ERROR, tag), body)
  }

  /**
   * The animated path as a value: the timeline of the decoded frames is
   * buffered; when it is empty the answer is 502 with NoAvailableFrames;
   * otherwise the frames that convert are encoded for the container's
   * canvas and the content type becomes `image/webp`.
   */
  function AnimResponse(headers: HeaderMap, anim: BoundedAnimation, codecs: Codecs): Response {
    var buffered := Timeline(anim.frames);
    if buffered == [] then
      Response(STATUS_BAD_GATEWAY, headers.Append(PROXY_ERROR, NO_AVAILABLE_FRAMES), [])
    else
      Response(STATUS_OK, headers.Remove(CONTENT_TYPE).Append(CONTENT_TYPE, WEBP_TYPE),
               codecs.encodeAnim(anim.width, anim.height, Accepted(buffered, codecs.convertFrame)))
  }

  /**
   * The animated encoder fails exactly when no frame decoded; otherwise it
   * is a successful transcode whose encoder received, in order, the
   * converting frames of the timeline.
   */
  lemma AnimOutcomes(headers: HeaderMap, anim: BoundedAnimation, codecs: Codecs)
    ensures var r := AnimResponse(headers, anim, codecs);
      && (NoFrames(headers, r) <==> forall i :: 0 <= i < |anim.frames| ==> anim.frames[i].Undecodable?)
      && (NoFrames(headers, r) || Transcoded(headers, r))
      && (Transcoded(headers, r) ==>
            r.body == codecs.encodeAnim(anim.width, anim.height, Accepted(Timeline(anim.frames), codecs.convertFrame)))
  {
    NothingKept(anim.frames);
    var r := AnimResponse(headers, anim, codecs);
    if Timeline(anim.frames) == [] {
      AppendDiagnoses(headers, PROXY_ERROR, NO_AVAILABLE_FRAMES, STATUS_BAD_GATEWAY, []);
      assert !Transcoded(headers, r);
    } else {
      WebPContentType(headers, r.body);
      assert !NoFrames(headers, r);
    }
  }

  /**
   * Emptiness is decided on the buffered frames, not on the frames the
   * encoder accepted: when frames decoded but none converts, the answer is
   * still 200 with whatever the encoder makes of no frames.
   */
  lemma NoConvertedFramesStillSucceeds(headers: HeaderMap, anim: BoundedAnimation, codecs: Codecs)
    requires exists i :: 0 <= i < |anim.frames| && anim.frames[i].Decoded?
    requires forall t :: t in Timeline(anim.frames) ==> !codecs.convertFrame(t)
    ensures AnimResponse(headers, anim, codecs).status == STATUS_OK
    ensures AnimResponse(headers, anim, codecs).body == codecs.encodeAnim(anim.width, anim.height, [])
  {
    NothingKept(anim.frames);
    var buffered := Timeline(anim.frames);
    var accepted := Accepted(buffered, codecs.convertFrame);
    if accepted != [] {
      AcceptedMembership(buffered, codecs.convertFrame, accepted[0]);
      assert false;
    }
  }

  /**
   * The first loop of encode_anim: walk the decoder's frames, skip those
   * that failed, add each kept frame's delay to a 32-bit running timestamp
   * and buffer the frame with the timestamp after its own delay.
   */
  method BufferFrames(frames: seq<FrameResult>) returns (imageBuffer: seq<TimedFrame>)
    requires Elapsed(frames) <= I32_MAX
    ensures imageBuffer == Timeline(frames)
  {
    imageBuffer := [];
    var timestamp: Int32 := 0;
    for i := 0 to |frames|
      invariant imageBuffer == Timeline(frames[..i])
      invariant timestamp as int == Elapsed(frames[..i])
    {
      PrefixStep(frames, i);
      if frames[i].Decoded? {
        var frame := frames[i].frame;
        timestamp := timestamp + frame.delayMs as Int32;
        imageBuffer := imageBuffer + [TimedFrame(Resize(frame.image), timestamp as int)];
      }
    }
    assert frames[..|frames|] == frames;
  }

  /** The second loop of encode_anim: hand the encoder each buffered frame that converts, in order. */
  method FeedEncoder(imageBuffer: seq<TimedFrame>, convertFrame: TimedFrame -> bool) returns (added: seq<TimedFrame>)
    ensures added == Accepted(imageBuffer, convertFrame)
  {
    added := [];
    for j := 0 to |imageBuffer|
      invariant added == Accepted(imageBuffer[..j], convertFrame)
    {
      assert DropLast(imageBuffer[..j + 1]) == imageBuffer[..j];
      if convertFrame(imageBuffer[j]) {
        added := added + [imageBuffer[j]];
      }
    }
    assert imageBuffer[..|imageBuffer|] == imageBuffer;
  }

  /**
   * encode_anim: buffer the frames with their timestamps, feed the
   * encoder, then answer NoAvailableFrames when nothing was buffered, or
   * the encoded animation with the content type replaced.
   */
  method EncodeAnim(headers: HeaderMap, anim: BoundedAnimation, codecs: Codecs) returns (resp: Response)
    ensures resp == AnimResponse(headers, anim, codecs)
  {
    var imageBuffer := BufferFrames(anim.frames);
    var added := FeedEncoder(imageBuffer, codecs.convertFrame);
    var out := headers;
    if imageBuffer == [] {
      out := out.Append(PROXY_ERROR, NO_AVAILABLE_FRAMES);
      return Response(STATUS_BAD_GATEWAY, out, []);
    }
    var buf := codecs.encodeAnim(anim.width, anim.height, added);
    out := out.Remove(CONTENT_TYPE);
    out := out.Append(CONTENT_TYPE, WEBP_TYPE);
    resp := Response(STATUS_OK, out, buf);
  }

  /**
   * encode as a value: route the sniffed body and answer accordingly. This
   * is the specification of the method Encode below; both exist because a
   * function cannot call the method EncodeAnim that Encode uses, and Encode
   * is proved equal to this.
   */
  function EncodeResponse(headers: HeaderMap, body: seq<byte>, codecs: Codecs): Response {
    match RouteOf(codecs.sniff(body))
    case PassThrough(e) => Response(STATUS_OK, headers.Append(CODEC_ERROR, e), body)
    case Single => EncodeSingle(headers, body, codecs)
    case Animate(anim) => AnimResponse(headers, anim, codecs)
  }

  /**
   * Every answer of the transcode stage is a successful transcode, a
   * degraded 200 with the original bytes and only a diagnostic added, or
   * the animated encoder's NoAvailableFrames failure; and when sniffing
   * fails it is the original bytes with the sniffer's error under
   * X-Codec-Error.
   */
  lemma EncodeOutcomes(headers: HeaderMap, body: seq<byte>, codecs: Codecs)
    ensures var r := EncodeResponse(headers, body, codecs);
      Transcoded(headers, r) || Degraded(headers, body, r) || NoFrames(headers, r)
    ensures codecs.sniff(body).Unrecognised? ==>
      var r := EncodeResponse(headers, body, codecs);
      r.status == STATUS_OK && r.body == body
      && Diagnosed(headers, r, CODEC_ERROR, codecs.sniff(body).detail)
  {
    var r := EncodeResponse(headers, body, codecs);
    match RouteOf(codecs.sniff(body))
    case PassThrough(e) =>
      AppendDiagnoses(headers, CODEC_ERROR, e, STATUS_OK, body);
    case Single =>
    case Animate(anim) =>
      AnimOutcomes(headers, anim, codecs);
  }

  /** encode: guess the format, open the matching decoder, and dispatch. */
  method Encode(headers: HeaderMap, body: seq<byte>, codecs: Codecs) returns (resp: Response)
    ensures resp == EncodeResponse(headers, body, codecs)
  {
    var route := RouteOf(codecs.sniff(body));
    match route
    case PassThrough(e) =>
      var out := headers.Append(CODEC_ERROR, e);
      resp := Response(STATUS_OK, out, body);
    case Single =>
      resp := EncodeSingle(headers, body, codecs);
    case Animate(anim) =>
      resp := EncodeAnim(headers, anim, codecs);
  }
}
