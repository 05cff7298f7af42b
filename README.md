# media-proxy-rs request pipeline, modelled in Dafny

This project models the request handler of `media-proxy-rs`. The handler
fetches a remote resource for a caller and reads its body under a byte cap.
It then sniffs the image format and re-encodes the image as a static or an
animated WebP. It answers with a small set of forwarded headers, a fixed
content-security policy and, when something degraded, a diagnostic header.

The model follows the handler's own shape:

- `Headers` models the HTTP header multimap as an ordered list of
  (name, value) entries, with `Append`, `Remove` (drops every value under a
  name) and `GetAll`. Names are in canonical lower-case form, as the HTTP
  library stores them. The map is a value because the handler moves it from
  stage to stage.
- `Bytes` declares the octet type shared by the body, the pixels and the
  encoders' output; `Wrappers` declares `Option` and `Result`.
- `Fetch` holds the length hint and the chunk accumulation, specified by
  `Accumulate`.
- `Frames` holds the decoded frame sequence, the frames kept, their
  cumulative timeline and the frames the WebP conversion accepts. The resize
  step is the identity `Resize`.
- `Codec` holds what the image library reports about a body and the
  transcode router `RouteOf`. It also holds `Codecs`, which bundles the
  foreign image and WebP calls.
- `Transcode` models `encode_single`, `encode_anim` and `encode`. It holds
  the response envelope (status, headers, body).
- `Proxy` models `get_file`: the header forwarding loop, the body-reading
  loop, the early error answers and the `static` dispatch.

The imperative parts of the source are methods with loops. Each is proved
equal to a specification function, and the lemmas state the handler's
properties about those functions:

- `Proxy.ReadBody` equals `Fetch.Accumulate`.
- `Proxy.AddRemoteHeader` equals `Headers.HeaderMap.AppendAll`.
- `Transcode.BufferFrames`, the first loop of `encode_anim`, equals
  `Frames.Timeline`. It keeps the running timestamp as a 32-bit integer.
- `Transcode.FeedEncoder`, the second loop of `encode_anim`, equals
  `Frames.Accepted`.
- `Transcode.EncodeAnim` equals `Transcode.AnimResponse`.
- `Transcode.Encode` equals `Transcode.EncodeResponse`. Encode is a method
  only because it calls the method `EncodeAnim`.
- `Proxy.GetFile` equals `Proxy.Serve`, which uses `Proxy.Dispatch` after
  the read.

Points where the handler's behaviour is easy to misread, all as written in
`src/main.rs`:

- A recognised format other than PNG, GIF or WebP takes the single-image
  path. Only a failure to guess the format takes the `X-Codec-Error`
  pass-through. The single-image path also answers with the original bytes
  when decoding or encoding fails, tagged under `X-Proxy-Error`.
- Decode and encode failures on the single-image path are tagged under
  `X-Proxy-Error` (`DecodeError_…`, `EncodeError_…`).
- `static` forces the single-image path whenever it is present, whatever
  its value. `encode`'s `guess_format` and the container decoders are then
  never consulted. `load_from_memory` still guesses the format for itself.
- The header map of the 400 answer to a failed send holds only
  `X-Remote-Url`, because the policy header is added after the send
  succeeds. The header map of every 502 answer holds the forwarded headers
  and the policy.
- A PNG that fails to open, is not an APNG, or whose APNG frame reader
  fails goes to the single-image path. An APNG whose frame reader opens but
  yields no decodable frame goes to the animated encoder and answers 502
  with `NoAvailableFrames`.

## Model

| member | source | states |
|---|---|---|
| `Headers.HeaderMap.GetAll` | src/main.rs:75 | the values under a name are exactly those stored under it, never more than there are entries |
| `Headers.HeaderMap.Append` | src/main.rs:66 | appending adds exactly that value at the end of that name's list and changes no other name's list |
| `Headers.HeaderMap.Remove` | src/main.rs:183 | removing a name keeps exactly the entries under other names |
| `Headers.GetAllRemove` | src/main.rs:183 | removing a name empties its list and leaves every other name's list, in order, as it was |
| `Headers.GetAllAppendAll` | src/main.rs:74-78 | appending a list of values under one name extends that name's list by exactly those values, in order |
| `Headers.ReplaceValues` | src/main.rs:183-184 | remove-then-append leaves exactly the one new value under the name and every other name's list unchanged |
| `Fetch.LengthHint` | src/main.rs:83 | the hint is the declared length when there is one; otherwise it is the smaller of 2048 and the cap, so it never exceeds the cap and never rejects |
| `Fetch.AccumulateComplete` | src/main.rs:87-101 | the read completes iff every chunk is data and their total is at most the cap (so exactly the cap is accepted); the body is then the in-order concatenation of the chunks |
| `Fetch.AccumulateWithinBudget` | src/main.rs:92-95 | a completed body never exceeds the cap |
| `Fetch.AccumulateBroken` | src/main.rs:97-99 | a read ends with a stream error only at the first non-data chunk, with everything before it within the cap |
| `Fetch.AccumulateStreamError` | src/main.rs:89-99 | conversely, a stream error at the first non-data chunk, with everything before it within the cap, ends the read with exactly that error |
| `Frames.Resize` | src/main.rs:107-110 | resizing is the identity: the image is returned unchanged |
| `Frames.Timeline` | src/main.rs:162-171 | the buffered timeline has one entry per decoded frame |
| `Frames.KeptConcat` | src/main.rs:163-164 | keeping the decoded frames preserves their order: it distributes over concatenation |
| `Frames.KeptMembership` | src/main.rs:163-164 | a frame is kept iff it occurs decoded in the sequence |
| `Frames.NothingKept` | src/main.rs:178-181 | nothing is buffered iff no frame of the sequence decoded |
| `Frames.ElapsedSnoc` | src/main.rs:165 | each decoded frame adds its delay to the running timestamp; an undecodable one adds nothing |
| `Frames.ElapsedMonotone` | src/main.rs:165 | the running timestamp never decreases as more frames are read |
| `Frames.TimelineSnoc` | src/main.rs:163-169 | a decoded frame is buffered with the running timestamp after adding its own delay; an undecodable one is skipped |
| `Frames.PrefixStep` | src/main.rs:163-169 | reading one more item grows the timeline and the running timestamp by that item, and the running timestamp stays within the total |
| `Frames.TimestampsNonDecreasing` | src/main.rs:165-168 | timestamps along the timeline never decrease |
| `Frames.TimestampIncludesOwnDelay` | src/main.rs:165-168 | the k-th timestamp is the previous one plus the k-th kept frame's own delay, and the image is that frame's |
| `Frames.LastTimestampIsTotal` | src/main.rs:162-170 | the last timestamp is the sum of the delays of all kept frames |
| `Frames.AcceptedMembership` | src/main.rs:172-177 | a buffered frame reaches the encoder iff its frame conversion succeeds |
| `Codec.RouteOf` | src/main.rs:112-155 | pass-through iff sniffing failed; PNG animates iff it opens, is an APNG and its APNG reader succeeds; GIF iff it opens; WebP iff it opens and reports animation; other formats take the single-image path; the animation used is the decoder's |
| `Transcode.WebPContentType` | src/main.rs:183-184 | replacing the content type yields a successful transcode: one `image/webp` value, every other header unchanged |
| `Transcode.EncodeSingle` | src/main.rs:187-209 | always 200; a decode failure returns the original bytes with `DecodeError_` plus the error under X-Proxy-Error; an encode failure does the same with `EncodeError_`; otherwise the encoder's bytes of the decoded (unresized) image with the content type replaced |
| `Transcode.AnimOutcomes` | src/main.rs:178-185 | the animated encoder answers 502 with NoAvailableFrames and no body iff no frame decoded; otherwise it is a successful transcode of the converting timeline frames |
| `Transcode.NoConvertedFramesStillSucceeds` | src/main.rs:172-182 | emptiness is checked on the buffered frames: if frames decoded but none converts, the answer is still 200 with the encoder's output for no frames |
| `Transcode.BufferFrames` | src/main.rs:160-171 | the buffering loop with a 32-bit running timestamp builds exactly the timeline: the decoded frames in order, each stamped with the delays up to and including its own |
| `Transcode.FeedEncoder` | src/main.rs:172-177 | the encoder loop hands over exactly the buffered frames that convert, in order |
| `Transcode.EncodeAnim` | src/main.rs:157-186 | buffering, feeding and the emptiness check compute exactly the animated answer |
| `Transcode.EncodeOutcomes` | src/main.rs:111-155 | every transcode answer is a successful transcode, a 200 with the original bytes and only diagnostics added, or NoAvailableFrames; a sniffing failure answers 200 with the bytes and the error under X-Codec-Error |
| `Transcode.Encode` | src/main.rs:111-156 | routing and dispatch compute exactly the transcode answer |
| `Proxy.ForwardedContents` | src/main.rs:65-82 | the starting headers hold the URL once, every upstream Content-Disposition and Content-Type value in upstream order, the policy once, and nothing else |
| `Proxy.AddRemoteHeader` | src/main.rs:74-78 | the forwarding loop appends every upstream value of the name, in order |
| `Proxy.ReadBody` | src/main.rs:87-101 | the chunk loop with early returns computes exactly the bounded read |
| `Proxy.GetFile` | src/main.rs:58-106 | the handler computes exactly the specified answer for every upstream behaviour and every codec outcome |
| `Proxy.DispatchKeepsHeaders` | src/main.rs:102-105 | after the read, no header other than diagnostics and the content type changes, and the content type only becomes `image/webp` on a 200 |
| `Proxy.SendFailure` | src/main.rs:70-73 | a failed send answers 400 with the error as body, and its header map holds only the URL (no policy) |
| `Proxy.DeclaredLengthTooLarge` | src/main.rs:83-86 | a declared length above the cap answers 502 with no body, whatever the stream holds and whatever the codecs do |
| `Proxy.StreamErrorAnswers` | src/main.rs:89-99 | when the declared length passes, a stream error at the first non-data chunk with the data before it within the cap answers 502 with the forwarded headers and that error as body, whatever the codecs do |
| `Proxy.FetchedBody` | src/main.rs:89-101 | the body handed on is the in-order concatenation of the data chunks and is within the cap |
| `Proxy.StaticIsSingle` | src/main.rs:102-104 | with `static` present the answer is the single-image path's, always 200, and independent of the sniffer and the animated encoder |
| `Proxy.UnrecognisedPassesThrough` | src/main.rs:112-118 | without `static`, a failed format guess answers 200 with exactly the fetched bytes and the error appended under X-Codec-Error |
| `Proxy.ForwardedHeadersSurvive` | src/main.rs:74-82 | once upstream answered, the header map of every response keeps the URL, the forwarded Content-Disposition values in order and the policy; its content type is the forwarded values or, on a 200 transcode, exactly `image/webp` |

## Left out

- Process start-up is not modelled: reading the config path from the environment, writing the default config, parsing the JSON config, binding the socket and routing (src/main.rs:21-56). The size cap is a parameter.
- Building the outbound request is not modelled: its timeout, user agent and async send (src/main.rs:67-70). The send's result is a parameter, either the upstream answer or the error's debug text.
- The body stream is a given sequence of chunk results. Awaiting each chunk, the fetch timeout and cancellation are concurrency and time concerns.
- The request path and the incoming request headers are ignored by the source, and so by the model.
- The preallocation `Vec::with_capacity(len_hint)` has no observable effect and is not modelled.
- The image and WebP libraries are not modelled: `guess_format`, the PNG/GIF/WebP decoders, `load_from_memory`, `write_to`, `AnimFrame::from_image` and `AnimEncoder`. Their outcomes are the functions in `Codec.Codecs`, applied to the fetched bytes or the decoded images.
- `is_apng().unwrap()`, `WebPConfig::new().unwrap()` and the header-value `parse().unwrap()` calls are taken to succeed.
- Forwarded header values are modelled after `String::from_utf8_lossy` (src/main.rs:76). The replacement of invalid UTF-8 bytes is not modelled: a value is a string as the conversion yields it.
- The response envelope is the (status, headers, body) tuple before axum's `into_response()`. The default content type that conversion adds when the header map has none (`text/plain; charset=utf-8` for the error-text bodies at src/main.rs:72 and 98, `application/octet-stream` for the byte bodies at src/main.rs:117, 193 and 206) is not modelled.
- Debug renderings of errors (`format!("{:?}", e)`) are abstract detail strings or bytes. Only the tag prefixes `DecodeError_` and `EncodeError_` and the value `NoAvailableFrames` are concrete.
- Frame delays are given as whole milliseconds. The source truncates a `Duration` to milliseconds and then casts it with `as i32`; that conversion is not modelled.
- Transcode.EncodeAnim: it is proved only for animations whose total kept delay fits a signed 32-bit integer (`Codec.BoundedAnimation`). The wrap-around or panic of the source's `i32` timestamp on overflow is not modelled.
- Header names are compared by string equality on their canonical lower-case form. The multimap's iteration order across different names is not modelled; each name's list of values and its order are.
