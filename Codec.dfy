/**
 * What the image library reports about a fetched body, and the transcode
 * router that turns it into a decision. Sniffing and container decoding
 * happen in the library; the model receives their outcomes.
 */
module Codec {
  import opened Wrappers
  import opened Bytes
  import opened Frames

  /** The largest value of the encoder's signed 32-bit timestamp. */
  const I32_MAX: int := 0x7fff_ffff

  newtype Int32 = x: int | -0x8000_0000 <= x < 0x8000_0000

  /** An animated container as a decoder opened it: canvas size and frame sequence. */
  datatype Animation = Animation(width: nat, height: nat, frames: seq<FrameResult>)

  /** Animations whose running timestamp stays within the encoder's 32-bit range. */
  type BoundedAnimation = a: Animation | Elapsed(a.frames) <= I32_MAX witness Animation(0, 0, [])

  /** PNG decoder: fails to open, or opens and says whether it is an APNG and how its APNG reader fares. */
  datatype PngProbe = PngUnreadable | PngReadable(isApng: bool, apng: Result<BoundedAnimation, string>)

  /** GIF decoder: fails to open, or opens with its frame sequence. */
  datatype GifProbe = GifUnreadable | GifReadable(anim: BoundedAnimation)

  /** WebP decoder: fails to open, or opens, says whether it holds an animation, and yields its frames. */
  datatype WebPProbe = WebPUnreadable | WebPReadable(hasAnimation: bool, anim: BoundedAnimation)

  /** The format sniffed from the leading bytes, with the matching decoder's outcome. */
  datatype Sniffed =
    | Unrecognised(detail: string)
    | Png(png: PngProbe)
    | Gif(gif: GifProbe)
    | WebP(webp: WebPProbe)
    | OtherImage

  /** Where the transcode goes: the animated encoder, the single-image path, or back unchanged. */
  datatype Route = Animate(anim: BoundedAnimation) | Single | PassThrough(detail: string)

  /**
   * The router. Only a sniffing failure passes the bytes through; a PNG is
   * animated when it opens, is an APNG and its APNG reader succeeds; a GIF
   * whenever it opens; a WebP when it opens and reports an animation; any
   * other case, including every other recognised format, takes the
   * single-image path.
   */
  function RouteOf(s: Sniffed): (r: Route)
    ensures r.PassThrough? <==> s.Unrecognised?
    ensures s.Unrecognised? ==> r == PassThrough(s.detail)
    ensures s.Png? ==> (r.Animate? <==> s.png.PngReadable? && s.png.isApng && s.png.apng.Success?)
    ensures s.Png? && r.Animate? ==> r.anim == s.png.apng.value
    ensures s.Gif? ==> (r.Animate? <==> s.gif.GifReadable?)
    ensures s.Gif? && r.Animate? ==> r.anim == s.gif.anim
    ensures s.WebP? ==> (r.Animate? <==> s.webp.WebPReadable? && s.webp.hasAnimation)
    ensures s.WebP? && r.Animate? ==> r.anim == s.webp.anim
    ensures s.OtherImage? ==> r == Single
  {
    match s
    case Unrecognised(e) => PassThrough(e)
    case Png(p) =>
      if p.PngUnreadable? || !p.isApng then Single
      else if p.apng.Success? then Animate(p.apng.value)
      else Single
    case Gif(g) => if g.GifReadable? then Animate(g.anim) else Single
    case WebP(w) =>
      if w.WebPReadable? && w.hasAnimation then Animate(w.anim) else Single
    case OtherImage => Single
  }

  /**
   * The image and WebP libraries, as seen from the proxy: the sniff of a
   * body together with the matching container decoder's outcome, the
   * full-format single-image decode, the single-image WebP encode, whether
   * one buffered frame converts to an animation frame, and the animation
   * encoder's output for a canvas size and the frames it was given.
   */
  datatype Codecs = Codecs(
    sniff: seq<byte> -> Sniffed,
    load: seq<byte> -> Result<Image, string>,
    writeWebP: Image -> Result<seq<byte>, string>,
    convertFrame: TimedFrame -> bool,
    encodeAnim: (nat, nat, seq<TimedFrame>) -> seq<byte>)
}
