/**
 * The frame side of the animated re-encode: the frames a decoder yields
 * (each decoded or not), the frames kept, their cumulative millisecond
 * timeline, and the frames the WebP frame conversion accepts.
 */
module Frames {
  import opened Bytes

  /** A decoded RGBA image; its pixel data is opaque to the proxy. */
  datatype Image = Image(width: nat, height: nat, pixels: seq<byte>)

  /** The resize step: an extension point that currently leaves the image as it is. */
  function Resize(img: Image): (r: Image)
    ensures r == img
  {
    img
  }

  /** One decoded frame: its display delay in whole milliseconds and its image. */
  datatype Frame = Frame(delayMs: nat, image: Image)

  /** One item of a decoder's frame sequence. */
  datatype FrameResult = Decoded(frame: Frame) | Undecodable(detail: string)

  /** A buffered frame with its absolute offset from the start of the animation. */
  datatype TimedFrame = TimedFrame(image: Image, timestamp: int)

  function Last<T>(s: seq<T>): T
    requires s != []
  {
    s[|s| - 1]
  }

  function DropLast<T>(s: seq<T>): seq<T>
    requires s != []
  {
    s[..|s| - 1]
  }

  /** The frames that decoded, in their original order; the others are skipped. */
  function Kept(fs: seq<FrameResult>): seq<Frame> {
    if fs == [] then []
    else Kept(DropLast(fs)) + (if Last(fs).Decoded? then [Last(fs).frame] else [])
  }

  /** The sum of the delays of the given frames. */
  function SumDelays(ks: seq<Frame>): nat {
    if ks == [] then 0 else SumDelays(DropLast(ks)) + Last(ks).delayMs
  }

  /** The running timestamp after the whole sequence: the delays of every kept frame. */
  function Elapsed(fs: seq<FrameResult>): nat {
    SumDelays(Kept(fs))
  }

  /**
   * The buffered timeline: one entry per kept frame, in order, whose
   * timestamp is the sum of the delays of the kept frames up to and
   * including its own.
   */
  function Timeline(fs: seq<FrameResult>): (t: seq<TimedFrame>)
    ensures |t| == |Kept(fs)|
  {
    var ks := Kept(fs);
    seq(|ks|, k requires 0 <= k < |ks| => TimedFrame(Resize(ks[k].image), SumDelays(ks[..k + 1])))
  }

  /** The buffered frames the WebP frame conversion accepts, in order. */
  function Accepted(buffer: seq<TimedFrame>, converts: TimedFrame -> bool): seq<TimedFrame> {
    if buffer == [] then []
    else Accepted(DropLast(buffer), converts) + (if converts(Last(buffer)) then [Last(buffer)] else [])
  }

  /** Keeping frames distributes over concatenation: no frame moves past another. */
  lemma {:induction false} KeptConcat(a: seq<FrameResult>, b: seq<FrameResult>)
    ensures Kept(a + b) == Kept(a) + Kept(b)
    decreases |b|
  {
    if b == [] {
      assert a + b == a;
    } else {
      assert DropLast(a + b) == a + DropLast(b);
      assert Last(a + b) == Last(b);
      KeptConcat(a, DropLast(b));
    }
  }

  /** A frame is kept exactly when it occurs decoded in the sequence. */
  lemma {:induction false} KeptMembership(fs: seq<FrameResult>, f: Frame)
    ensures f in Kept(fs) <==> Decoded(f) in fs
    decreases |fs|
  {
    if fs != [] {
      KeptMembership(DropLast(fs), f);
      assert fs == DropLast(fs) + [Last(fs)];
    }
  }

  /** Nothing is kept exactly when no frame decoded. */
  lemma {:induction false} NothingKept(fs: seq<FrameResult>)
    ensures Kept(fs) == [] <==> forall i :: 0 <= i < |fs| ==> fs[i].Undecodable?
  {
    if Kept(fs) != [] {
      KeptMembership(fs, Kept(fs)[0]);
    } else {
      forall i | 0 <= i < |fs| ensures fs[i].Undecodable? {
        if fs[i].Decoded? {
          KeptMembership(fs, fs[i].frame);
        }
      }
    }
  }

  lemma {:induction false} SumDelaysConcat(a: seq<Frame>, b: seq<Frame>)
    ensures SumDelays(a + b) == SumDelays(a) + SumDelays(b)
    decreases |b|
  {
    if b == [] {
      assert a + b == a;
    } else {
      assert DropLast(a + b) == a + DropLast(b);
      assert Last(a + b) == Last(b);
      SumDelaysConcat(a, DropLast(b));
    }
  }

  /** Reading one more item adds its delay to the running timestamp when it decoded. */
  lemma ElapsedSnoc(fs: seq<FrameResult>, x: FrameResult)
    ensures Elapsed(fs + [x]) == Elapsed(fs) + (if x.Decoded? then x.frame.delayMs else 0)
  {
    assert DropLast(fs + [x]) == fs;
    assert Last(fs + [x]) == x;
    if x.Decoded? {
      var ks := Kept(fs) + [x.frame];
      assert Kept(fs + [x]) == ks;
      assert DropLast(ks) == Kept(fs) && Last(ks) == x.frame;
      assert SumDelays(ks) == SumDelays(Kept(fs)) + x.frame.delayMs;
      assert Elapsed(fs + [x]) == SumDelays(ks);
    } else {
      assert Kept(fs + [x]) == Kept(fs);
    }
  }

  /** The running timestamp never goes down as more of the sequence is read. */
  lemma ElapsedMonotone(fs: seq<FrameResult>, i: nat, j: nat)
    requires i <= j <= |fs|
    ensures Elapsed(fs[..i]) <= Elapsed(fs[..j])
  {
    assert fs[..j] == fs[..i] + fs[i..j];
    KeptConcat(fs[..i], fs[i..j]);
    SumDelaysConcat(Kept(fs[..i]), Kept(fs[i..j]));
  }

  /**
   * Reading one more item extends the timeline by that frame, stamped with
   * the running timestamp plus its own delay, when it decoded, and leaves
   * the timeline as it was when it did not.
   */
  lemma TimelineSnoc(fs: seq<FrameResult>, x: FrameResult)
    ensures Timeline(fs + [x]) == Timeline(fs)
      + (if x.Decoded? then [TimedFrame(Resize(x.frame.image), Elapsed(fs) + x.frame.delayMs)] else [])
  {
    assert DropLast(fs + [x]) == fs;
    var ks := Kept(fs);
    if x.Decoded? {
      var ks' := ks + [x.frame];
      assert Kept(fs + [x]) == ks';
      var t, t0 := Timeline(fs + [x]), Timeline(fs);
      var stamped := TimedFrame(Resize(x.frame.image), Elapsed(fs) + x.frame.delayMs);
      forall k | 0 <= k < |t| ensures t[k] == (t0 + [stamped])[k] {
        if k < |ks| {
          assert ks'[..k + 1] == ks[..k + 1];
        } else {
          assert ks'[..k + 1] == ks';
          assert DropLast(ks') == ks;
        }
      }
      assert t == t0 + [stamped];
    } else {
      assert Kept(fs + [x]) == ks;
    }
  }

  /** Reading item `i` of a sequence, as the buffering loop does: the timeline and running timestamp grow by that item. */
  lemma PrefixStep(fs: seq<FrameResult>, i: nat)
    requires i < |fs|
    ensures Timeline(fs[..i + 1]) == Timeline(fs[..i])
      + (if fs[i].Decoded? then [TimedFrame(Resize(fs[i].frame.image), Elapsed(fs[..i]) + fs[i].frame.delayMs)] else [])
    ensures Elapsed(fs[..i + 1]) == Elapsed(fs[..i]) + (if fs[i].Decoded? then fs[i].frame.delayMs else 0)
    ensures Elapsed(fs[..i + 1]) <= Elapsed(fs)
  {
    assert fs[..i + 1] == fs[..i] + [fs[i]];
    TimelineSnoc(fs[..i], fs[i]);
    ElapsedSnoc(fs[..i], fs[i]);
    ElapsedMonotone(fs, i + 1, |fs|);
    assert fs[..|fs|] == fs;
  }

  /** Timestamps never decrease along the timeline. */
  lemma TimestampsNonDecreasing(fs: seq<FrameResult>, i: nat, j: nat)
    requires i <= j < |Timeline(fs)|
    ensures Timeline(fs)[i].timestamp <= Timeline(fs)[j].timestamp
  {
    var ks := Kept(fs);
    assert ks[..j + 1] == ks[..i + 1] + ks[i + 1..j + 1];
    SumDelaysConcat(ks[..i + 1], ks[i + 1..j + 1]);
  }

  /** Each timestamp is the previous one plus the frame's own delay. */
  lemma TimestampIncludesOwnDelay(fs: seq<FrameResult>, k: nat)
    requires k < |Timeline(fs)|
    ensures Timeline(fs)[k].timestamp
         == (if k == 0 then 0 else Timeline(fs)[k - 1].timestamp) + Kept(fs)[k].delayMs
    ensures Timeline(fs)[k].image == Kept(fs)[k].image
  {
    var ks := Kept(fs);
    assert DropLast(ks[..k + 1]) == ks[..k];
    assert Last(ks[..k + 1]) == ks[k];
    if k == 0 {
      assert ks[..0] == [];
      assert SumDelays(ks[..1]) == SumDelays(ks[..0]) + ks[0].delayMs;
    }
  }

  /** The last timestamp is the sum of the delays of every kept frame. */
  lemma LastTimestampIsTotal(fs: seq<FrameResult>)
    requires Timeline(fs) != []
    ensures Last(Timeline(fs)).timestamp == Elapsed(fs)
  {
    var ks := Kept(fs);
    assert ks[..|ks|] == ks;
  }

  /** A buffered frame reaches the encoder exactly when its conversion succeeds. */
  lemma {:induction false} AcceptedMembership(buffer: seq<TimedFrame>, converts: TimedFrame -> bool, t: TimedFrame)
    ensures t in Accepted(buffer, converts) <==> t in buffer && converts(t)
    decreases |buffer|
  {
    if buffer != [] {
      AcceptedMembership(DropLast(buffer), converts, t);
      assert buffer == DropLast(buffer) + [Last(buffer)];
    }
  }
}
