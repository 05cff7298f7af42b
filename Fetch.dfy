/**
 * Bounded retrieval of the upstream body: the size hint checked before any
 * byte is read, and the chunk-by-chunk accumulation under the byte cap.
 */
module Fetch {
  import opened Wrappers
  import opened Bytes

  /** Bytes of the upstream body stream, or the transport error that ended it. */
  datatype Chunk = Data(bytes: seq<byte>) | StreamError(detail: seq<byte>)

  /** How reading the whole stream under a byte budget ends. */
  datatype BodyOutcome = Complete(body: seq<byte>) | TooLarge | Broken(detail: seq<byte>) {
    /** The outcome once `prefix` has already been read in front of this one. */
    function After(prefix: seq<byte>): BodyOutcome {
      if Complete? then Complete(prefix + body) else this
    }
  }

  /** The default capacity used when upstream declares no content length. */
  const DEFAULT_HINT: nat := 2048

  /** The declared content length, or else the smaller of 2048 and the cap. */
  function LengthHint(contentLength: Option<nat>, maxSize: nat): (hint: nat)
    ensures contentLength.Some? ==> hint == contentLength.value
    ensures contentLength.None? ==> hint <= maxSize && hint <= DEFAULT_HINT
    ensures contentLength.None? ==> hint == maxSize || hint == DEFAULT_HINT
  {
    match contentLength
    case Some(n) => n
    case None => if DEFAULT_HINT <= maxSize then DEFAULT_HINT else maxSize
  }

  /** The in-order concatenation of the data chunks. */
  function Flatten(chunks: seq<Chunk>): seq<byte> {
    if chunks == [] then []
    else (if chunks[0].Data? then chunks[0].bytes else []) + Flatten(chunks[1..])
  }

  predicate AllData(chunks: seq<Chunk>) {
    forall i :: 0 <= i < |chunks| ==> chunks[i].Data?
  }

  /**
   * Reads the chunks under a remaining budget of `budget` bytes: a chunk
   * that does not fit in what is left stops the read as too large, a
   * stream error stops it with that error, and the end of the stream
   * yields everything read.
   */
  function Accumulate(chunks: seq<Chunk>, budget: nat): BodyOutcome
    decreases |chunks|
  {
    if chunks == [] then Complete([])
    else match chunks[0]
      case StreamError(e) => Broken(e)
      case Data(b) =>
        if |b| > budget then TooLarge
        else Accumulate(chunks[1..], budget - |b|).After(b)
  }

  /** Reading from position `i` on: one chunk, then the rest from `i + 1`. */
  lemma AccumulateFrom(chunks: seq<Chunk>, i: nat, budget: nat)
    requires i < |chunks|
    ensures chunks[i].StreamError? ==> Accumulate(chunks[i..], budget) == Broken(chunks[i].detail)
    ensures chunks[i].Data? && |chunks[i].bytes| > budget ==> Accumulate(chunks[i..], budget) == TooLarge
    ensures chunks[i].Data? && |chunks[i].bytes| <= budget ==>
      Accumulate(chunks[i..], budget)
        == Accumulate(chunks[i + 1..], budget - |chunks[i].bytes|).After(chunks[i].bytes)
  {
    assert chunks[i..][0] == chunks[i];
    assert chunks[i..][1..] == chunks[i + 1..];
  }

  /** Reading `b` after `a` is reading `a + b`. */
  lemma AfterAfter(o: BodyOutcome, a: seq<byte>, b: seq<byte>)
    ensures o.After(b).After(a) == o.After(a + b)
  {
    if o.Complete? {
      assert a + (b + o.body) == (a + b) + o.body;
    }
  }

  /**
   * The read completes exactly when every chunk is data and all of them
   * together fit the budget; the body is then their concatenation, so it
   * never exceeds the budget, and a total of exactly the budget is accepted.
   */
  lemma {:induction false} AccumulateComplete(chunks: seq<Chunk>, budget: nat)
    ensures Accumulate(chunks, budget).Complete?
        <==> AllData(chunks) && |Flatten(chunks)| <= budget
    ensures Accumulate(chunks, budget).Complete?
        ==> Accumulate(chunks, budget).body == Flatten(chunks)
    decreases |chunks|
  {
    if chunks != [] {
      var rest := chunks[1..];
      AccumulateComplete(rest, if chunks[0].Data? && |chunks[0].bytes| <= budget
                               then budget - |chunks[0].bytes| else 0);
      assert AllData(chunks) <==> chunks[0].Data? && AllData(rest) by {
        if chunks[0].Data? && AllData(rest) {
          forall i | 0 <= i < |chunks| ensures chunks[i].Data? {
            if i > 0 { assert chunks[i] == rest[i - 1]; }
          }
        }
      }
      if chunks[0].Data? && |chunks[0].bytes| > budget {
        assert |Flatten(chunks)| > budget;
      }
    }
  }

  /** Whatever body the read yields fits the budget. */
  lemma {:induction false} AccumulateWithinBudget(chunks: seq<Chunk>, budget: nat)
    requires Accumulate(chunks, budget).Complete?
    ensures |Accumulate(chunks, budget).body| <= budget
  {
    AccumulateComplete(chunks, budget);
  }

  /**
   * A read ends with a stream error only at the first chunk that is not
   * data, and only while everything before it fitted the budget.
   */
  lemma {:induction false} AccumulateBroken(chunks: seq<Chunk>, budget: nat, e: seq<byte>)
    requires Accumulate(chunks, budget) == Broken(e)
    ensures exists i :: 0 <= i < |chunks| && chunks[i] == StreamError(e)
                        && AllData(chunks[..i]) && |Flatten(chunks[..i])| <= budget
    decreases |chunks|
  {
    assert chunks != [];
    if chunks[0].StreamError? {
      assert chunks[..0] == [];
      assert chunks[0] == StreamError(e);
    } else {
      var b := chunks[0].bytes;
      var rest := chunks[1..];
      AccumulateBroken(rest, budget - |b|, e);
      var j :| 0 <= j < |rest| && rest[j] == StreamError(e)
               && AllData(rest[..j]) && |Flatten(rest[..j])| <= budget - |b|;
      assert chunks[..j + 1][1..] == rest[..j];
      assert chunks[j + 1] == StreamError(e);
      var prefix := chunks[..j + 1];
      assert AllData(prefix) by {
        forall i | 0 <= i < j + 1 ensures prefix[i].Data? {
          if i > 0 { assert prefix[i] == rest[..j][i - 1]; }
        }
      }
    }
  }

  /**
   * Conversely, a stream error at the first chunk that is not data ends the
   * read with that error whenever the data before it fits the budget: the
   * read never answers too large in that case.
   */
  lemma {:induction false} AccumulateStreamError(chunks: seq<Chunk>, i: nat, budget: nat)
    requires i < |chunks| && chunks[i].StreamError?
    requires AllData(chunks[..i]) && |Flatten(chunks[..i])| <= budget
    ensures Accumulate(chunks, budget) == Broken(chunks[i].detail)
    decreases i
  {
    if i > 0 {
      var b := chunks[0].bytes;
      var rest := chunks[1..];
      var before, restBefore := chunks[..i], rest[..i - 1];
      assert before[0] == chunks[0];
      assert before[1..] == restBefore;
      assert Flatten(before) == b + Flatten(restBefore);
      assert AllData(restBefore) by {
        forall j | 0 <= j < i - 1 ensures restBefore[j].Data? {
          assert restBefore[j] == before[j + 1];
        }
      }
      assert rest[i - 1] == chunks[i];
      AccumulateStreamError(rest, i - 1, budget - |b|);
    }
  }
}
