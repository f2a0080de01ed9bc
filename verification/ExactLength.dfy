/**
 The stream filter that holds back the last byte of a private media object until its declared
 length has been met exactly (apps/api/src/media/delivery.ts).
 */
module ExactLength {
  import opened Common

  type Bytes = seq<bv8>

  /** What the filter remembers between chunks. */
  datatype Progress = Progress(received: nat, finalByte: Option<bv8>)

  /** What one chunk does: new progress and the bytes passed on, or None for the "exceeded" error. */
  function Chunked(p: Progress, expected: nat, chunk: Bytes): Option<(Progress, Bytes)> {
    if |chunk| > expected - p.received then None else
    var received := p.received + |chunk|;
    if received == expected && chunk != []
    then Some((Progress(received, Some(chunk[|chunk| - 1])), chunk[..|chunk| - 1]))
    else Some((p.(received := received), chunk))
  }

  /** What the end of the input does: the last bytes, or None for the "ended before" error. */
  function Flushed(p: Progress, expected: nat): Option<Bytes> {
    if p.received != expected then None
    else Some(if p.finalByte.Some? then [p.finalByte.value] else [])
  }

  // ------------------------------------------------------------------ whole streams

  /** A run over the chunks: bytes passed on before the end of input, and the progress unless a chunk failed. */
  datatype Run = Run(out: Bytes, progress: Option<Progress>)

  function Feed(expected: nat, chunks: seq<Bytes>): Run {
    if chunks == [] then Run([], Some(Progress(0, None))) else
    var before := Feed(expected, chunks[..|chunks| - 1]);
    if before.progress.None? then before else
    var r := Chunked(before.progress.value, expected, chunks[|chunks| - 1]);
    if r.None? then Run(before.out, None) else Run(before.out + r.value.1, Some(r.value.0))
  }

  /** Everything delivered when the input ends after `chunks`; None when the stream fails. */
  function Delivered(expected: nat, chunks: seq<Bytes>): Option<Bytes> {
    var run := Feed(expected, chunks);
    if run.progress.None? then None else
    var tail := Flushed(run.progress.value, expected);
    if tail.None? then None else Some(run.out + tail.value)
  }

  function Concat(chunks: seq<Bytes>): Bytes {
    if chunks == [] then [] else Concat(chunks[..|chunks| - 1]) + chunks[|chunks| - 1]
  }

  lemma {:induction false} FeedTracksInput(expected: nat, chunks: seq<Bytes>)
    ensures var run := Feed(expected, chunks);
            && (run.progress.None? <==> |Concat(chunks)| > expected)
            && |run.out| <= |Concat(chunks)|
            && run.out == Concat(chunks)[..|run.out|]
            && (expected > 0 ==> |run.out| < expected)
            && (run.progress.Some? ==>
                  && run.progress.value.received == |Concat(chunks)|
                  && Concat(chunks)
                     == run.out + (if run.progress.value.finalByte.Some? then [run.progress.value.finalByte.value]
                                   else [])
                  && (run.progress.value.finalByte.Some? <==> |Concat(chunks)| == expected && expected > 0))
  {
    if chunks != [] {
      var rest, last := chunks[..|chunks| - 1], chunks[|chunks| - 1];
      FeedTracksInput(expected, rest);
      assert Concat(chunks) == Concat(rest) + last;
      if last != [] {
        assert last == last[..|last| - 1] + [last[|last| - 1]];
      }
    }
  }

  /**
   Before the end of the input only a prefix of it has left the filter, and never the whole
   declared length: all of it, while that is short of the declared length, and all but the last byte
   once that is met. The stream succeeds exactly when the input has the declared length, and then
   delivers the input.
   */
  lemma {:induction false} ExactlyTheDeclaredBytes(expected: nat, chunks: seq<Bytes>)
    ensures var out := Feed(expected, chunks).out;
            && |out| <= |Concat(chunks)| && out == Concat(chunks)[..|out|]
            && (expected > 0 ==> |out| < expected)
            && (|Concat(chunks)| < expected ==> out == Concat(chunks))
            && (|Concat(chunks)| == expected > 0 ==> |out| == expected - 1)
    ensures Delivered(expected, chunks) == if |Concat(chunks)| == expected then Some(Concat(chunks)) else None
  {
    FeedTracksInput(expected, chunks);
  }

  /** How the input is cut into chunks makes no difference to what is delivered. */
  lemma {:induction false} ChunkingIsIrrelevant(expected: nat, chunks: seq<Bytes>, chunks': seq<Bytes>)
    requires Concat(chunks) == Concat(chunks')
    ensures Delivered(expected, chunks) == Delivered(expected, chunks')
  {
    ExactlyTheDeclaredBytes(expected, chunks);
    ExactlyTheDeclaredBytes(expected, chunks');
  }

  // ------------------------------------------------------------------ the filter

  lemma {:induction false} OneMoreChunk(expected: nat, chunks: seq<Bytes>, chunk: Bytes)
    ensures Concat(chunks + [chunk]) == Concat(chunks) + chunk
    ensures var before := Feed(expected, chunks);
            before.progress.Some? ==>
              var r := Chunked(before.progress.value, expected, chunk);
              Feed(expected, chunks + [chunk])
              == if r.None? then Run(before.out, None) else Run(before.out + r.value.1, Some(r.value.0))
  {
    assert (chunks + [chunk])[..|chunks|] == chunks;
  }

  class ExactByteLength {
    const expected: nat
    var receivedBytes: nat
    var finalByte: Option<bv8>
    /** The chunks taken in so far, and the bytes passed on. */
    ghost var chunks: seq<Bytes>
    ghost var passedOn: Bytes

    function State(): Progress
      reads this
    {
      Progress(receivedBytes, finalByte)
    }

    ghost predicate Valid()
      reads this
    {
      Feed(expected, chunks) == Run(passedOn, Some(State()))
    }

    constructor (expectedBytes: nat)
      ensures Valid() && expected == expectedBytes && State() == Progress(0, None) && chunks == [] && passedOn == []
    {
      expected := expectedBytes;
      receivedBytes, finalByte := 0, None;
      chunks, passedOn := [], [];
    }

    /**
     Refuses exactly the chunk that would exceed the declared length. What has been passed on is a
     prefix of the input, and short of the declared length.
     */
    method Transform(chunk: Bytes) returns (out: Option<Bytes>)
      requires Valid()
      modifies this
      ensures var r := Chunked(old(State()), expected, chunk);
              if r.None? then out == None && State() == old(State())
              else out == Some(r.value.1) && State() == r.value.0
      ensures Valid()
      ensures out.None? <==> |old(Concat(chunks))| + |chunk| > expected
      ensures out.None? ==> chunks == old(chunks) && passedOn == old(passedOn)
      ensures out.Some? ==> chunks == old(chunks) + [chunk] && passedOn == old(passedOn) + out.value
      ensures |passedOn| <= |Concat(chunks)| && passedOn == Concat(chunks)[..|passedOn|]
              && (expected > 0 ==> |passedOn| < expected)
              && (|Concat(chunks)| < expected ==> passedOn == Concat(chunks))
              && (|Concat(chunks)| == expected > 0 ==> |passedOn| == expected - 1)
    {
      hide Concat, Feed;
      FeedTracksInput(expected, chunks);
      OneMoreChunk(expected, chunks, chunk);
      FeedTracksInput(expected, chunks + [chunk]);
      if |chunk| > expected - receivedBytes {
        return None;
      }
      receivedBytes := receivedBytes + |chunk|;
      if receivedBytes == expected && |chunk| > 0 {
        finalByte := Some(chunk[|chunk| - 1]);
        chunks, passedOn := chunks + [chunk], passedOn + chunk[..|chunk| - 1];
        return Some(chunk[..|chunk| - 1]);
      }
      chunks, passedOn := chunks + [chunk], passedOn + chunk;
      return Some(chunk);
    }

    /** Succeeds exactly on an input of the declared length, and completes it. */
    method Flush() returns (out: Option<Bytes>)
      requires Valid()
      ensures out == Flushed(State(), expected)
      ensures out.Some? <==> |Concat(chunks)| == expected
      ensures out.Some? ==> passedOn + out.value == Concat(chunks)
    {
      hide Concat, Feed;
      FeedTracksInput(expected, chunks);
      if receivedBytes != expected {
        return None;
      }
      return Some(if finalByte.Some? then [finalByte.value] else []);
    }
  }
}
