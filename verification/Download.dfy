/** The capped streaming download (`src/client.rs`). */
module Download {
  import opened Outcomes
  import opened Words

  /** What the storage host sends next: bytes, or a transport failure. */
  datatype Chunk = Data(bytes: Bytes) | Broken

  datatype Error = TooLarge(limit: U64) | Fetch

  /** The bytes of a stream up to its first failure. */
  function Delivered(chunks: seq<Chunk>): Bytes {
    if chunks == [] || chunks[0].Broken? then [] else chunks[0].bytes + Delivered(chunks[1..])
  }

  predicate Breaks(chunks: seq<Chunk>) {
    exists i :: 0 <= i < |chunks| && chunks[i].Broken?
  }

  /** The outcome of reading a stream under a ceiling. */
  function Streamed(chunks: seq<Chunk>, maxBytes: U64): Result<Bytes, Error> {
    if |Delivered(chunks)| > maxBytes then Err(TooLarge(maxBytes))
    else if Breaks(chunks) then Err(Fetch)
    else Ok(Delivered(chunks))
  }

  /** The announced length is checked before a body byte is read. */
  function Downloaded(contentLength: Option<U64>, chunks: seq<Chunk>, maxBytes: U64): Result<Bytes, Error> {
    if contentLength.Some? && contentLength.value > maxBytes then Err(TooLarge(maxBytes))
    else Streamed(chunks, maxBytes)
  }

  lemma {:induction false} DeliveredSplits(chunks: seq<Chunk>, k: nat)
    requires k <= |chunks| && forall i :: 0 <= i < k ==> chunks[i].Data?
    ensures Delivered(chunks) == Delivered(chunks[..k]) + Delivered(chunks[k..])
  {
    if k == 0 {
      assert chunks[..0] == [] && chunks[0..] == chunks;
    } else {
      DeliveredSplits(chunks[1..], k - 1);
      assert chunks[..k][1..] == chunks[1..][..k - 1] && chunks[k..] == chunks[1..][k - 1..];
    }
  }

  lemma OneMoreDelivered(chunks: seq<Chunk>, k: nat)
    requires k < |chunks| && forall i :: 0 <= i <= k ==> chunks[i].Data?
    ensures Delivered(chunks[..k + 1]) == Delivered(chunks[..k]) + chunks[k].bytes
  {
    var front := chunks[..k + 1];
    DeliveredSplits(front, k);
    assert front[..k] == chunks[..k] && front[k..] == [chunks[k]] && [chunks[k]][1..] == [];
    assert Delivered([chunks[k]]) == chunks[k].bytes + Delivered([]);
  }

  /** The body as it grows. It cannot be made larger than its ceiling. */
  class Body {
    var bytes: Bytes
    const ceiling: U64

    ghost predicate Valid()
      reads this
    {
      |bytes| <= ceiling
    }

    constructor (ceiling: U64)
      ensures Valid() && bytes == [] && this.ceiling == ceiling
    {
      bytes, this.ceiling := [], ceiling;
    }

    /** `extend_from_slice`, of what still fits. */
    method Append(chunk: Bytes)
      requires Valid() && |bytes| + |chunk| <= ceiling
      modifies this
      ensures Valid() && bytes == old(bytes) + chunk
    {
      bytes := bytes + chunk;
    }
  }

  /**
   * The chunk loop of `download_artifact`. The buffer never holds more than the ceiling; what it holds when
   * the download ends, however it ends, is the front of what was delivered.
   */
  method DownloadArtifact(contentLength: Option<U64>, chunks: seq<Chunk>, maxBytes: U64)
    returns (r: Result<Bytes, Error>, body: Body)
    ensures r == Downloaded(contentLength, chunks, maxBytes)
    ensures fresh(body) && body.Valid() && body.ceiling == maxBytes
    ensures body.bytes <= Delivered(chunks) && (r.Ok? ==> body.bytes == r.value)
  {
    body := new Body(maxBytes);
    if contentLength.Some? && contentLength.value > maxBytes {
      return Err(TooLarge(maxBytes)), body;
    }
    var k := 0;
    while k < |chunks|
      invariant k <= |chunks| && forall i :: 0 <= i < k ==> chunks[i].Data?
      invariant fresh(body) && body.Valid() && body.ceiling == maxBytes
      invariant body.bytes == Delivered(chunks[..k])
    {
      DeliveredSplits(chunks, k);
      if chunks[k].Broken? {
        return Err(Fetch), body;
      }
      OneMoreDelivered(chunks, k);
      var chunk := chunks[k].bytes;
      if |body.bytes| + |chunk| > maxBytes {
        DeliveredSplits(chunks, k + 1);
        return Err(TooLarge(maxBytes)), body;
      }
      body.Append(chunk);
      k := k + 1;
    }
    assert chunks[..k] == chunks;
    return Ok(body.bytes), body;
  }

  /** Every chunk's bytes, in order. */
  function Concatenation(chunks: seq<Chunk>): Bytes
    requires forall i :: 0 <= i < |chunks| ==> chunks[i].Data?
  {
    if chunks == [] then [] else chunks[0].bytes + Concatenation(chunks[1..])
  }

  lemma {:induction false} WholeStreamDelivered(chunks: seq<Chunk>)
    requires forall i :: 0 <= i < |chunks| ==> chunks[i].Data?
    ensures Delivered(chunks) == Concatenation(chunks)
  {
    if chunks != [] {
      WholeStreamDelivered(chunks[1..]);
    }
  }

  /** The download succeeds iff the announced length, if any, and the total both fit and the stream is unbroken, and is then the whole of it. */
  lemma SucceedsExactly(contentLength: Option<U64>, chunks: seq<Chunk>, maxBytes: U64, body: Bytes)
    ensures Downloaded(contentLength, chunks, maxBytes) == Ok(body)
            <==> && (contentLength.Some? ==> contentLength.value <= maxBytes)
                 && (forall i :: 0 <= i < |chunks| ==> chunks[i].Data?)
                 && body == Concatenation(chunks) && |body| <= maxBytes
  {
    if !Breaks(chunks) {
      assert forall i :: 0 <= i < |chunks| ==> chunks[i].Data?;
      WholeStreamDelivered(chunks);
    }
  }

  /** What came before a stream broke off: the chunks before the first failure, joined. */
  lemma {:induction false} DeliveredBeforeBreak(chunks: seq<Chunk>, k: nat)
    requires k < |chunks| && chunks[k].Broken? && forall i :: 0 <= i < k ==> chunks[i].Data?
    ensures Delivered(chunks) == Concatenation(chunks[..k])
  {
    DeliveredSplits(chunks, k);
    WholeStreamDelivered(chunks[..k]);
    assert Delivered(chunks[k..]) == [];
  }

  /**
   * The two ways to fail: too large if the announced length or what is delivered outgrows the ceiling - which
   * the error names -, and otherwise a transport failure if the stream breaks off.
   */
  lemma FailsExactly(contentLength: Option<U64>, chunks: seq<Chunk>, maxBytes: U64)
    ensures var tooLarge := (contentLength.Some? && contentLength.value > maxBytes) || |Delivered(chunks)| > maxBytes;
            && (Downloaded(contentLength, chunks, maxBytes) == Err(TooLarge(maxBytes)) <==> tooLarge)
            && (Downloaded(contentLength, chunks, maxBytes) == Err(Fetch) <==> !tooLarge && exists k :: 0 <= k < |chunks| && chunks[k].Broken?)
            && (Downloaded(contentLength, chunks, maxBytes).Err? ==> Downloaded(contentLength, chunks, maxBytes).error in {TooLarge(maxBytes), Fetch})
  {
  }

  /** On an unbroken stream a truthful length never changes the outcome. */
  lemma TruthfulLengthIsHarmless(chunks: seq<Chunk>, maxBytes: U64, length: U64)
    requires (forall i :: 0 <= i < |chunks| ==> chunks[i].Data?) && length == |Concatenation(chunks)|
    ensures Downloaded(Some(length), chunks, maxBytes) == Downloaded(None, chunks, maxBytes)
  {
    WholeStreamDelivered(chunks);
  }

  /** In general the early check does change the outcome, namely when it fires on a stream that would not have outgrown the ceiling. */
  lemma EarlyCheckMattersExactly(chunks: seq<Chunk>, maxBytes: U64, length: U64)
    ensures Downloaded(Some(length), chunks, maxBytes) != Downloaded(None, chunks, maxBytes)
            <==> length > maxBytes && |Delivered(chunks)| <= maxBytes
  {
  }

  /** For one, a transfer that breaks off early is reported as too large instead of as a transport failure. */
  lemma BrokenTransferIsRelabelled()
    ensures Downloaded(None, [Data([0]), Broken], 1) == Err(Fetch)
    ensures Downloaded(Some(2), [Data([0]), Broken], 1) == Err(TooLarge(1))
  {
    var chunks := [Data([0]), Broken];
    assert chunks[1].Broken? && chunks[1..] == [Broken];
    assert Delivered(chunks) == [0] + Delivered(chunks[1..]);
  }
}
