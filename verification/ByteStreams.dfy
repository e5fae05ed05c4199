/** Consumers of byte streams: packages/artifacts/src/hash.ts and packages/artifacts/src/load.ts. */
module ByteStreams {
  import opened Wrappers
  import opened JsText

  type Bytes = seq<Byte>

  /** `Buffer.concat`. */
  function Concat(chunks: seq<Bytes>): Bytes {
    if chunks == [] then [] else Concat(chunks[..|chunks| - 1]) + chunks[|chunks| - 1]
  }

  lemma {:induction false} ConcatPrefix(chunks: seq<Bytes>, n: nat)
    requires n <= |chunks|
    ensures Concat(chunks[..n]) <= Concat(chunks)
    decreases |chunks|
  {
    if n < |chunks| {
      ConcatPrefix(chunks[..|chunks| - 1], n);
      assert chunks[..|chunks| - 1][..n] == chunks[..n];
    } else {
      assert chunks[..n] == chunks;
    }
  }

  /** `hashStream`: SHA-256 is a function of the whole byte sequence, however it is fed. */
  method HashStream(source: seq<Bytes>, digest: Bytes -> Text) returns (contentHash: Text, sizeBytes: nat)
    ensures contentHash == digest(Concat(source)) && sizeBytes == |Concat(source)|
  {
    var hashed: Bytes := [];
    sizeBytes := 0;
    for i := 0 to |source|
      invariant hashed == Concat(source[..i]) && sizeBytes == |hashed|
    {
      hashed := hashed + source[i];
      sizeBytes := sizeBytes + |source[i]|;
      assert source[..i + 1][..i] == source[..i];
    }
    assert source[..|source|] == source;
    contentHash := digest(hashed);
  }

  datatype LoadError = InvalidLimit | NotFound | TooLarge(sizeBytes: nat, maxBytes: int) | StreamFailed

  /** What `storage.get` hands over: nothing, or a stream that ends or fails after some chunks. */
  datatype Stream = Absent | Chunks(chunks: seq<Bytes>, fails: bool)

  /**
   * `readArtifactToBuffer`; `kept` is what it holds in memory when it stops. The bytes come back whole
   * when they fit under the cap, in whatever pieces they arrive; otherwise reading stops at the first
   * piece that goes over, with no more than the cap in memory.
   */
  method ReadArtifactToBuffer(stream: Stream, maxBytes: int) returns (r: Result<Bytes, LoadError>, kept: Bytes)
    ensures maxBytes <= 0 <==> r == Err(InvalidLimit)
    ensures maxBytes > 0 ==> (stream.Absent? <==> r == Err(NotFound))
    ensures maxBytes > 0 && stream.Chunks? ==>
      var all := Concat(stream.chunks);
      && (r.Ok? <==> |all| <= maxBytes && !stream.fails)
      && (r.Ok? ==> r.value == all)
      && (r == Err(StreamFailed) <==> |all| <= maxBytes && stream.fails)
      && (|all| > maxBytes ==> r.Err? && r.error.TooLarge? && r.error.maxBytes == maxBytes < r.error.sizeBytes <= |all|)
    ensures |kept| <= (if maxBytes < 0 then 0 else maxBytes)
    ensures stream.Chunks? ==> kept <= Concat(stream.chunks)
  {
    kept := [];
    if maxBytes <= 0 { return Err(InvalidLimit), kept; }
    if stream.Absent? { return Err(NotFound), kept; }
    var source := stream.chunks;
    var chunks: seq<Bytes> := [];
    var total := 0;
    for i := 0 to |source|
      invariant chunks == source[..i] && total == |Concat(chunks)| <= maxBytes
      invariant Concat(chunks) <= Concat(source)
    {
      total := total + |source[i]|;
      ConcatPrefix(source, i + 1);
      assert source[..i + 1][..i] == source[..i];
      if total > maxBytes {
        return Err(TooLarge(total, maxBytes)), Concat(chunks);
      }
      chunks := chunks + [source[i]];
      assert chunks == source[..i + 1];
    }
    kept := Concat(chunks);
    assert chunks == source;
    if stream.fails { return Err(StreamFailed), kept; }
    return Ok(kept), kept;
  }
}
