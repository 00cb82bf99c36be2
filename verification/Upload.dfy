/**
 A whole streaming upload: the announced Content-Length and the body that the
 HTTP transport drains from the re-encoder with buffers of any sizes.
 */
module Uploading {
  import opened Text
  import opened ChunkedFormat
  import opened ChunkedSource
  import opened ReEncoding

  /** Adds up the stream length chunk by chunk; a negative payload length counts as an empty payload. */
  method CalculateReEncodedContentLength(decodedLength: int, chunkSize: nat) returns (totalLen: int)
    requires chunkSize > 0
    ensures totalLen == EncodedLength(Max(decodedLength, 0), chunkSize)
  {
    if decodedLength == 0 {
      return 1 + 17 + 64 + 2 + 2;
    }
    var numFullChunks := TruncDiv(decodedLength, chunkSize);
    var lastChunkSize := TruncMod(decodedLength, chunkSize);
    totalLen := 0;
    var i := 0;
    ghost var left: nat := Max(decodedLength, 0);
    while i < numFullChunks
      invariant decodedLength > 0 ==> left / chunkSize == numFullChunks - i && left % chunkSize == lastChunkSize
      invariant decodedLength < 0 ==> left == 0 && numFullChunks <= 0 && lastChunkSize <= 0
      invariant totalLen + EncodedLength(left, chunkSize) == EncodedLength(Max(decodedLength, 0), chunkSize)
    {
      var hexLen := |Hex(chunkSize)|;
      totalLen := totalLen + hexLen + 17 + 64 + 2;
      totalLen := totalLen + chunkSize + 2;
      DivModStep(left, chunkSize);
      left := left - chunkSize;
      i := i + 1;
    }
    DivModStep(left, chunkSize);
    if lastChunkSize > 0 {
      var hexLen := |Hex(lastChunkSize)|;
      totalLen := totalLen + hexLen + 17 + 64 + 2;
      totalLen := totalLen + lastChunkSize + 2;
    }
    totalLen := totalLen + 1 + 17 + 64 + 2 + 2;
  }

  /**
   The whole run, for every well-formed source and every choice of buffer sizes:
   the body is the reference encoding of the payload, it is exactly as long as
   announced, and the backend's verifier accepts it.
   */
  method Upload(chunks: seq<SourceChunk>, final: SourceChunk, tail: string, signer: Signer, region: string,
                seed: string, bufferSize: nat -> nat)
    returns (announced: int, body: string)
    requires final.Valid() && final.data == ""
    requires forall k :: k in chunks ==> k.Valid() && k.data != ""
    requires |signer.amzDate| >= 8 && signer.scope == ScopeOf(signer.amzDate, region)
    requires forall i :: bufferSize(i) > 0
    ensures body == Encode(signer, CHUNK_SIZE, Payload(chunks), seed, Clean)
    ensures announced == |body|
    ensures Verify(signer, seed, body) == Some(Payload(chunks))
    ensures forall c: nat :: c > 0 ==> Decode(c, 0, body) == Decoded(Payload(chunks), Clean)
  {
    hide Encode, Decode, Verify, EncodedLength, ScopeOf, RenderAll, SourceChunk.Render, SourceChunk.Valid;
    ghost var stream := Encode(signer, CHUNK_SIZE, Payload(chunks), seed, Clean);
    announced := CalculateReEncodedContentLength(|Payload(chunks)|, CHUNK_SIZE);
    var r := new ReEncoder(RenderAll(chunks) + (final.Render() + tail), signer.hash, signer.mac, signer.key,
                           signer.amzDate, region, seed);
    DecodeRendered(CHUNK_SIZE, chunks, final, tail);
    body := "";
    var count := 0;
    while true
      invariant fresh(r) && r.Valid() && r.Upcoming().end.Clean?
      invariant body + r.Output() == stream
      decreases |stream| - |body|
    {
      var data, status := r.Read(bufferSize(count));
      if status.EOF? {
        break;
      }
      count := count + 1;
      assert body + (data + r.Output()) == (body + data) + r.Output();
      body := body + data;
    }
    assert body + "" == body;
    EncodeLength(signer, CHUNK_SIZE, Payload(chunks), seed);
    EncodeVerifies(signer, CHUNK_SIZE, Payload(chunks), seed);
    forall c: nat | c > 0
      ensures Decode(c, 0, body) == Decoded(Payload(chunks), Clean)
    {
      DecodeEncoded(c, signer, CHUNK_SIZE, Payload(chunks), seed);
    }
  }

  // ----- uploads that are cut off -----

  lemma {:induction false} PayloadSplits(chunks: seq<SourceChunk>, i: nat)
    requires i <= |chunks|
    ensures Payload(chunks) == Payload(chunks[..i]) + Payload(chunks[i..])
    ensures RenderAll(chunks) == RenderAll(chunks[..i]) + RenderAll(chunks[i..])
  {
    if i == 0 {
      assert chunks[..0] == [] && chunks[0..] == chunks;
      assert "" + Payload(chunks) == Payload(chunks) && "" + RenderAll(chunks) == RenderAll(chunks);
    } else {
      hide SourceChunk.Render;
      PayloadSplits(chunks[1..], i - 1);
      assert chunks[..i][1..] == chunks[1..][..i - 1] && chunks[..i][0] == chunks[0];
      assert chunks[1..][i - 1..] == chunks[i..];
      Assoc(chunks[0].data, Payload(chunks[1..][..i - 1]), Payload(chunks[i..]));
      Assoc(chunks[0].Render(), RenderAll(chunks[1..][..i - 1]), RenderAll(chunks[i..]));
    }
  }

  /** Without a clean end the stream stops short of the length of what was read. */
  lemma {:induction false} UncleanIsShort(signer: Signer, c: nat, payload: string, prev: string, end: End)
    requires c > 0 && !end.Clean?
    ensures |Encode(signer, c, payload, prev, end)| < EncodedLength(|payload|, c)
    decreases |payload|
  {
    if |payload| >= c {
      hide EncodeChunk, ChunkLength;
      var data := payload[..c];
      UncleanIsShort(signer, c, payload[c..], signer.Sign(prev, data), end);
      EncodeChunkLength(data, signer.Sign(prev, data));
    }
  }

  /** A cut source delivers part of the payload, and all of it with a clean end only if no data byte is missing. */
  lemma {:induction false} CutPayload(c: nat, chunks: seq<SourceChunk>, final: SourceChunk, tail: string, cut: string)
    requires c > 0 && final.Valid() && final.data == ""
    requires forall k :: k in chunks ==> k.Valid() && k.data != ""
    requires cut <= RenderAll(chunks) + (final.Render() + tail)
    ensures var d := Decode(c, 0, cut);
            && d.payload <= Payload(chunks)
            && (d == Decoded(Payload(chunks), Clean)
                <==> |cut| >= |RenderAll(chunks)| || |cut| == |RenderAll(chunks)| - 2)
  {
    hide Decode, SourceChunk.Valid;
    var i := ChunkAt(chunks, |cut|);
    DecodeTruncated(c, chunks, final, tail, cut);
    Located(chunks, |cut|);
    PayloadSplits(chunks, i);
    if i == |chunks| {
      assert chunks[..i] == chunks;
      assert Payload(chunks) + "" == Payload(chunks);
    } else {
      var chunk, m := chunks[i], OffsetAt(chunks, |cut|);
      var rest := chunks[i + 1..];
      assert chunks[i..][0] == chunk && chunks[i..][1..] == rest;
      var last := CutChunk(c, chunk, m);
      CutChunkPayload(c, chunk, m);
      RestIsEmptyIff(rest);
      assert chunk in chunks;
      SameTail(Payload(chunks[..i]), last.payload, chunk.data + Payload(rest));
      assert last.payload <= chunk.data + Payload(rest);
    }
  }

  lemma {:induction false} SameTail(a: string, b: string, x: string)
    ensures a + b == a + x <==> b == x
    ensures b <= x ==> a + b <= a + x
  {
    assert (a + b)[|a|..] == b && (a + x)[|a|..] == x;
    if b <= x {
      assert a + x == (a + b) + x[|b|..];
    }
  }

  lemma CutChunkPayload(c: nat, chunk: SourceChunk, m: nat)
    requires c > 0 && chunk.data != "" && m < |chunk.Render()|
    ensures var d := CutChunk(c, chunk, m);
            && d.payload <= chunk.data
            && (d == Decoded(chunk.data, Clean) <==> m == |chunk.Render()| - 2)
  {}

  lemma RestIsEmptyIff(rest: seq<SourceChunk>)
    ensures rest == [] ==> Payload(rest) == "" && RenderAll(rest) == ""
    ensures rest != [] ==> |RenderAll(rest)| >= |rest[0].Render()| >= 4
    ensures rest != [] && rest[0].data != "" ==> Payload(rest) != ""
  {}

  /**
   An upload whose source is cut off never comes out as long as announced,
   unless only the last CRLF of the data or what follows it is missing. If the
   cut goes unnoticed, the body is still a complete stream of what was read.
   */
  lemma {:induction false} CutUploadIsShort(c: nat, chunks: seq<SourceChunk>, final: SourceChunk, tail: string,
                                            cut: string, signer: Signer, seed: string)
    requires 0 < c < 0x8000_0000_0000_0000 && final.Valid() && final.data == ""
    requires forall k :: k in chunks ==> k.Valid() && k.data != ""
    requires cut <= RenderAll(chunks) + (final.Render() + tail)
    ensures var d := Decode(c, 0, cut);
            var body := Encode(signer, c, d.payload, seed, d.end);
            && |body| <= EncodedLength(|Payload(chunks)|, c)
            && (|body| == EncodedLength(|Payload(chunks)|, c)
                <==> |cut| >= |RenderAll(chunks)| || |cut| == |RenderAll(chunks)| - 2)
            && (d.end.Clean? ==> Verify(signer, seed, body) == Some(d.payload))
  {
    hide Decode, Encode, Verify, EncodedLength, SourceChunk.Valid, SourceChunk.Render;
    var d := Decode(c, 0, cut);
    CutPayload(c, chunks, final, tail, cut);
    if |d.payload| < |Payload(chunks)| {
      EncodedLengthStrict(|d.payload|, |Payload(chunks)|, c);
    } else {
      assert d.payload == Payload(chunks);
    }
    if d.end.Clean? {
      EncodeLength(signer, c, d.payload, seed);
      EncodeVerifies(signer, c, d.payload, seed);
    } else {
      UncleanIsShort(signer, c, d.payload, seed, d.end);
    }
  }
}
