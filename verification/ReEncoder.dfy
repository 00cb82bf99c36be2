/**
 The streaming re-encoder: an io.Reader whose fields are updated by every
 Read, and the Content-Length that is announced before the first one.
 */
module ReEncoding {
  import opened Text
  import opened ChunkedFormat
  import opened ChunkedSource

  const CHUNK_SIZE: nat := 64 * 1024

  datatype ReadStatus = Ok | EOF | Failure(error: End)

  /** The credential scope of a request that is dated amzDate. */
  function ScopeOf(amzDate: string, region: string): string
    requires |amzDate| >= 8
  {
    Join([amzDate[..8], region, "s3", "aws4_request"], '/')
  }

  /** Day, region, service and request type. */
  lemma {:induction false} ScopeFields(amzDate: string, region: string)
    requires |amzDate| >= 8 && '/' !in amzDate[..8] && '/' !in region
    ensures Parts(ScopeOf(amzDate, region), '/') == [amzDate[..8], region, "s3", "aws4_request"]
  {
    hide Parts, Join;
    PartsOfJoin([amzDate[..8], region, "s3", "aws4_request"], '/');
  }

  lemma {:induction false} NothingBuffered(signer: Signer, c: nat, d: Decoded, seed: string)
    requires c > 0
    ensures "" + Encode(signer, c, "" + d.payload, seed, d.end) == Encode(signer, c, d.payload, seed, d.end)
  {
    assert "" + d.payload == d.payload;
  }

  /** What Emit does in the reference encoding: the first chunk is cut from the raw buffer. */
  lemma {:induction false} RawChunkFirst(signer: Signer, c: nat, raw: string, more: string, prev: string, end: End)
    requires c > 0 && raw != "" && (|raw| >= c || (more == "" && end.Clean?))
    ensures var k := Min(|raw|, c);
            var sig := signer.Sign(prev, raw[..k]);
            && Encode(signer, c, raw + more, prev, end)
               == EncodeChunk(raw[..k], sig) + Encode(signer, c, raw[k..] + more, sig, end)
            && 0 < |EncodeChunk(raw[..k], sig)| <= ChunkLength(c)
  {
    hide Encode, EncodeChunk, ChunkLength;
    var payload, k := raw + more, Min(|raw|, c);
    EncodeFirst(signer, c, payload, prev, end);
    assert Min(|payload|, c) == k && payload[..k] == raw[..k] && payload[k..] == raw[k..] + more;
    ChunkFits(raw[..k], signer.Sign(prev, raw[..k]), c);
  }

  lemma {:induction false} OnlyFinalChunk(signer: Signer, c: nat, prev: string)
    requires c > 0
    ensures Encode(signer, c, "" + "", prev, Clean) == FinalChunk(signer.Sign(prev, ""))
    ensures 0 < |FinalChunk(signer.Sign(prev, ""))| == FINAL_LENGTH
  {
    ChunkFits("", signer.Sign(prev, ""), c);
  }

  class ReEncoder {
    const signer: Signer
    const chunkSize: nat
    var src: string         // the part of the source stream not read yet
    var prevSig: string
    var outputBuf: string
    var rawBuf: string
    var done: bool
    var srcRemaining: int
    var srcEOF: bool

    /** What the source still delivers. */
    ghost function Upcoming(): Decoded
      requires chunkSize > 0
      reads this
    {
      if srcEOF then Decoded("", Clean) else Decode(chunkSize, srcRemaining, src)
    }

    /** Every byte that future reads return: what is buffered, then the encoding of what is still to come. */
    ghost function Output(): string
      requires chunkSize > 0
      reads this
    {
      outputBuf +
      if done then ""
      else Encode(signer, chunkSize, rawBuf + Upcoming().payload, prevSig, Upcoming().end)
    }

    /** The memory bound: less than two raw chunks, and at most one encoded chunk plus the final one. */
    ghost predicate Valid()
      reads this
    {
      && chunkSize == CHUNK_SIZE
      && |rawBuf| < 2 * chunkSize
      && |outputBuf| <= ChunkLength(chunkSize) + FINAL_LENGTH
      && (done ==> srcEOF && rawBuf == "")
    }

    constructor (src: string, hash: string -> Hex64, mac: (string, string) -> Hex64,
                 signingKey: string, amzDate: string, region: string, seedSignature: string)
      requires |amzDate| >= 8
      ensures Valid()
      ensures signer == Signer(hash, mac, signingKey, amzDate, ScopeOf(amzDate, region))
      ensures Upcoming() == Decode(CHUNK_SIZE, 0, src)
      ensures Output() == Encode(signer, CHUNK_SIZE, Upcoming().payload, seedSignature, Upcoming().end)
    {
      hide Encode, Decode, ScopeOf, ChunkLength;
      this.signer := Signer(hash, mac, signingKey, amzDate, ScopeOf(amzDate, region));
      this.chunkSize := CHUNK_SIZE;
      this.src := src;
      this.prevSig := seedSignature;
      this.outputBuf, this.rawBuf := "", "";
      this.done, this.srcEOF, this.srcRemaining := false, false, 0;
      new;
      NothingBuffered(signer, chunkSize, Upcoming(), seedSignature);
    }

    /** bytes.Buffer.Read on the output buffer. */
    method ReadBuffered(cap: nat) returns (data: string)
      modifies this`outputBuf
      ensures data + outputBuf == old(outputBuf) && |data| == Min(cap, |old(outputBuf)|)
    {
      var n := Min(cap, |outputBuf|);
      data := outputBuf[..n];
      outputBuf := outputBuf[n..];
    }

    method WriteChunk(data: string)
      modifies this`prevSig, this`outputBuf
      ensures prevSig == signer.Sign(old(prevSig), data)
      ensures outputBuf == old(outputBuf) + EncodeChunk(data, signer.Sign(old(prevSig), data))
    {
      var sig := signer.Sign(prevSig, data);
      prevSig := sig;
      outputBuf := outputBuf + Header(|data|, sig);
      outputBuf := outputBuf + data;
      outputBuf := outputBuf + "\r\n";
    }

    method WriteFinalChunk()
      modifies this`outputBuf
      ensures outputBuf == old(outputBuf) + FinalChunk(signer.Sign(prevSig, ""))
    {
      var sig := signer.Sign(prevSig, "");
      outputBuf := outputBuf + ("0" + SIGNATURE_FIELD + sig + "\r\n");
      outputBuf := outputBuf + "\r\n";
    }

    method ReadTrailers()
      modifies this`src
      ensures src == SkipTrailers(old(src))
    {
      while true
        invariant SkipTrailers(src) == SkipTrailers(old(src))
        decreases |src|
      {
        match NextLine(src) {
          case None =>
            src := "";
            return;
          case Some((line, rest)) =>
            src := rest;
            if TrimEol(line) == "" {
              return;
            }
        }
      }
    }

    /** readFromSource: appends some payload, or reports the end of the source or a malformed source. */
    method ReadFromSource() returns (status: ReadStatus)
      requires chunkSize > 0
      modifies this`src, this`rawBuf, this`srcRemaining
      ensures match ReadSource(chunkSize, old(srcRemaining), old(src))
        case Got(data, r, s) => status == Ok && rawBuf == old(rawBuf) + data && srcRemaining == r && src == s
        case AtEnd(s) => status == EOF && rawBuf == old(rawBuf) && src == s
        case Failed(e, data, s) => status == Failure(e) && rawBuf == old(rawBuf) + data && src == s
      decreases |src|
    {
      if srcRemaining > 0 {
        var toRead := srcRemaining;
        if toRead > chunkSize {
          toRead := chunkSize;
        }
        var n := Min(toRead, |src|);
        rawBuf := rawBuf + src[..n];
        src := src[n..];
        srcRemaining := srcRemaining - n;
        if srcRemaining == 0 {
          if |src| == 1 {
            src := "";
            return Failure(BadCrlf);
          }
          src := src[Min(2, |src|)..];
        }
        return Ok;
      }
      match NextLine(src) {
        case None =>
          src := "";
          return EOF;
        case Some((line, rest)) =>
          src := rest;
          match ParseSize(line) {
            case None =>
              assert rawBuf == rawBuf + "";
              return Failure(BadSize);
            case Some(size) =>
              if size == 0 {
                ReadTrailers();
                return EOF;
              }
              srcRemaining := size;
              status := ReadFromSource();
          }
      }
    }

    /**
     One Read. It hands out the next bytes of Output() and nothing else, never an
     empty answer for a non-empty buffer, and ends with EOF or the source's error
     only once every byte has been handed out. The precondition excludes exactly
     the states in which the fill loop runs for ever (see ReadHangsIff).
     */
    method Read(cap: nat) returns (data: string, status: ReadStatus)
      requires Valid()
      requires Output() == "" ==> !Upcoming().end.Stalled?
      modifies this
      ensures Valid()
      ensures status.Ok? <==> old(Output()) != ""
      ensures status.Ok? ==> data + Output() == old(Output()) && |data| <= cap && (cap > 0 ==> data != "")
      ensures status.Ok? ==> Upcoming().end == old(Upcoming().end)
      ensures status.EOF? ==> data == "" && old(Upcoming().end).Clean? && Output() == ""
      ensures status.Failure? ==> data == "" && status.error == old(Upcoming().end) && !status.error.Clean?
    {
      hide Encode, Decode, ChunkLength;
      ghost var out := Output();
      if outputBuf != "" {
        data := ReadBuffered(cap);
        assert data + Output() == out;
        return data, Ok;
      }
      if done {
        return "", EOF;
      }
      status := Fill();
      if status.Failure? {
        return "", status;
      }
      Emit();
      data := ReadBuffered(cap);
      assert data + Output() == out;
      status := Ok;
    }

    /** The loop at the start of Read: reads until a whole chunk is there or the source has ended. */
    method Fill() returns (status: ReadStatus)
      requires Valid() && outputBuf == "" && !done
      requires Output() == "" ==> !Upcoming().end.Stalled?
      modifies this`src, this`rawBuf, this`srcRemaining, this`srcEOF
      ensures Valid() && outputBuf == "" && !done
      ensures !status.EOF?
      ensures status.Ok? ==> Output() == old(Output()) && Upcoming().end == old(Upcoming().end)
                             && (|rawBuf| >= chunkSize || srcEOF)
      ensures status.Failure? ==> old(Output()) == "" && status.error == old(Upcoming().end) && !status.error.Clean?
    {
      hide Encode, Decode, ReadSource, ChunkLength;
      while |rawBuf| < chunkSize && !srcEOF
        invariant Valid() && outputBuf == "" && !done
        invariant Output() == old(Output()) && Upcoming().end == old(Upcoming().end)
        decreases |src|, !srcEOF
      {
        ghost var raw, d := rawBuf, Upcoming();
        DecodeStep(chunkSize, srcRemaining, src);
        EncodeEmptyIff(signer, chunkSize, raw + d.payload, prevSig, d.end);
        status := ReadFromSource();
        if status.EOF? {
          srcEOF := true;
          assert raw + "" == raw;
          break;
        }
        if status.Failure? {
          return status;
        }
        assert rawBuf + Upcoming().payload == raw + d.payload;
      }
      status := Ok;
    }

    /** The middle of Read: signs and buffers one chunk, and the final chunk when nothing is left. */
    method Emit()
      requires Valid() && outputBuf == "" && !done
      requires |rawBuf| >= chunkSize || srcEOF
      modifies this`rawBuf, this`prevSig, this`outputBuf, this`done
      ensures Valid() && outputBuf != ""
      ensures Output() == old(Output()) && Upcoming() == old(Upcoming())
    {
      hide Decode, Encode, EncodeChunk, FinalChunk, ChunkLength;
      if rawBuf != "" {
        var emitSize := |rawBuf|;
        if emitSize > chunkSize {
          emitSize := chunkSize;
        }
        var chunkData := rawBuf[..emitSize];
        RawChunkFirst(signer, chunkSize, rawBuf, Upcoming().payload, prevSig, Upcoming().end);
        rawBuf := rawBuf[emitSize..];
        WriteChunk(chunkData);
      }
      if srcEOF && rawBuf == "" && !done {
        OnlyFinalChunk(signer, chunkSize, prevSig);
        WriteFinalChunk();
        done := true;
      }
    }

    /** Read may not be called exactly where its fill loop would iterate for ever. */
    lemma {:induction false} ReadHangsIff()
      requires Valid()
      ensures (Output() == "" && Upcoming().end.Stalled?) <==>
              (outputBuf == "" && !done && !srcEOF
               && forall n: nat :: Iterate(chunkSize, ChunkedSource.Fill(rawBuf, srcRemaining, src), n).Some?)
    {
      FillLoopDivergesIff(chunkSize, ChunkedSource.Fill(rawBuf, srcRemaining, src));
    }
  }
}
