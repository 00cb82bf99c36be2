/**
 Reading an aws-chunked source: what one call of readFromSource does, what a
 whole source decodes to, and why well-formed and re-encoded streams decode
 to their payload.
 */
module ChunkedSource {
  import opened Text
  import opened ChunkedFormat

  /** The effect of one readFromSource call: data appended, and the source position after it. */
  datatype SourceStep =
    | Got(data: string, remaining: int, src: string)
    | AtEnd(src: string)
    | Failed(error: End, data: string, src: string)

  /** Trailer lines up to and including the first empty one, or to the end of input. */
  function SkipTrailers(src: string): string
    decreases |src|
  {
    match NextLine(src)
    case None => ""
    case Some((line, rest)) => if TrimEol(line) == "" then rest else SkipTrailers(rest)
  }

  /** The data part of a chunk, at most c bytes at a time, and the CRLF after the last slice. */
  function ReadData(c: nat, remaining: nat, src: string): SourceStep
    requires c > 0 && remaining > 0
  {
    var k := Min(remaining, c);
    if k > |src| then Got(src, remaining - |src|, "")
    else if k < remaining then Got(src[..k], remaining - k, src[k..])
    else if |src| == k + 1 then Failed(BadCrlf, src[..k], "")
    else Got(src[..k], 0, src[Min(k + 2, |src|)..])
  }

  /** readFromSource. A negative size leaves nothing to read, so the next line is taken as a header. */
  function ReadSource(c: nat, remaining: int, src: string): SourceStep
    requires c > 0
    decreases |src|
  {
    if remaining > 0 then ReadData(c, remaining, src)
    else
      match NextLine(src)
      case None => AtEnd("")
      case Some((line, rest)) =>
        match ParseSize(line)
        case None => Failed(BadSize, "", rest)
        case Some(size) =>
          if size == 0 then AtEnd(SkipTrailers(rest)) else ReadSource(c, size, rest)
  }

  /** All payload a source delivers before it ends, and how it ends. */
  datatype Decoded = Decoded(payload: string, end: End)

  function Prepend(x: string, d: Decoded): Decoded { Decoded(x + d.payload, d.end) }

  function Decode(c: nat, remaining: int, src: string): Decoded
    requires c > 0
    decreases |src|
  {
    if remaining > 0 then
      var k := Min(remaining, c);
      if k > |src| then Decoded(src, Stalled)
      else if k < remaining then Prepend(src[..k], Decode(c, remaining - k, src[k..]))
      else if |src| == k + 1 then Decoded("", BadCrlf)
      else Prepend(src[..k], Decode(c, 0, src[Min(k + 2, |src|)..]))
    else
      match NextLine(src)
      case None => Decoded("", Clean)
      case Some((line, rest)) =>
        match ParseSize(line)
        case None => Decoded("", BadSize)
        case Some(size) => if size == 0 then Decoded("", Clean) else Decode(c, size, rest)
  }

  /** Decode is what repeated readFromSource calls deliver, and each call makes progress unless the source stalls. */
  lemma {:induction false} DecodeStep(c: nat, remaining: int, src: string)
    requires c > 0
    ensures var d := Decode(c, remaining, src);
            match ReadSource(c, remaining, src)
            case Got(data, r, s) =>
              d == Prepend(data, Decode(c, r, s)) && |data| <= c
              && (|s| < |src| || (d == Decoded("", Stalled) && data == "" && r == remaining > 0 && s == src == ""))
            case AtEnd(_) => d == Decoded("", Clean)
            case Failed(e, data, _) => d == Decoded("", e) && |data| <= c && !e.Clean? && !e.Stalled?
    decreases |src|
  {
    if remaining > 0 {
      var k := Min(remaining, c);
      if k > |src| {
        assert src + "" == src;
        assert Decode(c, remaining - |src|, "") == Decoded("", Stalled);
      }
    } else {
      match NextLine(src)
      case None =>
      case Some((line, rest)) =>
        match ParseSize(line)
        case None =>
        case Some(size) =>
          if size != 0 {
            DecodeStep(c, size, rest);
          }
    }
  }

  // ----- the fill loop of Read, and when it never leaves -----

  datatype Fill = Fill(raw: string, remaining: int, src: string)

  /** The loop state after n iterations of the fill loop, or None once the loop has left. */
  function Iterate(c: nat, s: Fill, n: nat): Option<Fill>
    requires c > 0
    decreases n
  {
    if |s.raw| >= c then None
    else if n == 0 then Some(s)
    else
      match ReadSource(c, s.remaining, s.src)
      case Got(data, r, src) => Iterate(c, Fill(s.raw + data, r, src), n - 1)
      case AtEnd(_) => None
      case Failed(_, _, _) => None
  }

  /** The source ends inside chunk data and what it still has cannot fill a chunk. */
  predicate Diverges(c: nat, s: Fill)
    requires c > 0
  {
    var d := Decode(c, s.remaining, s.src);
    d.end.Stalled? && |s.raw| + |d.payload| < c
  }

  lemma {:induction false} DivergingRuns(c: nat, s: Fill, n: nat)
    requires c > 0 && Diverges(c, s)
    ensures Iterate(c, s, n).Some?
    decreases n
  {
    hide Decode, ReadSource;
    DecodeStep(c, s.remaining, s.src);
    if n > 0 {
      match ReadSource(c, s.remaining, s.src)
      case Got(data, r, src) => DivergingRuns(c, Fill(s.raw + data, r, src), n - 1);
    }
  }

  lemma {:induction false} OthersLeave(c: nat, s: Fill)
    requires c > 0 && !Diverges(c, s)
    ensures Iterate(c, s, |s.src| + 1).None?
    decreases |s.src|
  {
    DecodeStep(c, s.remaining, s.src);
    if |s.raw| < c {
      match ReadSource(c, s.remaining, s.src)
      case Got(data, r, src) =>
        var next := Fill(s.raw + data, r, src);
        OthersLeave(c, next);
        LeavingIsFinal(c, next, |src| + 1, |s.src|);
      case AtEnd(_) =>
      case Failed(_, _, _) =>
    }
  }

  lemma {:induction false} LeavingIsFinal(c: nat, s: Fill, m: nat, n: nat)
    requires c > 0 && m <= n && Iterate(c, s, m).None?
    ensures Iterate(c, s, n).None?
    decreases m
  {
    if |s.raw| < c && m > 0 {
      match ReadSource(c, s.remaining, s.src)
      case Got(data, r, src) => LeavingIsFinal(c, Fill(s.raw + data, r, src), m - 1, n - 1);
      case AtEnd(_) =>
      case Failed(_, _, _) =>
    }
  }

  /** The fill loop runs for ever exactly on a source that ends inside a chunk before filling one. */
  lemma {:induction false} FillLoopDivergesIff(c: nat, s: Fill)
    requires c > 0
    ensures Diverges(c, s) <==> forall n: nat :: Iterate(c, s, n).Some?
  {
    if Diverges(c, s) {
      forall n: nat
        ensures Iterate(c, s, n).Some?
      {
        DivergingRuns(c, s, n);
      }
    } else {
      OthersLeave(c, s);
    }
  }

  // ----- well-formed sources -----

  /** A chunk as a client may send it: size digits in either case, any extension, then the data. */
  datatype SourceChunk = SourceChunk(digits: string, extension: string, data: string)
  {
    ghost predicate Valid() {
      && digits != "" && ParseDigits(digits) == Some(|data|) && |data| < 0x8000_0000_0000_0000
      && (extension == "" || extension[0] == ';') && '\n' !in extension
    }

    function Render(): string { digits + extension + "\r\n" + data + "\r\n" }
  }

  function RenderAll(chunks: seq<SourceChunk>): string {
    if chunks == [] then "" else chunks[0].Render() + RenderAll(chunks[1..])
  }

  function Payload(chunks: seq<SourceChunk>): string {
    if chunks == [] then "" else chunks[0].data + Payload(chunks[1..])
  }

  lemma {:induction false} DigitsArePlain(s: string, n: nat)
    requires ParseDigits(s) == Some(n)
    ensures forall ch :: ch in s ==> DigitValue(ch).Some?
  {
    if s != "" {
      var init := s[..|s| - 1];
      DigitsArePlain(init, ParseDigits(init).value);
      assert s == init + [s[|s| - 1]];
    }
  }

  /** A header line gives back the size that its digits denote. */
  lemma {:induction false} ParseSizeOfHeader(digits: string, extension: string, n: nat)
    requires digits != "" && ParseDigits(digits) == Some(n) && n < 0x8000_0000_0000_0000
    requires (extension == "" || extension[0] == ';') && '\n' !in extension
    ensures ParseSize(digits + extension + "\r\n") == Some(n)
    ensures '\n' !in digits + extension + "\r"
  {
    hide TrimEol, TrimSpace, IndexByte;
    DigitsArePlain(digits, n);
    assert forall i :: 0 <= i < |digits| ==> DigitValue(digits[i]).Some?;
    var header := digits + extension;
    assert header + "\r\n" == digits + extension + "\r\n";
    TrimEolOf(header);
    TrimDigits(digits);
    if extension == "" {
      IndexByteFirst(header, ';');
      assert header == digits;
    } else {
      assert header == digits + [';'] + extension[1..];
      IndexByteAt(digits, ';', extension[1..]);
      assert header[..|digits|] == digits;
    }
    assert digits[0] != '+' && digits[0] != '-';
  }

  lemma {:induction false} TrimEolOf(header: string)
    requires header != "" && header[|header| - 1] != '\n'
    ensures TrimEol(header + "\r\n") == header
  {
    var line := header + "\r\n";
    assert line[..|line| - 2] == header && line[|line| - 2..] == "\r\n";
  }

  lemma {:induction false} TrimDigits(digits: string)
    requires digits != "" && forall ch :: ch in digits ==> DigitValue(ch).Some?
    ensures TrimSpace(digits) == digits
  {
    assert digits[0] in digits && digits[|digits| - 1] in digits;
  }

  predicate AllSpace(s: string) { forall i :: 0 <= i < |s| ==> IsSpace(s[i]) }

  lemma {:induction false} TrimLeftPad(pad: string, s: string)
    requires AllSpace(pad) && s != "" && !IsSpace(s[0])
    ensures TrimLeft(pad + s) == s
  {
    if pad == "" {
      assert pad + s == s;
    } else {
      assert (pad + s)[1..] == pad[1..] + s;
      TrimLeftPad(pad[1..], s);
    }
  }

  lemma {:induction false} TrimRightPad(s: string, pad: string)
    requires AllSpace(pad) && s != "" && !IsSpace(s[|s| - 1])
    ensures TrimRight(s + pad) == s
  {
    if pad == "" {
      assert s + pad == s;
    } else {
      var n := |pad| - 1;
      assert (s + pad)[..|s + pad| - 1] == s + pad[..n];
      TrimRightPad(s, pad[..n]);
    }
  }

  lemma {:induction false} TrimPads(pad: string, digits: string, pad': string)
    requires AllSpace(pad) && AllSpace(pad') && digits != "" && forall ch :: ch in digits ==> DigitValue(ch).Some?
    ensures TrimSpace(pad + digits + pad') == digits
  {
    hide TrimLeft, TrimRight, AllSpace;
    assert digits[0] in digits && digits[|digits| - 1] in digits;
    Assoc(pad, digits, pad');
    TrimLeftPad(pad, digits + pad');
    TrimRightPad(digits, pad');
  }

  /** A size may stand between white space, and its line may end with a bare LF. */
  lemma {:induction false} PaddedSize(pad: string, digits: string, pad': string, extension: string, eol: string, n: nat)
    requires digits != "" && ParseDigits(digits) == Some(n) && n < 0x8000_0000_0000_0000
    requires AllSpace(pad) && AllSpace(pad') && '\n' !in pad + pad' && (eol == "\r\n" || eol == "\n")
    requires (extension == "" || extension[0] == ';') && '\n' !in extension
    ensures ParseSize(pad + digits + pad' + extension + eol) == Some(n)
  {
    hide TrimEol, TrimSpace, ParseDigits, AllSpace;
    DigitsArePlain(digits, n);
    assert digits[0] in digits && digits[0] != '+' && digits[0] != '-';
    var text := pad + digits + pad' + extension;
    var header := TrimEol(text + eol);
    assert '\n' !in text by {
      assert forall ch :: ch in text ==> ch in pad + pad' || ch in digits || ch in extension;
    }
    TrimEolForms(text, eol);
    if extension == "" {
      var k := if header == text then |pad'| else |pad'| - 1;
      assert text == pad + digits + pad';
      assert header == pad + digits + pad'[..k] by {
        assert |pad'| == 0 ==> text[|text| - 1] == digits[|digits| - 1];
        assert digits[|digits| - 1] in digits;
        assert pad'[..|pad'|] == pad';
      }
      PadIsPlain(pad, digits, pad'[..k], pad');
      TrimPads(pad, digits, pad'[..k]);
      IndexByteFirst(header, ';');
    } else {
      var tail := extension[1..|extension| - (|text| - |header|)];
      assert header == pad + digits + pad' + [';'] + tail by {
        assert text == pad + digits + pad' + [';'] + extension[1..];
        assert extension == ";" ==> text[|text| - 1] == ';';
      }
      PadIsPlain(pad, digits, pad', pad');
      TrimPads(pad, digits, pad');
      IndexByteAt(pad + digits + pad', ';', tail);
      assert header[..|pad + digits + pad'|] == pad + digits + pad';
    }
  }

  lemma {:induction false} PadIsPlain(pad: string, digits: string, some: string, pad': string)
    requires AllSpace(pad) && AllSpace(pad') && some <= pad' && forall ch :: ch in digits ==> DigitValue(ch).Some?
    ensures ';' !in pad + digits + some && AllSpace(some)
  {
    var s := pad + digits + some;
    forall i | 0 <= i < |s|
      ensures s[i] != ';'
    {
      if |pad| <= i < |pad + digits| {
        assert s[i] in digits;
      }
    }
  }

  /** A bare CR before the LF goes too. */
  lemma {:induction false} TrimEolForms(text: string, eol: string)
    requires text != "" && '\n' !in text && (eol == "\r\n" || eol == "\n")
    ensures TrimEol(text + eol) == text || (text[|text| - 1] == '\r' && TrimEol(text + eol) == text[..|text| - 1])
  {
    var line := text + eol;
    assert line[..|text|] == text;
    if eol == "\n" && text[|text| - 1] == '\r' {
      assert line[..|line| - 2] == text[..|text| - 1];
    }
  }

  /** Chunk data is taken whole, however many slices it needs, and the CRLF after it is dropped. */
  lemma {:induction false} DecodeData(c: nat, data: string, rest: string)
    requires c > 0 && data != ""
    ensures Decode(c, |data|, data + "\r\n" + rest) == Prepend(data, Decode(c, 0, rest))
    decreases |data|
  {
    hide Decode;
    if |data| > c {
      var src, more := data + "\r\n" + rest, Decode(c, 0, rest);
      DecodeData(c, data[c..], rest);
      DecodeSlice(c, |data|, src);
      assert src[..c] == data[..c];
      assert src[c..] == data[c..] + "\r\n" + rest;
      Assoc(data[..c], data[c..], more.payload);
      assert data[..c] + data[c..] == data;
    } else {
      DecodeLastSlice(c, data, rest);
    }
  }

  lemma DecodeSlice(c: nat, n: nat, src: string)
    requires 0 < c < n && c <= |src|
    ensures Decode(c, n, src) == Prepend(src[..c], Decode(c, n - c, src[c..]))
  {}

  lemma {:induction false} DecodeLastSlice(c: nat, data: string, rest: string)
    requires 0 < |data| <= c
    ensures Decode(c, |data|, data + "\r\n" + rest) == Prepend(data, Decode(c, 0, rest))
  {
    hide NextLine, ParseSize;
    var src := data + "\r\n" + rest;
    assert src[..|data|] == data && src[|data| + 2..] == rest;
  }

  lemma {:induction false} DecodeChunk(c: nat, chunk: SourceChunk, rest: string)
    requires c > 0 && chunk.Valid()
    ensures Decode(c, 0, chunk.Render() + rest)
            == if chunk.data == "" then Decoded("", Clean) else Prepend(chunk.data, Decode(c, 0, rest))
  {
    hide NextLine, ParseSize, ParseDigits;
    var SourceChunk(digits, extension, data) := chunk;
    ParseSizeOfHeader(digits, extension, |data|);
    var body := data + "\r\n" + rest;
    var text := digits + extension + "\r";
    NextLineOf(text, body);
    assert text + "\n" == digits + extension + "\r\n";
    assert chunk.Render() + rest == text + "\n" + body;
    if data != "" {
      DecodeData(c, data, rest);
    }
  }

  /** Leading chunks deliver their data and hand over to whatever follows them. */
  lemma {:induction false} DecodeChunks(c: nat, chunks: seq<SourceChunk>, rest: string)
    requires c > 0 && forall k :: k in chunks ==> k.Valid() && k.data != ""
    ensures Decode(c, 0, RenderAll(chunks) + rest) == Prepend(Payload(chunks), Decode(c, 0, rest))
  {
    hide Decode, SourceChunk.Render, SourceChunk.Valid;
    var d := Decode(c, 0, rest);
    if chunks == [] {
      assert "" + rest == rest && "" + d.payload == d.payload;
    } else {
      DecodeChunks(c, chunks[1..], rest);
      DecodeChunk(c, chunks[0], RenderAll(chunks[1..]) + rest);
      Assoc(chunks[0].Render(), RenderAll(chunks[1..]), rest);
      Assoc(chunks[0].data, Payload(chunks[1..]), d.payload);
    }
  }

  /** Every well-formed source decodes to its payload; trailers and whatever follows do not matter. */
  lemma {:induction false} DecodeRendered(c: nat, chunks: seq<SourceChunk>, final: SourceChunk, tail: string)
    requires c > 0 && final.Valid() && final.data == ""
    requires forall k :: k in chunks ==> k.Valid() && k.data != ""
    ensures Decode(c, 0, RenderAll(chunks) + (final.Render() + tail)) == Decoded(Payload(chunks), Clean)
  {
    hide Decode, SourceChunk.Render, SourceChunk.Valid;
    DecodeChunk(c, final, tail);
    DecodeChunks(c, chunks, final.Render() + tail);
    assert Payload(chunks) + "" == Payload(chunks);
  }

  function Lines(trailers: seq<string>): string {
    if trailers == [] then "" else trailers[0] + "\r\n" + Lines(trailers[1..])
  }

  /** Trailers are read up to and including the empty line after them, and no further. */
  lemma {:induction false} SkipsTrailers(trailers: seq<string>, rest: string)
    requires forall t :: t in trailers ==> t != "" && '\n' !in t
    ensures SkipTrailers(Lines(trailers) + ("\r\n" + rest)) == rest
    decreases |trailers|
  {
    hide SkipTrailers;
    if trailers == [] {
      EmptyLine(rest);
      assert Lines(trailers) + ("\r\n" + rest) == "\r\n" + rest;
    } else {
      var t, more := trailers[0], Lines(trailers[1..]) + ("\r\n" + rest);
      assert t in trailers && forall u :: u in trailers[1..] ==> u in trailers;
      SkipsTrailers(trailers[1..], rest);
      SkipLine(t, more);
      Assoc(t + "\r\n", Lines(trailers[1..]), "\r\n" + rest);
    }
  }

  lemma {:induction false} SkipLine(t: string, more: string)
    requires t != "" && '\n' !in t
    ensures SkipTrailers((t + "\r\n") + more) == SkipTrailers(more)
  {
    hide TrimEol, NextLine;
    var line := t + "\r";
    assert '\n' !in line;
    NextLineOf(line, more);
    assert line + "\n" == t + "\r\n";
    TrimEolOf(t);
  }

  lemma {:induction false} EmptyLine(rest: string)
    ensures SkipTrailers("\r\n" + rest) == rest
  {
    hide NextLine;
    NextLineOf("\r", rest);
    assert "\r" + "\n" == "\r\n";
  }

  // ----- sources that are cut off -----

  function HeaderLength(chunk: SourceChunk): nat { |chunk.digits + chunk.extension + "\r\n"| }

  /**
   What a chunk cut off after n bytes decodes to. A cut in the header, or right
   after the data, goes unnoticed; a cut inside the data stalls the reader; and a
   missing LF is an error, which also loses the last slice of the data.
   */
  function CutChunk(c: nat, chunk: SourceChunk, n: nat): Decoded
    requires c > 0
  {
    var m := n - HeaderLength(chunk);
    if m < 0 then Decoded("", Clean)
    else if m < |chunk.data| then Decoded(chunk.data[..m], Stalled)
    else if m == |chunk.data| then Decoded(chunk.data, Clean)
    else Decoded(chunk.data[..WholeSlices(c, |chunk.data|)], BadCrlf)
  }

  /** The bytes read before the last slice of n bytes. */
  function WholeSlices(c: nat, n: nat): (w: nat)
    requires c > 0
    ensures w <= n
  {
    if n > c then c + WholeSlices(c, n - c) else 0
  }

  lemma {:induction false} DecodeCutData(c: nat, data: string, n: nat)
    requires c > 0 && data != "" && n < |data| + 2
    ensures Decode(c, |data|, (data + "\r\n")[..n])
            == if n < |data| then Decoded(data[..n], Stalled)
               else if n == |data| then Decoded(data, Clean)
               else Decoded(data[..WholeSlices(c, |data|)], BadCrlf)
    decreases |data|
  {
    hide Decode;
    var src := (data + "\r\n")[..n];
    if |data| > c && n >= c {
      DecodeCutData(c, data[c..], n - c);
      DecodeSlice(c, |data|, src);
      assert (data + "\r\n")[c..] == data[c..] + "\r\n";
      assert src[c..] == (data[c..] + "\r\n")[..n - c] && src[..c] == data[..c];
      PrefixesJoin(data, c, Min(n, |data|) - c);
      PrefixesJoin(data, c, WholeSlices(c, |data| - c));
    } else {
      DecodeCutSlice(c, data, n);
    }
  }

  /** A cut in the first slice of the data, or after data of one slice. */
  lemma {:induction false} DecodeCutSlice(c: nat, data: string, n: nat)
    requires c > 0 && data != "" && n < |data| + 2 && (|data| <= c || n < c)
    ensures Decode(c, |data|, (data + "\r\n")[..n])
            == if n < |data| then Decoded(data[..n], Stalled)
               else if n == |data| then Decoded(data, Clean)
               else Decoded(data[..WholeSlices(c, |data|)], BadCrlf)
  {
    hide ParseSize;
    var src := (data + "\r\n")[..n];
    if n >= |data| {
      assert src[..|data|] == data && data + "" == data;
    } else {
      assert src == data[..n];
    }
  }

  lemma PrefixesJoin(data: string, c: nat, n: nat)
    requires c + n <= |data|
    ensures data[..c] + data[c..][..n] == data[..c + n]
    ensures data[..c] + data[c..] == data
  {}

  lemma {:induction false} DecodeCutChunk(c: nat, chunk: SourceChunk, cut: string)
    requires c > 0 && chunk.Valid() && chunk.data != "" && cut <= chunk.Render() && cut != chunk.Render()
    ensures Decode(c, 0, cut) == CutChunk(c, chunk, |cut|)
  {
    hide ParseSize, ParseDigits, Decode;
    var text := chunk.digits + chunk.extension + "\r";
    ParseSizeOfHeader(chunk.digits, chunk.extension, |chunk.data|);
    assert chunk.Render() == text + "\n" + (chunk.data + "\r\n");
    if |cut| <= |text| {
      assert cut == text[..|cut|];
      assert forall i :: 0 <= i < |text| ==> text[i] != '\n';
      DecodeNoLine(c, cut);
    } else {
      var body := cut[|text| + 1..];
      assert cut == text + "\n" + body;
      assert body == (chunk.data + "\r\n")[..|body|];
      DecodeHeader(c, chunk, body);
      DecodeCutData(c, chunk.data, |body|);
    }
  }

  /** A header without its newline is dropped. */
  lemma {:induction false} DecodeNoLine(c: nat, src: string)
    requires c > 0 && '\n' !in src
    ensures Decode(c, 0, src) == Decoded("", Clean)
  {
    IndexByteFirst(src, '\n');
  }

  lemma {:induction false} DecodeHeader(c: nat, chunk: SourceChunk, body: string)
    requires c > 0 && chunk.Valid()
    ensures Decode(c, 0, chunk.digits + chunk.extension + "\r" + "\n" + body)
            == if chunk.data == "" then Decoded("", Clean) else Decode(c, |chunk.data|, body)
  {
    hide ParseSize, ParseDigits;
    var text := chunk.digits + chunk.extension + "\r";
    ParseSizeOfHeader(chunk.digits, chunk.extension, |chunk.data|);
    NextLineOf(text, body);
    assert text + "\n" == chunk.digits + chunk.extension + "\r\n";
  }

  /** The chunk that holds the byte at n, or the number of chunks. */
  function ChunkAt(chunks: seq<SourceChunk>, n: nat): (i: nat)
    ensures i <= |chunks|
  {
    if chunks == [] || n < |chunks[0].Render()| then 0 else 1 + ChunkAt(chunks[1..], n - |chunks[0].Render()|)
  }

  /** Where the byte at n lies in the chunk that holds it. */
  function OffsetAt(chunks: seq<SourceChunk>, n: nat): nat {
    if chunks == [] || n < |chunks[0].Render()| then n else OffsetAt(chunks[1..], n - |chunks[0].Render()|)
  }

  lemma {:induction false} Located(chunks: seq<SourceChunk>, n: nat)
    ensures var i := ChunkAt(chunks, n);
            n == |RenderAll(chunks[..i])| + OffsetAt(chunks, n)
            && (i < |chunks| ==> OffsetAt(chunks, n) < |chunks[i].Render()|)
  {
    if chunks != [] && n >= |chunks[0].Render()| {
      hide SourceChunk.Render;
      var rest, i := chunks[1..], ChunkAt(chunks, n);
      Located(rest, n - |chunks[0].Render()|);
      assert chunks[..i][1..] == rest[..i - 1] && chunks[..i][0] == chunks[0];
    }
  }

  /**
   Every well-formed source, cut off anywhere: the chunks before the cut are
   delivered whole, and the chunk in which the cut falls decides the rest. A
   source cut between chunks, or anywhere in its last header or trailers, ends
   cleanly.
   */
  lemma {:induction false} DecodeTruncated(c: nat, chunks: seq<SourceChunk>, final: SourceChunk, tail: string,
                                           cut: string)
    requires c > 0 && final.Valid() && final.data == ""
    requires forall k :: k in chunks ==> k.Valid() && k.data != ""
    requires cut <= RenderAll(chunks) + (final.Render() + tail)
    ensures var i := ChunkAt(chunks, |cut|);
            Decode(c, 0, cut)
            == Prepend(Payload(chunks[..i]),
                       if i == |chunks| then Decoded("", Clean) else CutChunk(c, chunks[i], OffsetAt(chunks, |cut|)))
    decreases |chunks|
  {
    hide Decode, SourceChunk.Render, SourceChunk.Valid, CutChunk;
    var end, i := final.Render() + tail, ChunkAt(chunks, |cut|);
    if chunks == [] {
      assert RenderAll(chunks) + end == end;
      DecodeCutFinal(c, final, tail, cut);
    } else {
      var first, rest := chunks[0].Render(), chunks[1..];
      Assoc(first, RenderAll(rest), end);
      if |cut| < |first| {
        assert cut == first[..|cut|];
        DecodeCutChunk(c, chunks[0], cut);
        assert chunks[..0] == [];
        PrependNothing(CutChunk(c, chunks[0], |cut|));
      } else {
        var more := cut[|first|..];
        assert cut == first + more;
        SuffixOfCut(first, more, RenderAll(rest) + end);
        DecodeTruncated(c, rest, final, tail, more);
        DecodeChunk(c, chunks[0], more);
        assert chunks[..i][1..] == rest[..i - 1] && chunks[..i][0] == chunks[0];
        PrependTwice(chunks[0].data, Payload(rest[..i - 1]), Decode(c, 0, more),
                     if i == |chunks| then Decoded("", Clean) else CutChunk(c, chunks[i], OffsetAt(chunks, |cut|)));
      }
    }
  }

  lemma {:induction false} SuffixOfCut(first: string, more: string, rest: string)
    requires first + more <= first + rest
    ensures more <= rest
  {
    assert (first + more)[|first|..] == more && (first + rest)[|first|..] == rest;
  }

  lemma {:induction false} PrependNothing(d: Decoded)
    ensures Prepend("", d) == d
  {
    assert "" + d.payload == d.payload;
  }

  lemma {:induction false} PrependTwice(x: string, y: string, d: Decoded, e: Decoded)
    requires d == Prepend(y, e)
    ensures Prepend(x, d) == Prepend(x + y, e)
  {
    Assoc(x, y, e.payload);
  }

  lemma {:induction false} DecodeCutFinal(c: nat, final: SourceChunk, tail: string, cut: string)
    requires c > 0 && final.Valid() && final.data == "" && cut <= final.Render() + tail
    ensures Decode(c, 0, cut) == Decoded("", Clean)
  {
    hide Decode, ParseSize, ParseDigits;
    var text := final.digits + final.extension + "\r";
    ParseSizeOfHeader(final.digits, final.extension, 0);
    assert final.Render() + tail == text + "\n" + ("\r\n" + tail);
    if |cut| <= |text| {
      assert cut == text[..|cut|];
      assert forall i :: 0 <= i < |text| ==> text[i] != '\n';
      DecodeNoLine(c, cut);
    } else {
      assert cut == text + "\n" + cut[|text| + 1..];
      DecodeHeader(c, final, cut[|text| + 1..]);
    }
  }

  /** What the re-encoder emits is itself a source that decodes to the same payload, with any slice size. */
  lemma {:induction false} DecodeEncoded(c: nat, signer: Signer, k: nat, payload: string, seed: string)
    requires c > 0 && 0 < k < 0x8000_0000_0000_0000
    ensures Decode(c, 0, Encode(signer, k, payload, seed, Clean)) == Decoded(payload, Clean)
    decreases |payload|
  {
    hide Decode;
    if |payload| >= k {
      var data := payload[..k];
      var sig := signer.Sign(seed, data);
      DecodeEncoded(c, signer, k, payload[k..], sig);
      DecodeEncodedChunk(c, data, sig, Encode(signer, k, payload[k..], sig, Clean));
      assert data + payload[k..] == payload;
    } else if payload == "" {
      DecodeFinal(c, signer.Sign(seed, ""));
    } else {
      var sig := signer.Sign(seed, payload);
      var final := FinalChunk(signer.Sign(sig, ""));
      DecodeFinal(c, signer.Sign(sig, ""));
      DecodeEncodedChunk(c, payload, sig, final);
      assert payload + "" == payload;
    }
  }

  lemma {:induction false} DecodeEncodedChunk(c: nat, data: string, sig: Hex64, rest: string)
    requires c > 0 && |data| < 0x8000_0000_0000_0000
    ensures Decode(c, 0, EncodeChunk(data, sig) + rest)
            == if data == "" then Decoded("", Clean) else Prepend(data, Decode(c, 0, rest))
  {
    hide Decode, Hex, ParseDigits;
    ParseDigitsOfHex(|data|);
    var extension: string := SIGNATURE_FIELD + sig;
    assert NoneOf(SIGNATURE_FIELD, '\n');
    var chunk := SourceChunk(Hex(|data|), extension, data);
    DecodeChunk(c, chunk, rest);
    assert Hex(|data|) + extension == HeaderText(|data|, sig);
    assert chunk.Render() == EncodeChunk(data, sig);
  }

  lemma {:induction false} DecodeFinal(c: nat, sig: Hex64)
    requires c > 0
    ensures Decode(c, 0, FinalChunk(sig)) == Decoded("", Clean)
  {
    FinalChunkIsEmptyChunk(sig);
    assert EncodeChunk("", sig) + "" == EncodeChunk("", sig);
    DecodeEncodedChunk(c, "", sig, "");
  }
}
