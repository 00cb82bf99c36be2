/**
 The aws-chunked wire format: hexadecimal sizes, chunk headers, the signature
 chain, and a reference encoder and verifier for whole streams.
 */
module ChunkedFormat {
  import opened Text

  // ----- hexadecimal numbers -----

  type HexChar = c: char | '0' <= c <= '9' || 'a' <= c <= 'f' witness '0'

  /** A hex-encoded SHA-256 or HMAC-SHA-256 value. */
  type Hex64 = s: seq<HexChar> | |s| == 64 witness seq(64, _ => '0')

  function HexDigit(d: nat): HexChar
    requires d < 16
  {
    if d < 10 then '0' + d as char else 'a' + (d - 10) as char
  }

  /** fmt.Sprintf("%x", n) */
  function Hex(n: nat): (s: seq<HexChar>)
    ensures s != []
  {
    if n < 16 then [HexDigit(n)] else Hex(n / 16) + [HexDigit(n % 16)]
  }

  function DigitValue(c: char): Option<nat> {
    if '0' <= c <= '9' then Some(c as int - '0' as int)
    else if 'a' <= c <= 'f' then Some(c as int - 'a' as int + 10)
    else if 'A' <= c <= 'F' then Some(c as int - 'A' as int + 10)
    else None
  }

  /** The digits of a base-16 number, most significant first; None on any other character. */
  function ParseDigits(s: string): Option<nat> {
    if s == "" then Some(0)
    else
      match (ParseDigits(s[..|s| - 1]), DigitValue(s[|s| - 1]))
      case (Some(high), Some(d)) => Some(16 * high + d)
      case _ => None
  }

  /** strconv.ParseInt(s, 16, 64): an optional sign, at least one digit, and no overflow. */
  function ParseInt(s: string): Option<int> {
    var negative := s != "" && s[0] == '-';
    var digits := if s != "" && (s[0] == '+' || s[0] == '-') then s[1..] else s;
    if digits == "" then None
    else
      match ParseDigits(digits)
      case None => None
      case Some(n) =>
        var v := if negative then 0 - n else n;
        if -0x8000_0000_0000_0000 <= v < 0x8000_0000_0000_0000 then Some(v) else None
  }

  lemma {:induction false} ParseDigitsOfHex(n: nat)
    ensures ParseDigits(Hex(n)) == Some(n)
  {
    var s := Hex(n);
    if n < 16 {
      assert s[..|s| - 1] == "";
    } else {
      ParseDigitsOfHex(n / 16);
      assert s[..|s| - 1] == Hex(n / 16);
    }
  }

  /** Printing a size and parsing it back, for every size an int64 holds. */
  lemma {:induction false} ParseIntOfHex(n: nat)
    requires n < 0x8000_0000_0000_0000
    ensures ParseInt(Hex(n)) == Some(n)
  {
    ParseDigitsOfHex(n);
    assert Hex(n)[0] != '+' && Hex(n)[0] != '-';
  }

  /** Digits in either case, after a sign or none, within int64. */
  lemma {:induction false} SignedInt(digits: string, n: nat)
    requires digits != "" && ParseDigits(digits) == Some(n) && digits[0] != '+' && digits[0] != '-'
    ensures ParseInt("+" + digits) == ParseInt(digits) == if n < 0x8000_0000_0000_0000 then Some(n) else None
    ensures var m: int := 0 - n;
            ParseInt("-" + digits) == if m >= -0x8000_0000_0000_0000 then Some(m) else None
  {
    hide ParseDigits;
    assert ("+" + digits)[1..] == digits && ("-" + digits)[1..] == digits;
  }

  function UpperDigit(ch: char): char { if 'a' <= ch <= 'f' then ch - 'a' + 'A' else ch }

  function Upper(digits: string): string {
    seq(|digits|, i requires 0 <= i < |digits| => UpperDigit(digits[i]))
  }

  /** A size may be written in capital letters. */
  lemma {:induction false} ParseUpper(digits: string)
    requires forall i :: 0 <= i < |digits| ==> !('A' <= digits[i] <= 'F')
    ensures ParseDigits(Upper(digits)) == ParseDigits(digits)
  {
    if digits != "" {
      var k := |digits| - 1;
      ParseUpper(digits[..k]);
      assert Upper(digits)[..k] == Upper(digits[..k]);
      assert DigitValue(Upper(digits)[k]) == DigitValue(digits[k]);
    }
  }

  lemma {:induction false} HexLengthMonotone(m: nat, n: nat)
    requires m <= n
    ensures |Hex(m)| <= |Hex(n)|
  {
    if n >= 16 && m >= 16 {
      HexLengthMonotone(m / 16, n / 16);
    }
  }

  // ----- lines and headers -----

  /** bufio.Reader.ReadBytes('\n'): the line including its newline, and the rest. None at end of input. */
  function NextLine(src: string): (r: Option<(string, string)>)
    ensures r.Some? ==> r.value.0 + r.value.1 == src && r.value.0 != "" && |r.value.1| < |src|
  {
    match IndexByte(src, '\n')
    case None => None
    case Some(i) => Some((src[..i + 1], src[i + 1..]))
  }

  lemma {:induction false} NextLineOf(line: string, rest: string)
    requires '\n' !in line
    ensures NextLine(line + "\n" + rest) == Some((line + "\n", rest))
  {
    IndexByteAt(line, '\n', rest);
    var s := line + "\n" + rest;
    assert s[..|line| + 1] == line + "\n" && s[|line| + 1..] == rest;
  }

  /** strings.TrimSuffix for CRLF, and for LF. */
  function TrimCrlf(line: string): string {
    if |line| >= 2 && line[|line| - 2] == '\r' && line[|line| - 1] == '\n' then line[..|line| - 2] else line
  }

  function TrimLf(line: string): string {
    if |line| >= 1 && line[|line| - 1] == '\n' then line[..|line| - 1] else line
  }

  function TrimEol(line: string): string { TrimLf(TrimCrlf(line)) }

  predicate IsSpace(c: char) { c in " \t\n\r" || c == '\U{0B}' || c == '\U{0C}' }

  function TrimLeft(s: string): string {
    if s != "" && IsSpace(s[0]) then TrimLeft(s[1..]) else s
  }

  function TrimRight(s: string): string {
    if s != "" && IsSpace(s[|s| - 1]) then TrimRight(s[..|s| - 1]) else s
  }

  /** strings.TrimSpace on ASCII white space. */
  function TrimSpace(s: string): string { TrimRight(TrimLeft(s)) }

  /** The size field of a chunk header line: everything before the first ';', trimmed, in hex. */
  function ParseSize(line: string): Option<int> {
    var header := TrimEol(line);
    var sizeField := match IndexByte(header, ';')
      case None => header
      case Some(i) => header[..i];
    ParseInt(TrimSpace(sizeField))
  }

  // ----- the signature chain -----

  /** SHA-256 of no bytes, in two halves. */
  const EMPTY_HASH := "e3b0c44298fc1c149afbf4c8996fb924" + "27ae41e4649b934ca495991b7852b855"

  /** SHA-256 and HMAC-SHA-256 are arbitrary functions here; only the length of their hex form matters. */
  datatype Signer = Signer(hash: string -> Hex64, mac: (string, string) -> Hex64,
                           key: string, amzDate: string, scope: string)
  {
    /** The text that the signature of a chunk covers, line by line. */
    function StringToSign(prev: string, data: string): string {
      Join(["AWS4-HMAC-SHA256-PAYLOAD", amzDate, scope, prev, EMPTY_HASH, hash(data)], '\n')
    }

    /** The signature of a chunk, which covers the signature before it. */
    function Sign(prev: string, data: string): Hex64 { mac(key, StringToSign(prev, data)) }
  }

  const SIGNATURE_FIELD := ";chunk-signature="

  function Header(size: nat, signature: Hex64): string {
    Hex(size) + SIGNATURE_FIELD + signature + "\r\n"
  }

  function EncodeChunk(data: string, signature: Hex64): string {
    Header(|data|, signature) + data + "\r\n"
  }

  function FinalChunk(signature: Hex64): string {
    "0" + SIGNATURE_FIELD + signature + "\r\n" + "\r\n"
  }

  /** How the source stream ends, as the re-encoder experiences it. */
  datatype End =
    | Clean     // a zero-size chunk, or end of input where a header was expected
    | BadSize   // a header whose size does not parse
    | BadCrlf   // exactly one byte where the CRLF after chunk data was expected
    | Stalled   // end of input inside chunk data

  /**
   The reference encoding: payload cut into chunks of c bytes, each signed over
   its predecessor's signature. Only a clean end flushes the last partial chunk
   and adds the final one.
   */
  function Encode(signer: Signer, c: nat, payload: string, prev: string, end: End): string
    requires c > 0
    decreases |payload|
  {
    if |payload| >= c then
      var sig := signer.Sign(prev, payload[..c]);
      EncodeChunk(payload[..c], sig) + Encode(signer, c, payload[c..], sig, end)
    else if end.Clean? then EncodeLast(signer, payload, prev)
    else ""
  }

  /** Nothing can be emitted exactly when no chunk is full and the source has not ended cleanly. */
  lemma EncodeEmptyIff(signer: Signer, c: nat, payload: string, prev: string, end: End)
    requires c > 0
    ensures Encode(signer, c, payload, prev, end) == "" <==> |payload| < c && !end.Clean?
  {}

  /** The first chunk of a stream, full or not, and the stream after it. */
  lemma {:induction false} EncodeFirst(signer: Signer, c: nat, payload: string, prev: string, end: End)
    requires c > 0 && payload != "" && (|payload| >= c || end.Clean?)
    ensures var k := Min(|payload|, c);
            var sig := signer.Sign(prev, payload[..k]);
            Encode(signer, c, payload, prev, end)
            == EncodeChunk(payload[..k], sig) + Encode(signer, c, payload[k..], sig, end)
  {
    if |payload| < c {
      assert payload[..|payload|] == payload && payload[|payload|..] == "";
    }
  }

  /** What follows the last full chunk: a partial chunk if any data is left, and the final chunk. */
  function EncodeLast(signer: Signer, payload: string, prev: string): string {
    if payload == "" then FinalChunk(signer.Sign(prev, ""))
    else
      var sig := signer.Sign(prev, payload);
      EncodeChunk(payload, sig) + FinalChunk(signer.Sign(sig, ""))
  }

  /**
   The receiving side: reads signed chunks, checks every signature against the
   previous one, and returns the payload only if the whole stream is accepted.
   */
  function Verify(signer: Signer, prev: string, s: string): Option<string>
    decreases |s|
  {
    match NextLine(s)
    case None => None
    case Some((line, rest)) =>
      if !HasSuffix(line, "\r\n") then None
      else
        var header := line[..|line| - 2];
        match IndexByte(header, ';')
        case None => None
        case Some(i) =>
          match ParseInt(header[..i])
          case None => None
          case Some(size) =>
            if size < 0 || |rest| < size + 2 || rest[size..size + 2] != "\r\n" then None
            else
              var data := rest[..size];
              var sig := signer.Sign(prev, data);
              if header[i..] != SIGNATURE_FIELD + sig then None
              else if size == 0 then
                if rest == "\r\n" then Some("") else None
              else
                match Verify(signer, sig, rest[size + 2..])
                case None => None
                case Some(more) => Some(data + more)
  }

  lemma {:induction false} FinalChunkIsEmptyChunk(sig: Hex64)
    ensures FinalChunk(sig) == EncodeChunk("", sig)
  {
    assert Hex(0) == "0";
    assert EncodeChunk("", sig) == Header(0, sig) + "\r\n";
  }

  function HeaderText(size: nat, sig: Hex64): string {
    Hex(size) + SIGNATURE_FIELD + sig
  }

  predicate NoneOf(s: string, c: char) { c !in s }

  lemma {:induction false} SplitAtField(digits: string, field: string, signature: string)
    requires field != "" && field[0] == ';' && NoneOf(digits, ';')
    requires NoneOf(digits, '\n') && NoneOf(field, '\n') && NoneOf(signature, '\n')
    ensures var h := digits + field + signature;
            NoneOf(h, '\n') && IndexByte(h, ';') == Some(|digits|)
            && h[..|digits|] == digits && h[|digits|..] == field + signature
  {
    assert digits + field + signature == digits + [';'] + (field[1..] + signature);
    IndexByteAt(digits, ';', field[1..] + signature);
  }

  lemma {:induction false} HeaderTextShape(size: nat, sig: Hex64)
    ensures var h := HeaderText(size, sig);
            '\n' !in h && IndexByte(h, ';') == Some(|Hex(size)|)
            && h[..|Hex(size)|] == Hex(size) && h[|Hex(size)|..] == SIGNATURE_FIELD + sig
  {
    assert NoneOf(SIGNATURE_FIELD, '\n');
    SplitAtField(Hex(size), SIGNATURE_FIELD, sig);
  }

  lemma {:induction false} HeaderLine(size: nat, sig: Hex64, rest: string)
    ensures NextLine(Header(size, sig) + rest) == Some((Header(size, sig), rest))
    ensures HasSuffix(Header(size, sig), "\r\n")
    ensures var h := Header(size, sig)[..|Header(size, sig)| - 2];
            h == HeaderText(size, sig) && IndexByte(h, ';') == Some(|Hex(size)|)
            && h[..|Hex(size)|] == Hex(size) && h[|Hex(size)|..] == SIGNATURE_FIELD + sig
  {
    var field := HeaderText(size, sig);
    var line := Header(size, sig);
    assert line == field + "\r\n";
    assert line[..|line| - 2] == field && line[|line| - 2..] == "\r\n";
    HeaderTextShape(size, sig);
    assert line + rest == (field + "\r") + "\n" + rest;
    assert line == (field + "\r") + "\n";
    NextLineOf(field + "\r", rest);
  }

  /** One signed chunk is consumed by the verifier exactly. */
  lemma {:induction false} VerifyChunk(signer: Signer, prev: string, data: string, rest: string, more: string)
    requires 0 < |data| < 0x8000_0000_0000_0000
    requires Verify(signer, signer.Sign(prev, data), rest) == Some(more)
    ensures Verify(signer, prev, EncodeChunk(data, signer.Sign(prev, data)) + rest) == Some(data + more)
  {
    ChunkParts(data, signer.Sign(prev, data), rest);
  }

  lemma {:induction false} VerifyFinal(signer: Signer, prev: string)
    ensures Verify(signer, prev, FinalChunk(signer.Sign(prev, ""))) == Some("")
  {
    var sig := signer.Sign(prev, "");
    FinalChunkIsEmptyChunk(sig);
    assert EncodeChunk("", sig) + "" == EncodeChunk("", sig);
    assert "" + "\r\n" + "" == "\r\n";
    ChunkParts("", sig, "");
  }

  lemma {:induction false} ChunkParts(data: string, sig: Hex64, rest: string)
    requires |data| < 0x8000_0000_0000_0000
    ensures var body := data + "\r\n" + rest;
            EncodeChunk(data, sig) + rest == Header(|data|, sig) + body
            && body[..|data|] == data && body[|data|..|data| + 2] == "\r\n" && body[|data| + 2..] == rest
    ensures var line := Header(|data|, sig);
            var h := line[..|line| - 2];
            HasSuffix(line, "\r\n") && IndexByte(h, ';') == Some(|Hex(|data|)|)
            && ParseInt(h[..|Hex(|data|)|]) == Some(|data|) && h[|Hex(|data|)|..] == SIGNATURE_FIELD + sig
    ensures NextLine(EncodeChunk(data, sig) + rest) == Some((Header(|data|, sig), data + "\r\n" + rest))
  {
    var body := data + "\r\n" + rest;
    assert EncodeChunk(data, sig) + rest == Header(|data|, sig) + body;
    HeaderLine(|data|, sig, body);
    ParseIntOfHex(|data|);
  }

  lemma {:induction false} LastVerifies(signer: Signer, payload: string, prev: string)
    requires |payload| < 0x8000_0000_0000_0000
    ensures Verify(signer, prev, EncodeLast(signer, payload, prev)) == Some(payload)
  {
    if payload == "" {
      VerifyFinal(signer, prev);
    } else {
      var sig := signer.Sign(prev, payload);
      VerifyFinal(signer, sig);
      VerifyChunk(signer, prev, payload, FinalChunk(signer.Sign(sig, "")), "");
      assert payload + "" == payload;
    }
  }

  /** The verifier accepts every encoded stream and recovers its payload: the signatures form the chain. */
  lemma {:induction false} EncodeVerifies(signer: Signer, c: nat, payload: string, seed: string)
    requires 0 < c < 0x8000_0000_0000_0000
    ensures Verify(signer, seed, Encode(signer, c, payload, seed, Clean)) == Some(payload)
    decreases |payload|
  {
    hide Verify, EncodeChunk, EncodeLast;
    if |payload| >= c {
      var data := payload[..c];
      var sig := signer.Sign(seed, data);
      var rest := Encode(signer, c, payload[c..], sig, Clean);
      EncodeVerifies(signer, c, payload[c..], sig);
      assert data + payload[c..] == payload;
      assert Encode(signer, c, payload, seed, Clean) == EncodeChunk(data, sig) + rest;
      VerifyChunk(signer, seed, data, rest, payload[c..]);
    } else {
      LastVerifies(signer, payload, seed);
    }
  }

  // ----- the predicted length -----

  /** Bytes of one chunk that carries n bytes of data. */
  function ChunkLength(n: nat): nat { |Hex(n)| + 17 + 64 + 2 + n + 2 }

  const FINAL_LENGTH: nat := 1 + 17 + 64 + 2 + 2

  lemma EncodeChunkLength(data: string, sig: Hex64)
    ensures |EncodeChunk(data, sig)| == ChunkLength(|data|) && |FinalChunk(sig)| == FINAL_LENGTH
  {}

  /** An encoded chunk of at most c bytes fits the bound for c. */
  lemma {:induction false} ChunkFits(data: string, sig: Hex64, c: nat)
    requires |data| <= c
    ensures 0 < |EncodeChunk(data, sig)| <= ChunkLength(c) && |FinalChunk(sig)| == FINAL_LENGTH
  {
    EncodeChunkLength(data, sig);
    HexLengthMonotone(|data|, c);
  }

  /** What CalculateReEncodedContentLength adds up for n bytes of payload in chunks of c. */
  function EncodedLength(n: nat, c: nat): nat
    requires c > 0
  {
    if n >= c then ChunkLength(c) + EncodedLength(n - c, c)
    else if n > 0 then ChunkLength(n) + FINAL_LENGTH
    else FINAL_LENGTH
  }

  /** The prediction is the length of the stream, whatever the payload, the seed and the signer. */
  lemma {:induction false} EncodeLength(signer: Signer, c: nat, payload: string, seed: string)
    requires c > 0
    ensures |Encode(signer, c, payload, seed, Clean)| == EncodedLength(|payload|, c)
    decreases |payload|
  {
    hide EncodeChunk, FinalChunk, ChunkLength;
    if |payload| >= c {
      var sig := signer.Sign(seed, payload[..c]);
      EncodeLength(signer, c, payload[c..], sig);
      EncodeChunkLength(payload[..c], sig);
    } else if payload == "" {
      EncodeChunkLength("", signer.Sign(seed, ""));
    } else {
      var sig := signer.Sign(seed, payload);
      EncodeChunkLength(payload, sig);
      EncodeChunkLength("", signer.Sign(sig, ""));
    }
  }

  /** One more payload byte always makes a longer stream. */
  lemma {:induction false} EncodedLengthIncreases(n: nat, c: nat)
    requires c > 0
    ensures EncodedLength(n, c) < EncodedLength(n + 1, c)
    decreases n
  {
    if n >= c {
      EncodedLengthIncreases(n - c, c);
    } else {
      HexLengthMonotone(n, n + 1);
    }
  }

  lemma {:induction false} EncodedLengthStrict(m: nat, n: nat, c: nat)
    requires c > 0 && m < n
    ensures EncodedLength(m, c) < EncodedLength(n, c)
    decreases n
  {
    EncodedLengthIncreases(n - 1, c);
    if m < n - 1 {
      EncodedLengthStrict(m, n - 1, c);
    }
  }

  /** A declared payload length announces the right body length exactly when it is the payload's length. */
  lemma {:induction false} LengthAnnouncedIffDeclaredRight(signer: Signer, c: nat, payload: string, seed: string,
                                                           declared: nat)
    requires c > 0
    ensures EncodedLength(declared, c) == |Encode(signer, c, payload, seed, Clean)| <==> declared == |payload|
  {
    EncodeLength(signer, c, payload, seed);
    if declared < |payload| {
      EncodedLengthStrict(declared, |payload|, c);
    } else if declared > |payload| {
      EncodedLengthStrict(|payload|, declared, c);
    }
  }

  /** Re-encoding costs at most 90 bytes per 64 KiB and 175 more, so int64 does not overflow below 2^62. */
  lemma {:induction false} EncodedLengthBound(n: nat)
    ensures n + FINAL_LENGTH <= EncodedLength(n, 65536) <= n + 90 * (n / 65536) + 175
    ensures n <= 0x4000_0000_0000_0000 ==> EncodedLength(n, 65536) < 0x8000_0000_0000_0000
  {
    hide Hex;
    HexLengths();
    if n >= 65536 {
      EncodedLengthBound(n - 65536);
      ChunkAdds(n);
    } else {
      HexLengthMonotone(n, 65535);
    }
  }

  lemma ChunkAdds(n: nat)
    requires n >= 65536
    ensures EncodedLength(n, 65536) == ChunkLength(65536) + EncodedLength(n - 65536, 65536)
    ensures n / 65536 == (n - 65536) / 65536 + 1
  {}

  lemma {:induction false} HexLengths()
    ensures |Hex(65536)| == 5 && |Hex(65535)| == 4
  {
    assert |Hex(1)| == 1 && |Hex(15)| == 1;
    assert |Hex(16)| == 2 && |Hex(255)| == 2;
    assert |Hex(256)| == 3 && |Hex(4095)| == 3;
    assert |Hex(4096)| == 4;
  }
}
