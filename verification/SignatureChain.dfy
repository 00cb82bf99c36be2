/**
 What the signatures of a stream protect: the text that is signed, and which
 streams a verifier accepts that are made with the signatures of another one.
 */
module SignatureChain {
  import opened Text
  import opened ChunkedFormat

  predicate OneLine(s: string) { '\n' !in s }

  /** Dates, scopes and seed signatures come from header fields, which hold no newline. */
  predicate Proper(signer: Signer) { OneLine(signer.amzDate) && OneLine(signer.scope) }

  function SignedFields(signer: Signer, prev: string, data: string): seq<string> {
    ["AWS4-HMAC-SHA256-PAYLOAD", signer.amzDate, signer.scope, prev, EMPTY_HASH, signer.hash(data)]
  }

  lemma HexIsOneLine(s: Hex64)
    ensures OneLine(s)
  {}

  /** A chunk is signed over six lines, the previous signature and the hash of its data among them. */
  lemma {:induction false} SignedText(signer: Signer, prev: string, data: string)
    requires Proper(signer) && OneLine(prev)
    ensures exists text :: signer.Sign(prev, data) == signer.mac(signer.key, text)
                           && Parts(text, '\n') == SignedFields(signer, prev, data)
  {
    var text := signer.StringToSign(prev, data);
    StringToSignFields(signer, prev, data);
    assert signer.Sign(prev, data) == signer.mac(signer.key, text);
  }

  lemma {:induction false} StringToSignFields(signer: Signer, prev: string, data: string)
    requires Proper(signer) && OneLine(prev)
    ensures Parts(signer.StringToSign(prev, data), '\n') == SignedFields(signer, prev, data)
  {
    hide Parts, Join;
    var fields := SignedFields(signer, prev, data);
    HexIsOneLine(signer.hash(data));
    ConstantsAreOneLine();
    assert forall f :: f in fields ==> OneLine(f);
    PartsOfJoin(fields, '\n');
  }

  lemma {:induction false} ConstantsAreOneLine()
    ensures OneLine(EMPTY_HASH) && OneLine("AWS4-HMAC-SHA256-PAYLOAD")
  {
    FirstHalf();
    SecondHalf();
    var a := "AWS4-HMAC-SHA256-PAYLOAD";
    assert forall i :: 0 <= i < |a| ==> a[i] != '\n';
  }

  lemma {:induction false} FirstHalf()
    ensures OneLine("e3b0c44298fc1c149afbf4c8996fb924")
  {
    var a := "e3b0c44298fc1c149afbf4c8996fb924";
    assert forall i :: 0 <= i < |a| ==> a[i] != '\n';
  }

  lemma {:induction false} SecondHalf()
    ensures OneLine("27ae41e4649b934ca495991b7852b855")
  {
    var a := "27ae41e4649b934ca495991b7852b855";
    assert forall i :: 0 <= i < |a| ==> a[i] != '\n';
  }

  /** Hash and MAC take different values on the data, and on the texts signed for them, that are looked at. */
  ghost predicate Separates(signer: Signer, prevs: set<string>, datas: set<string>) {
    && (forall d, d' :: d in datas && d' in datas && signer.hash(d) == signer.hash(d') ==> d == d')
    && (forall p, p', d, d' :: p in prevs && p' in prevs && d in datas && d' in datas
                               && signer.Sign(p, d) == signer.Sign(p', d')
                               ==> signer.StringToSign(p, d) == signer.StringToSign(p', d'))
  }

  /** Then signatures are equal exactly if the previous signature and the data are. */
  lemma {:induction false} SignaturesEqualIff(signer: Signer, prevs: set<string>, datas: set<string>, p: string,
                                              d: string, p': string, d': string)
    requires Proper(signer) && Separates(signer, prevs, datas)
    requires p in prevs && p' in prevs && d in datas && d' in datas && OneLine(p) && OneLine(p')
    ensures signer.Sign(p, d) == signer.Sign(p', d') <==> p == p' && d == d'
  {
    hide Parts, Signer.Sign, Signer.StringToSign;
    if signer.Sign(p, d) == signer.Sign(p', d') {
      StringToSignFields(signer, p, d);
      StringToSignFields(signer, p', d');
      assert SignedFields(signer, p, d)[3] == SignedFields(signer, p', d')[3];
      assert SignedFields(signer, p, d)[5] == SignedFields(signer, p', d')[5];
    }
  }

  // ----- streams as lists of signed chunks -----

  datatype Signed = Signed(data: string, sig: Hex64)

  function RenderSigned(chunks: seq<Signed>): string {
    if chunks == [] then "" else EncodeChunk(chunks[0].data, chunks[0].sig) + RenderSigned(chunks[1..])
  }

  function DataOf(chunks: seq<Signed>): string {
    if chunks == [] then "" else chunks[0].data + DataOf(chunks[1..])
  }

  /** Each chunk is signed over its data and the signature before it, and only the last one is empty. */
  predicate Chained(signer: Signer, prev: string, chunks: seq<Signed>)
    decreases |chunks|
  {
    && chunks != []
    && chunks[0].sig == signer.Sign(prev, chunks[0].data)
    && if chunks[0].data == "" then |chunks| == 1 else Chained(signer, chunks[0].sig, chunks[1..])
  }

  /** No data is too long for an int64 size. */
  predicate Small(chunks: seq<Signed>) {
    forall x :: x in chunks ==> |x.data| < 0x8000_0000_0000_0000
  }

  /** The verifier accepts a stream of chunks exactly if they form a chain. */
  lemma {:induction false} VerifiedIffChained(signer: Signer, prev: string, chunks: seq<Signed>)
    requires Small(chunks)
    ensures Verify(signer, prev, RenderSigned(chunks))
            == if Chained(signer, prev, chunks) then Some(DataOf(chunks)) else None
    decreases |chunks|
  {
    hide Verify, Chained, EncodeChunk;
    if chunks == [] {
      VerifyNothing(signer, prev);
    } else {
      var head, rest := chunks[0], chunks[1..];
      assert Small(rest);
      VerifiedIffChained(signer, head.sig, rest);
      VerifyOne(signer, prev, head, RenderSigned(rest));
      ChainedCons(signer, prev, chunks);
      RenderedNothing(rest);
      assert head.data + "" == head.data;
    }
  }

  lemma VerifyNothing(signer: Signer, prev: string)
    ensures Verify(signer, prev, "") == None && !Chained(signer, prev, [])
  {}

  lemma ChainedCons(signer: Signer, prev: string, chunks: seq<Signed>)
    requires chunks != []
    ensures Chained(signer, prev, chunks) <==>
            chunks[0].sig == signer.Sign(prev, chunks[0].data)
            && if chunks[0].data == "" then |chunks| == 1 else Chained(signer, chunks[0].sig, chunks[1..])
  {}

  lemma {:induction false} RenderedNothing(chunks: seq<Signed>)
    ensures RenderSigned(chunks) == "" <==> chunks == []
    ensures chunks == [] ==> DataOf(chunks) == ""
  {
    if chunks != [] {
      assert EncodeChunk(chunks[0].data, chunks[0].sig) != "";
    }
  }

  /** What the verifier makes of the first chunk. */
  lemma {:induction false} VerifyOne(signer: Signer, prev: string, x: Signed, rest: string)
    requires |x.data| < 0x8000_0000_0000_0000
    ensures Verify(signer, prev, EncodeChunk(x.data, x.sig) + rest)
            == if x.sig != signer.Sign(prev, x.data) then None
               else if x.data == "" then (if rest == "" then Some("") else None)
               else match Verify(signer, x.sig, rest) case None => None case Some(more) => Some(x.data + more)
  {
    hide EncodeChunk, Header, ParseInt, IndexByte, NextLine, Signer.Sign;
    ChunkParts(x.data, x.sig, rest);
    var body := x.data + "\r\n" + rest;
    assert x.data == "" ==> (body == "\r\n" <==> rest == "") by {
      if x.data == "" && body == "\r\n" {
        assert |rest| == 0;
      }
      if x.data == "" && rest == "" {
        assert body == "\r\n";
      }
    }
    FieldsEqual(x.sig, signer.Sign(prev, x.data));
  }

  lemma {:induction false} FieldsEqual(a: string, b: string)
    ensures SIGNATURE_FIELD + a == SIGNATURE_FIELD + b <==> a == b
  {
    assert (SIGNATURE_FIELD + a)[|SIGNATURE_FIELD|..] == a && (SIGNATURE_FIELD + b)[|SIGNATURE_FIELD|..] == b;
  }

  // ----- the emitted stream -----

  /** The chunks that the re-encoder emits. */
  function Emitted(signer: Signer, c: nat, payload: string, prev: string): seq<Signed>
    requires c > 0
    decreases |payload|
  {
    if payload == "" then [Signed("", signer.Sign(prev, ""))]
    else
      var k := Min(|payload|, c);
      var sig := signer.Sign(prev, payload[..k]);
      [Signed(payload[..k], sig)] + Emitted(signer, c, payload[k..], sig)
  }

  lemma {:induction false} EmittedIsEncoded(signer: Signer, c: nat, payload: string, prev: string)
    requires c > 0
    ensures RenderSigned(Emitted(signer, c, payload, prev)) == Encode(signer, c, payload, prev, Clean)
    decreases |payload|
  {
    hide EncodeChunk, Encode, Signer.Sign;
    if payload == "" {
      var sig := signer.Sign(prev, "");
      assert [Signed("", sig)][1..] == [];
      assert EncodeChunk("", sig) + "" == EncodeChunk("", sig);
      FinalChunkIsEmptyChunk(sig);
      NothingEncoded(signer, c, prev);
    } else {
      var k := Min(|payload|, c);
      var sig := signer.Sign(prev, payload[..k]);
      EmittedIsEncoded(signer, c, payload[k..], sig);
      EncodeFirst(signer, c, payload, prev, Clean);
      var rest := Emitted(signer, c, payload[k..], sig);
      assert ([Signed(payload[..k], sig)] + rest)[1..] == rest;
    }
  }

  lemma NothingEncoded(signer: Signer, c: nat, prev: string)
    requires c > 0
    ensures Encode(signer, c, "", prev, Clean) == FinalChunk(signer.Sign(prev, ""))
  {}

  lemma {:induction false} EmittedChained(signer: Signer, c: nat, payload: string, prev: string)
    requires c > 0
    ensures Chained(signer, prev, Emitted(signer, c, payload, prev))
    ensures DataOf(Emitted(signer, c, payload, prev)) == payload
    decreases |payload|
  {
    hide Signer.Sign;
    if payload != "" {
      var k := Min(|payload|, c);
      var sig := signer.Sign(prev, payload[..k]);
      var rest := Emitted(signer, c, payload[k..], sig);
      EmittedChained(signer, c, payload[k..], sig);
      assert ([Signed(payload[..k], sig)] + rest)[1..] == rest;
      assert payload[..k] + payload[k..] == payload;
    } else {
      assert [Signed("", signer.Sign(prev, ""))][1..] == [];
    }
  }

  // ----- streams made with its signatures -----

  /** The signature before chunk j. */
  function Before(chunks: seq<Signed>, seed: string, j: nat): string
    requires j <= |chunks|
  {
    if j == 0 then seed else chunks[j - 1].sig
  }

  lemma {:induction false} ChainedAt(signer: Signer, seed: string, chunks: seq<Signed>, j: nat)
    requires Chained(signer, seed, chunks) && j < |chunks|
    ensures Chained(signer, Before(chunks, seed, j), chunks[j..])
    ensures chunks[j].sig == signer.Sign(Before(chunks, seed, j), chunks[j].data)
    ensures chunks[j].data == "" <==> j == |chunks| - 1
    decreases |chunks|
  {
    hide Signer.Sign;
    if j == 0 {
      assert chunks[0..] == chunks;
      LastIsEmpty(signer, seed, chunks);
    } else {
      ChainedAt(signer, chunks[0].sig, chunks[1..], j - 1);
      assert chunks[1..][j - 1..] == chunks[j..];
    }
  }

  lemma {:induction false} LastIsEmpty(signer: Signer, seed: string, chunks: seq<Signed>)
    requires Chained(signer, seed, chunks)
    ensures chunks[0].data == "" <==> |chunks| == 1
  {
    hide Signer.Sign;
    if chunks[0].data != "" {
      assert Chained(signer, chunks[0].sig, chunks[1..]);
    }
  }

  /** All signatures of the stream and its seed. */
  function PrevsOf(chunks: seq<Signed>, seed: string, other: string): set<string> {
    {seed, other} + set i | 0 <= i < |chunks| :: chunks[i].sig
  }

  function DatasOf(a: seq<Signed>, b: seq<Signed>): set<string> {
    (set i | 0 <= i < |a| :: a[i].data) + set i | 0 <= i < |b| :: b[i].data
  }

  predicate UsesSignatures(copy: seq<Signed>, chunks: seq<Signed>) {
    forall i :: 0 <= i < |copy| ==> HasSignature(chunks, copy[i].sig)
  }

  predicate HasSignature(chunks: seq<Signed>, sig: string) {
    exists j :: 0 <= j < |chunks| && chunks[j].sig == sig
  }

  predicate SeedIsNoSignature(chunks: seq<Signed>, seed: string) {
    forall j :: 0 <= j < |chunks| ==> chunks[j].sig != seed
  }

  /** No signature comes before two chunks. */
  lemma {:induction false} BeforeDiffers(signer: Signer, seed: string, chunks: seq<Signed>, prevs: set<string>,
                                         datas: set<string>, i: nat, j: nat)
    requires Proper(signer) && OneLine(seed) && Chained(signer, seed, chunks) && SeedIsNoSignature(chunks, seed)
    requires Separates(signer, prevs, datas)
    requires seed in prevs && forall k :: 0 <= k < |chunks| ==> chunks[k].sig in prevs && chunks[k].data in datas
    requires i < j < |chunks|
    ensures Before(chunks, seed, i) != Before(chunks, seed, j)
    decreases i
  {
    hide Signer.Sign, Separates, Chained;
    if i > 0 && Before(chunks, seed, i) == Before(chunks, seed, j) {
      BeforeDiffers(signer, seed, chunks, prevs, datas, i - 1, j - 1);
      ChainedAt(signer, seed, chunks, i - 1);
      ChainedAt(signer, seed, chunks, j - 1);
      BeforeIsOneLine(chunks, seed, i - 1);
      BeforeIsOneLine(chunks, seed, j - 1);
      SignaturesEqualIff(signer, prevs, datas, Before(chunks, seed, i - 1), chunks[i - 1].data,
                         Before(chunks, seed, j - 1), chunks[j - 1].data);
    }
  }

  lemma {:induction false} BeforeIsOneLine(chunks: seq<Signed>, seed: string, j: nat)
    requires OneLine(seed) && j <= |chunks|
    ensures OneLine(Before(chunks, seed, j))
  {
    if j > 0 {
      HexIsOneLine(chunks[j - 1].sig);
    }
  }

  /** A chain that uses only the signatures of another is the end of it. */
  lemma {:induction false} ChainedIsSuffix(signer: Signer, seed: string, chunks: seq<Signed>, start: string,
                                           copy: seq<Signed>, prevs: set<string>, datas: set<string>)
    returns (j: nat)
    requires Proper(signer) && OneLine(seed) && OneLine(start)
    requires Chained(signer, seed, chunks) && SeedIsNoSignature(chunks, seed)
    requires Separates(signer, prevs, datas) && seed in prevs && start in prevs
    requires forall k :: 0 <= k < |chunks| ==> chunks[k].sig in prevs && chunks[k].data in datas
    requires forall k :: 0 <= k < |copy| ==> copy[k].data in datas
    requires UsesSignatures(copy, chunks) && Chained(signer, start, copy)
    ensures j < |chunks| && start == Before(chunks, seed, j) && copy == chunks[j..]
    decreases |copy|
  {
    hide Signer.Sign, Separates, Before;
    j :| 0 <= j < |chunks| && copy[0].sig == chunks[j].sig;
    ChainedAt(signer, seed, chunks, j);
    BeforeIsOneLine(chunks, seed, j);
    BeforeIn(chunks, seed, j, prevs);
    SignaturesEqualIff(signer, prevs, datas, start, copy[0].data, Before(chunks, seed, j), chunks[j].data);
    if copy[0].data == "" {
      assert copy == [copy[0]] && chunks[j..] == [chunks[j]];
    } else {
      HexIsOneLine(copy[0].sig);
      assert UsesSignatures(copy[1..], chunks);
      var k := ChainedIsSuffix(signer, seed, chunks, copy[0].sig, copy[1..], prevs, datas);
      NextBefore(chunks, seed, j);
      if k < j + 1 {
        BeforeDiffers(signer, seed, chunks, prevs, datas, k, j + 1);
      } else if j + 1 < k {
        BeforeDiffers(signer, seed, chunks, prevs, datas, j + 1, k);
      }
      assert copy == [copy[0]] + copy[1..] && chunks[j..] == [chunks[j]] + chunks[j + 1..];
    }
  }

  lemma BeforeIn(chunks: seq<Signed>, seed: string, j: nat, prevs: set<string>)
    requires j < |chunks| && seed in prevs && forall k :: 0 <= k < |chunks| ==> chunks[k].sig in prevs
    ensures Before(chunks, seed, j) in prevs
  {}

  lemma NextBefore(chunks: seq<Signed>, seed: string, j: nat)
    requires j < |chunks|
    ensures Before(chunks, seed, j + 1) == chunks[j].sig
  {}

  /**
   Of all streams whose chunks carry signatures of the emitted one, with whatever
   data, in whatever order and number, and checked against whatever seed, the
   verifier accepts exactly the emitted stream from some chunk on, and that only
   against the signature before this chunk.
   */
  lemma {:induction false} AcceptedIsSuffixIff(signer: Signer, c: nat, payload: string, seed: string, start: string,
                                               copy: seq<Signed>)
    requires c > 0 && Proper(signer) && OneLine(seed) && OneLine(start) && Small(copy)
    requires var chunks := Emitted(signer, c, payload, seed);
             && UsesSignatures(copy, chunks) && SeedIsNoSignature(chunks, seed)
             && Separates(signer, PrevsOf(chunks, seed, start), DatasOf(chunks, copy))
    ensures var chunks := Emitted(signer, c, payload, seed);
            Verify(signer, start, RenderSigned(copy)).Some? <==>
            exists j :: 0 <= j < |chunks| && start == Before(chunks, seed, j) && copy == chunks[j..]
  {
    hide Signer.Sign, Separates, Verify, Chained, Emitted;
    var chunks := Emitted(signer, c, payload, seed);
    EmittedChained(signer, c, payload, seed);
    VerifiedIffChained(signer, start, copy);
    if Chained(signer, start, copy) {
      var j := ChainedIsSuffix(signer, seed, chunks, start, copy, PrevsOf(chunks, seed, start),
                               DatasOf(chunks, copy));
    }
    if j :| 0 <= j < |chunks| && start == Before(chunks, seed, j) && copy == chunks[j..] {
      ChainedAt(signer, seed, chunks, j);
    }
  }

  /** Against the right seed only the emitted stream passes: not one with chunks exchanged, dropped, repeated or altered. */
  lemma {:induction false} TamperedIsRejected(signer: Signer, c: nat, payload: string, seed: string, copy: seq<Signed>)
    requires c > 0 && Proper(signer) && OneLine(seed) && Small(copy)
    requires var chunks := Emitted(signer, c, payload, seed);
             && UsesSignatures(copy, chunks) && SeedIsNoSignature(chunks, seed)
             && Separates(signer, PrevsOf(chunks, seed, seed), DatasOf(chunks, copy))
    ensures Verify(signer, seed, RenderSigned(copy)).Some? <==> copy == Emitted(signer, c, payload, seed)
  {
    hide Signer.Sign, Separates, Verify, Emitted, PrevsOf, DatasOf, UsesSignatures;
    var chunks := Emitted(signer, c, payload, seed);
    AcceptedIsSuffixIff(signer, c, payload, seed, seed, copy);
    EmittedChained(signer, c, payload, seed);
    assert chunks[0..] == chunks && Before(chunks, seed, 0) == seed;
    if j :| 0 <= j < |chunks| && seed == Before(chunks, seed, j) && copy == chunks[j..] {
      assert j == 0;
    }
  }

  /** And against another seed the emitted stream does not pass. */
  lemma {:induction false} OtherSeedIsRejected(signer: Signer, c: nat, payload: string, seed: string, start: string)
    requires 0 < c < 0x8000_0000_0000_0000 && Proper(signer) && OneLine(seed) && OneLine(start) && start != seed
    requires var chunks := Emitted(signer, c, payload, seed);
             && SeedIsNoSignature(chunks, seed)
             && Separates(signer, PrevsOf(chunks, seed, start), DatasOf(chunks, chunks))
    ensures Verify(signer, start, Encode(signer, c, payload, seed, Clean)).None?
  {
    hide Signer.Sign, Separates, Verify, Emitted, Encode, PrevsOf, DatasOf, UsesSignatures;
    var chunks := Emitted(signer, c, payload, seed);
    EmittedIsSmall(signer, c, payload, seed);
    EmittedIsEncoded(signer, c, payload, seed);
    UsesItsOwn(chunks);
    AcceptedIsSuffixIff(signer, c, payload, seed, start, chunks);
    assert forall j :: 0 <= j < |chunks| ==> |chunks[j..]| == |chunks| - j;
  }

  lemma {:induction false} UsesItsOwn(chunks: seq<Signed>)
    ensures UsesSignatures(chunks, chunks)
  {
    forall i | 0 <= i < |chunks|
      ensures HasSignature(chunks, chunks[i].sig)
    {
      var sig := chunks[i].sig;
      assert chunks[i].sig == sig;
    }
  }

  lemma {:induction false} EmittedIsSmall(signer: Signer, c: nat, payload: string, prev: string)
    requires 0 < c < 0x8000_0000_0000_0000
    ensures Small(Emitted(signer, c, payload, prev))
    decreases |payload|
  {
    hide Signer.Sign;
    if payload != "" {
      var k := Min(|payload|, c);
      EmittedIsSmall(signer, c, payload[k..], signer.Sign(prev, payload[..k]));
    }
  }
}
