# s3-router, modelled and proved

s3-router is a proxy that rewrites S3 object keys with regular-expression routes, shows several
backends as one virtual bucket, and re-signs chunked uploads while they stream. This project models
the parts of it whose correctness spans many calls, and proves what they promise.

| files | part of the router |
|---|---|
| `ChunkedFormat`, `ChunkedSource`, `ReEncoder`, `Upload`, `SignatureChain` | the aws-chunked re-encoder, its announced Content-Length, and what its signatures protect |
| `TemplateSyntax`, `TemplateGrammar`, `TemplatePrinting`, `TemplateAnalysis`, `TemplateMeaning` | the template language of rewrites and endpoints |
| `Prefixes`, `AnalysisCache` | the prefix optimizer |
| `Matcher`, `RewriteChains` | routing, rewriting and the decision cache |
| `RouteListing` | what the listing of one route shows |
| `PathCoding`, `ListAndRead`, `PlainListing`, `BucketListing` | listing against reading, for one route and for a bucket |
| `Rollup`, `Pagination`, `CollectedKeys`, `Collector` | delimiter roll-up, pages, collected keys, parallel collection |
| `VirtualHosts` | choosing the bucket by host name |
| `PercentCoding`, `CanonicalQuery` | percent coding, canonical query strings |
| `BatchDelete`, `DeleteTargets` | batch delete, and what it deletes |
| `Text`, `Ordering` | byte strings, and sorting |

## How to read it

* A Go string or byte slice is a Dafny `string`, one character a byte. Percent coding is the one
  place where the numeric value of a byte matters; there it is a character below 256.
* Objects that the source updates in place are classes (`ReEncoder`, `Parser`, `Analyzer`, `Matcher`,
  `PrefixOptimizer`), and loops are methods. Each is proved against a function, and the lemmas are
  about that function.
* SHA-256, HMAC, compiled regular expressions, backends and the matcher of a batch delete are
  function parameters, so every statement holds for all of them.
* Lemmas switch automatic induction off, so that every proof is the one written out in its body.
* Where a promise fails in general, the code is kept as it is and the exact condition is proved.
  A name that ends in `Iff` marks such a result.

## What does not always hold

* **Truncated uploads.** A source that ends inside chunk data makes `Read` loop for ever, exactly when
  no full chunk can be emitted any more (`ReadHangsIff`). A source cut in a header, or right after the
  data of a chunk, is taken for a complete one; `DecodeTruncated` says for every cut of every source
  what is read. The body is then a complete stream, but shorter than announced whenever a data byte is
  missing (`CutUploadIsShort`).
* **Listing against reading.** A read routes the percent-encoded path and decodes only the rewritten
  key (internal/server/server.go:517, internal/backend/proxy/executor.go:278); a listing works on the
  decoded keys. So a route such as `^my docs/(.*)` lists keys that no request reaches, because paths
  spell the space `%20`; a route such as `^my%20docs/(.*)` serves keys that it lists under another name;
  and a backend prefix or rewrite literal such as `p%41/` is listed as it stands and read as `pA/`.
  Besides, with a listing prefix that is a proper, non-empty prefix of the route's literal text and a
  rewrite that adds a literal, keys appear whose rewritten key is not there. `ListingAgreesIff` is the
  exact condition for one route and any listing prefix, `PlainAgreesIff` for a route without rewrite,
  and `BucketListingAgreesIff` for a bucket, where overlapping routes that lead to different places are
  a further cause (`WellSpelledAgreesIff`). A route without rewrite also loses keys when what is left
  of the listing prefix after the static prefix is not itself a prefix of it (`PlainCompleteIff`).
* **Undoing a rewrite.** A listing undoes a rewrite to a literal, a capture and a tail exactly if the
  literal or the tail is empty; with both it takes only the literal off (`ReverseUndoesIff`).
* **Collected keys.** Routes that can list the same keys make a listing hold them twice, even where they
  lead to the same place (`CollectedDistinctIff`).
* **The decision cache.** The comment at internal/routing/matcher.go:53 says that headers enter the key;
  they do not. The encoding of bucket, key and method is ambiguous when one configured bucket name
  followed by a colon starts another (`CacheKeyInjectiveIff`), and then, and only then, some routes for
  these buckets get wrong answers from the cache (`NamesDecideTransparency`; `CacheTransparentIff` says
  it for given routes).
* **The analysis cache.** A NUL byte in a pattern can make two routes share a key (`NulIsAmbiguous`,
  `AnalysisTransparentIff`).
* **Zero keys per page.** Given a list with something left after the start, a request for zero keys makes
  `buildResponse` answer with a truncated page and an empty token (`TokenProgressIff`). A listing request
  with `max-keys=0` does not get there: its backends are asked for no keys, so the list is empty.
* **Percent coding.** Bytes that are not UTF-8 are replaced, so decoding does not give them back
  (`RoundTripIff`); and an open escape at the end of a prefix swallows the start of the key
  (`UnescapeConcatIff`).
* **Batch delete.** Of two names that share a backend and a physical key one is lost in the response
  (`DeleteConservesIff`). Its keys are routed as they stand, unlike those of reads, so it deletes the
  objects that a listing shows them for (`TargetIsListed`, `DeleteUnlists`) even where no path leads to them.

## Model

| member | source | states |
|---|---|---|
| ChunkedFormat.ParseIntOfHex | internal/backend/proxy/chunked.go:189 | a printed chunk size parses to itself, over the whole int64 range |
| ChunkedFormat.SignedInt | internal/backend/proxy/chunked.go:189 | a size may carry a sign, and fails outside int64 |
| ChunkedFormat.ParseUpper | internal/backend/proxy/chunked.go:189 | a size in capital letters is the same size |
| ChunkedFormat.EncodeVerifies | internal/backend/proxy/chunked.go:216-283 | the signatures form the chain that a verifier with the same key and seed accepts, for any number of chunks; it recovers the payload |
| SignatureChain.SignedText | internal/backend/proxy/chunked.go:257-283 | a chunk is signed over six lines: algorithm, date, scope, previous signature, hash of nothing, hash of the data |
| SignatureChain.SignaturesEqualIff | internal/backend/proxy/chunked.go:257-283 | where hash and MAC separate, signatures are equal exactly if previous signature and data are |
| SignatureChain.VerifiedIffChained | internal/backend/proxy/chunked.go:216-247 | of any list of signed chunks the verifier accepts exactly the chains |
| SignatureChain.AcceptedIsSuffixIff | internal/backend/proxy/chunked.go:216-283 | with the signatures of an emitted stream, whatever their data, order, number and seed, only its ends are accepted, each against the signature before it |
| SignatureChain.TamperedIsRejected | internal/backend/proxy/chunked.go:216-283 | against the right seed no stream with chunks exchanged, dropped, repeated or altered passes |
| SignatureChain.OtherSeedIsRejected | internal/backend/proxy/chunked.go:63-85 | against another seed the emitted stream does not pass |
| ChunkedFormat.EncodeLength | internal/backend/proxy/chunked.go:327-358 | the predicted length is the length of the stream for every payload, seed, signer and chunk size |
| ChunkedFormat.LengthAnnouncedIffDeclaredRight | internal/backend/proxy/streaming.go:351-358 | the announced length is right exactly when the declared payload length is |
| ChunkedFormat.EncodedLengthStrict | internal/backend/proxy/chunked.go:327-358 | a longer payload always has a longer stream |
| ChunkedFormat.EncodedLengthBound | internal/backend/proxy/chunked.go:327-358 | at most 90 bytes per 64 KiB and 175 more are added, so int64 holds the sum up to 2^62 |
| ChunkedFormat.ChunkFits | internal/backend/proxy/chunked.go:216-247 | an encoded chunk stays within the bound for its data size |
| ChunkedSource.DecodeStep | internal/backend/proxy/chunked.go:147-213 | each read step delivers the front of the decoded payload and consumes source bytes, ends, fails, or is stalled for good |
| ChunkedSource.FillLoopDivergesIff | internal/backend/proxy/chunked.go:99-107 | the fill loop runs for ever exactly on a source that ends inside a chunk before filling one |
| ChunkedSource.DecodeRendered | internal/backend/proxy/chunked.go:147-213 | every well-formed source decodes to its payload, whatever its chunk sizes, extensions and trailers |
| ChunkedSource.PaddedSize | internal/backend/proxy/chunked.go:180-192 | a size may stand between white space, on a line that ends with CRLF or LF |
| ChunkedSource.SkipsTrailers | internal/backend/proxy/chunked.go:194-211 | trailers are read up to and including the empty line after them |
| ChunkedSource.DecodeTruncated | internal/backend/proxy/chunked.go:147-213 | every well-formed source cut off anywhere: what is delivered, and whether the cut goes unnoticed, stalls the reader, or is an error |
| ChunkedSource.DecodeEncoded | internal/backend/proxy/chunked.go:88-247 | the emitted stream is itself a source that decodes to the same payload |
| ReEncoding.ReEncoder.constructor | internal/backend/proxy/chunked.go:63-85 | the bytes to come are the reference encoding of what the source decodes to |
| ReEncoding.ScopeFields | internal/backend/proxy/chunked.go:63-85 | the credential scope is day, region, service and request type |
| ReEncoding.ReEncoder.ReadFromSource | internal/backend/proxy/chunked.go:147-213 | one call has the effect of one read step on fields and buffer |
| ReEncoding.ReEncoder.WriteChunk | internal/backend/proxy/chunked.go:216-232 | appends the encoded chunk and moves the signature chain on |
| ReEncoding.ReEncoder.WriteFinalChunk | internal/backend/proxy/chunked.go:235-247 | appends the zero-size chunk signed over the last signature |
| ReEncoding.ReEncoder.Fill | internal/backend/proxy/chunked.go:98-107 | reading ahead does not change the bytes to come, and ends |
| ReEncoding.ReEncoder.Emit | internal/backend/proxy/chunked.go:109-132 | signing a chunk does not change the bytes to come, and leaves something to return |
| ReEncoding.ReEncoder.Read | internal/backend/proxy/chunked.go:88-144 | returns the next bytes of the encoding and nothing else, never nothing for a non-empty buffer, then EOF or the source's error |
| ReEncoding.ReEncoder.ReadHangsIff | internal/backend/proxy/chunked.go:99-107 | Read may not be called exactly where its loop would never leave |
| Uploading.CalculateReEncodedContentLength | internal/backend/proxy/chunked.go:327-358 | the loop computes the predicted length; a negative length counts as zero |
| Uploading.Upload | internal/backend/proxy/streaming.go:339-400 | for every well-formed source and all buffer sizes the body is the reference encoding, as long as announced, accepted by the verifier, and decodes to the payload |
| Uploading.CutUploadIsShort | internal/backend/proxy/streaming.go:351-358 | for every cut of every source the body is shorter than announced unless all data arrived; a cut that goes unnoticed still gives a stream the verifier accepts |
| TemplateParsing.Parser.ParseName | internal/template/template.go:381-403 | takes exactly the number or identifier at the position |
| TemplateParsing.Parser.ParseDefaultValue | internal/template/template.go:343-378 | cuts at the brace where the count returns to zero and parses the text before it |
| TemplateParsing.Parser.ParseBracedPlaceholder | internal/template/template.go:300-339 | the braced form, with its operators and errors |
| TemplateParsing.Parser.ParsePlaceholderNode | internal/template/template.go:279-297 | the placeholder forms, and a lone '$' as text |
| TemplateParsing.Parser.ParseTemplateText | internal/template/template.go:223-246 | the whole text as one tree, and termination on every input |
| TemplateParsing.Parse | internal/template/template.go:58-71 | a fresh parser on the whole input |
| TemplateGrammar.ScanItem | internal/template/template.go:347-362 | the brace count steps over a well-formed item as if it were not there, at any depth |
| TemplateGrammar.DefaultEquals | internal/template/template.go:343-378 | counting braces and then parsing is parsing items up to the closing brace of their own level |
| TemplateGrammar.ParserMeetsGrammar | internal/template/template.go:223-403 | on every text the parser accepts what the one-pass grammar accepts, with the same tree |
| TemplatePrinting.ParsePrint | internal/template/template.go:223-403 | a canonical tree written in braces parses to itself |
| TemplatePrinting.ParsedIsCanonical | internal/template/template.go:223-403 | the parser yields canonical trees only, so printing and parsing again changes nothing |
| TemplateAnalysis.Analyzer.Traverse | internal/template/template.go:91-114 | the walk updates the buffers as visiting the leaves in order does |
| TemplateAnalysis.Analyzer.Finalize | internal/template/template.go:116-120 | the last placeholder is flushed with its tail |
| TemplateAnalysis.AnalyzeTemplate | internal/template/template.go:122-131 | the analysis of the tree |
| TemplateAnalysis.AnalysisRefinesTree | internal/template/template.go:91-214 | for all values, prefix, placeholder values and tails in order are what the tree evaluates to; the conditional flag is exact |
| TemplateMeaning.BareForm | internal/template/template.go:279-297 | `$n` and `${n}` parse the same |
| TemplateMeaning.NameIsLongest | internal/template/template.go:381-403 | a name takes all digits of a number, or all characters of an identifier |
| TemplateMeaning.NamedValue | internal/template/template.go:177-188 | a name gives its named value |
| TemplateMeaning.NumberedValue | internal/template/template.go:177-188 | without one, a numeral of any length, leading zeros included, gives the value with its number |
| TemplateMeaning.UnknownName | internal/template/template.go:206-213 | any other name gives nothing |
| TemplateMeaning.DefaultForm | internal/template/template.go:198-204 | `${n:-t}` gives what `${n}` gives if that is not empty, and what t gives otherwise |
| TemplateMeaning.AlternativeForm | internal/template/template.go:190-197 | `${n:+t}` gives what t gives if `${n}` is not empty, and nothing otherwise |
| TemplateMeaning.PartsInOrder | internal/template/template.go:159-169 | a template gives what its parts give, in order |
| Routing.CollectCaptures | internal/routing/matcher.go:114-125 | named groups that took part in the match become captures, later ones win |
| Routing.SubstituteCaptures | internal/routing/matcher.go:92-109 | the template is evaluated with all named and numbered captures, or panics if some group took no part |
| Routing.Rewrite | internal/routing/matcher.go:111-157 | rules apply in turn, each on the key and captures left by those before it, until one panics |
| RewriteChains.RewrittenByChain | internal/routing/matcher.go:111-157 | a key goes through rules with and without patterns of their own, from the first to the last, with the captures so far |
| RewriteChains.NumberedChain | internal/routing/matcher.go:127-149 | with numbered captures every rule whose text the key starts with puts its literal in its place |
| RewriteChains.LastRuleShowsCapture | internal/routing/matcher.go:134-149 | a later rule shows what an earlier one captured, from the key as it was then |
| RewriteChains.PanicsIff | internal/routing/matcher.go:92-109 | substitution panics exactly if some group took no part |
| RewriteChains.ReverseUndoesIff | internal/bucket/listobjectsv2.go:445-511 | a listing undoes a rewrite to literal, capture and tail exactly if literal or tail is empty |
| RewriteChains.ConditionalShown | internal/bucket/listobjectsv2.go:445-511 | keys of a rewrite with conditionals are listed under the route's text, none is left out |
| RewriteChains.PushedLiteralIff | internal/bucket/prefix_optimizer.go:328-384 | which rewrites push a literal down to the backend, and which push nothing |
| Routing.Matcher.Match | internal/routing/matcher.go:42-90 | answer and new cache of one call, for any eviction |
| Routing.Matcher.InvalidateCache | internal/routing/matcher.go:159-163 | empties the cache |
| Routing.CacheTransparentIff | internal/routing/matcher.go:42-90 | over all histories and evictions cached answers equal uncached ones, exactly when requests that share an entry agree |
| Routing.NamesDecideTransparency | internal/routing/matcher.go:42-90 | for all routes, histories and evictions cached answers equal uncached ones, exactly if no bucket name followed by a colon starts another |
| Routing.CacheKeyInjectiveIff | internal/routing/matcher.go:54 | the key encoding is injective exactly if no bucket name followed by a colon starts another |
| Routing.ColonFreeNamesAreTransparent | internal/routing/matcher.go:42-90 | with colon-free bucket names the cache is invisible |
| Prefixes.TokenizePattern | internal/bucket/prefix_optimizer.go:506-543 | splits at slashes outside groups |
| RoutePatterns.ClassifyWild | internal/bucket/prefix_optimizer.go:546-607 | every recognised wildcard group gets its kind |
| RoutePatterns.StructureFound | internal/bucket/prefix_optimizer.go:649-672 | the structure read from a pattern's text is the one it was written from |
| RoutePatterns.StaticPrefixFound | internal/bucket/prefix_optimizer.go:124-176 | both extractors find exactly the literal text of the pattern, and what may be optimized follows from it |
| RoutePatterns.OptimizerSound | internal/bucket/prefix_optimizer.go:456-473 | every matching key starts with the static prefix, and a skipped route matches nothing under the listing prefix |
| RoutePatterns.UnanchoredNeverSkipped | internal/bucket/prefix_optimizer.go:456-473 | a pattern without ^ has no static prefix and its route is never skipped |
| AnalysisCache.BuildCacheKey | internal/bucket/prefix_optimizer.go:80-98 | the key text of a route |
| AnalysisCache.CacheKeyInjective | internal/bucket/prefix_optimizer.go:80-98 | routes with NUL-free texts have different keys |
| AnalysisCache.PrefixOptimizer.AnalyzeRoute | internal/bucket/prefix_optimizer.go:101-121 | answer and new cache of one call |
| AnalysisCache.AnalysisTransparentIff | internal/bucket/prefix_optimizer.go:101-121 | over all sequences of calls cached analyses equal fresh ones, exactly if routes that share a key have one analysis |
| AnalysisCache.NulFreeIsTransparent | internal/bucket/prefix_optimizer.go:80-121 | routes with NUL-free texts always get their own analysis |
| RouteListing.ApplyReverseRewrites | internal/bucket/listobjectsv2.go:426-442 | the rules undone from last to first |
| RouteListing.MapObjects | internal/bucket/listobjectsv2.go:131-162 | the objects of a page that belong to the route, in order |
| RouteListing.CompiledMatches | internal/routing/matcher.go:64 | the match function assumed for a pattern matches what the pattern class says |
| RouteListing.ForwardKey | internal/routing/matcher.go:111-157 | forward routing of the route class: literal and capture |
| RouteListing.ReverseKey | internal/bucket/listobjectsv2.go:445-511 | what the reverse rewrite makes of any backend key, mapped or not |
| RouteListing.PushedPrefix | internal/bucket/prefix_optimizer.go:391-430 | the prefix that reaches the backend, and when the route is skipped |
| RouteListing.ListingComplete | internal/bucket/listobjectsv2.go:89-171 | with a whole page no key whose rewritten key is stored is missing |
| RouteListing.ListingSound | internal/bucket/listobjectsv2.go:89-171 | under the condition below no other key is shown, page cut short or not |
| RouteListing.ListingExactIff | internal/bucket/concurrent_processor.go:145-164 | the listing shows exactly the keys whose rewritten keys are stored, for all backends, if and only if the prefix is empty, no proper prefix of the literal text, or no literal is added |
| PathCoding.DecodePath | internal/server/server.go:513-541 | whichever bytes a path escapes, it decodes to its key |
| PathCoding.RoutedIff | internal/routing/matcher.go:64 | a path starts with the literal text of a route exactly if the key starts with the text that it decodes to, provided that is spelled so |
| PathCoding.SpelledAsItIsIff | internal/server/server.go:517 | a path spells a text as it is exactly if it escapes none of its characters |
| PathCoding.DecodesInPlaceIff | internal/backend/proxy/executor.go:278 | when decoding behind a prefix gives prefix and key for every key |
| ListAndRead.ReadKeyOfPath | internal/backend/proxy/executor.go:276-284 | where the read of a key looks, from path to backend key |
| ListAndRead.SpellingIrrelevant | internal/backend/proxy/executor.go:276-284 | however a client spells the rest of a key, the read looks in the same place |
| ListAndRead.ListingAgreesIff | internal/bucket/listobjectsv2.go:89-171 | listing agrees with reading for all backends and keys under any listing prefix exactly if paths spell the literal text as it is, the prefix is aligned, and nothing in front of the key is taken for an escape; or the prefix excludes the route and no path leads to it |
| PlainListing.PlainCompleteIff | internal/bucket/prefix_optimizer.go:412-422 | when a route without rewrite lists all its keys under any listing prefix |
| PlainListing.PlainAgreesIff | internal/bucket/prefix_optimizer.go:391-430 | when the listing of such a route agrees with reading through it |
| BucketListing.FirstRouteIs | internal/routing/matcher.go:61-87 | the decision the matcher takes among several routes |
| BucketListing.BucketListingAgreesIff | internal/bucket/listobjectsv2.go:55-86 | the listing of a bucket under any prefix agrees with reading exactly if prefixes are aligned and the two agree at finitely many texts |
| BucketListing.WellSpelledAgreesIff | internal/bucket/listobjectsv2.go:55-86 | for literal texts without escapes this means that overlapping routes lead to the same place |
| CollectedKeys.CollectedDistinctIff | internal/bucket/concurrent_processor.go:69-94 | no key is collected twice, for all backends, exactly if prefixes are aligned and no two routes can list the same keys |
| CollectedKeys.RunShowsReads | internal/bucket/listobjectsv2.go:55-86 | the answers to a client that follows all tokens hold a key exactly if reading it finds an object |
| Rollup.FilterByVirtualPrefix | internal/bucket/listobjectsv2.go:369-388 | keeps the objects under the prefix, in order |
| Rollup.ExtractCommonPrefixes | internal/bucket/listobjectsv2.go:346-366 | the set of prefixes that some object contributes |
| Rollup.WithoutCommonPrefix | internal/bucket/listobjectsv2.go:208-220 | testing against all prefixes keeps exactly the keys without the delimiter |
| Rollup.RollupPartitions | internal/bucket/listobjectsv2.go:205-220 | a key either stays and has no common prefix, or goes and has exactly one |
| Rollup.CoveredIff | internal/bucket/listobjectsv2.go:209-216 | having some common prefix is holding the delimiter after the listing prefix, self-overlapping delimiters included |
| Pagination.MergeItems | internal/bucket/listobjectsv2.go:196-273 | kept objects as often as collected and common prefixes once, in key order; strictly ascending if the keys differ |
| Pagination.MergedUnique | internal/bucket/listobjectsv2.go:270-273 | the merged list does not depend on the order of collection |
| Pagination.FindStartIndex | internal/bucket/listobjectsv2.go:392-406 | the binary search finds the split point of sorted keys |
| Pagination.ScanStart | internal/bucket/listobjectsv2.go:289-301 | the linear scan finds the same split point |
| Pagination.StartIndexSplits | internal/bucket/listobjectsv2.go:289-301 | on sorted keys the split point is the only one |
| Pagination.BuildResponse | internal/bucket/listobjectsv2.go:176-343 | the page after the token, or else after the start key, with its flag, token and count |
| Pagination.FollowEnumerates | internal/bucket/listobjectsv2.go:303-316 | following the tokens shows every item beyond the start key once and in order, in full pages but for the last |
| Pagination.PageCountIsCeiling | internal/bucket/listobjectsv2.go:303-316 | the number of pages is the quotient rounded up, at least one |
| Pagination.RunShowsExactly | internal/bucket/listobjectsv2.go:176-343 | which objects and common prefixes a run shows, from the collected objects to the last page |
| Pagination.ResponsesEnumerate | internal/bucket/listobjectsv2.go:275-343 | a client that repeats its request, start key included, with the token of the last answer gets all items beyond the start key, in as many answers as they need |
| Pagination.RequestsShowExactly | internal/bucket/listobjectsv2.go:176-343 | which objects and common prefixes these answers hold, each once and in order |
| Pagination.FollowTokens | internal/bucket/listobjectsv2.go:176-343 | the same run, made of calls to buildResponse |
| Pagination.TokenProgressIff | internal/bucket/listobjectsv2.go:303-316 | truncated pages have a token that leads further exactly if pages hold keys or nothing is left |
| Collecting.NoPanicNoBlock | internal/bucket/concurrent_processor.go:42-66 | in every schedule nothing panics, and a worker about to send finds the channel open and not full |
| Collecting.ReturnIsComplete | internal/bucket/concurrent_processor.go:74-94 | a normal return has one result of every route; with an unexpired context all objects |
| Collecting.ScheduleIndependent | internal/bucket/concurrent_processor.go:36-117 | two schedules collect the same multiset of objects |
| Collecting.SameListing | internal/bucket/concurrent_processor.go:36-117 | and lead to the same merged listing |
| Collecting.NoDeadlock | internal/bucket/concurrent_processor.go:57-94 | until everything has ended some goroutine can move |
| Collecting.SchedulesEnd | internal/bucket/concurrent_processor.go:36-117 | no schedule has more than 4n + 3 moves |
| Collecting.Summarize | internal/bucket/concurrent_processor.go:69-116 | an error exactly if some route failed and no object was found |
| VirtualHosts.GetBucketMapping | internal/config/virtual_host.go:31-39 | the first entry that matches decides |
| VirtualHosts.ValidateHostName | internal/config/virtual_host.go:50-75 | label characters and dots, with no dot at the front or after another |
| VirtualHosts.ValidIffLabels | internal/config/virtual_host.go:50-75 | valid names are non-empty labels with dots between them, and perhaps one at the end |
| VirtualHosts.WildcardTakesLabel | internal/config/virtual_host.go:118-178 | a configured wildcard gives exactly the one label before its suffix |
| VirtualHosts.ExtractIff | internal/config/virtual_host.go:93-178 | when an exact entry, a wildcard with a bucket of its own, or one without answers, and with which bucket |
| VirtualHosts.SplitForms | internal/config/virtual_host.go:78-91 | a host with a port, a host alone, and what is refused |
| VirtualHosts.ConfiguredHosts | internal/config/virtual_host.go:118-222 | what each form of configuration entry becomes |
| VirtualHosts.StableSort | internal/config/virtual_host.go:274-286 | every rearrangement by specificity that keeps equally specific entries in place order is the one the lookup is proved for |
| VirtualHosts.LookupIsMostSpecific | internal/config/virtual_host.go:31-39 | lookup takes the most specific match: with port, longer suffix, earlier; and fails only if nothing matches |
| VirtualHosts.ExactBeatsWildcard | internal/config/virtual_host.go:274-286 | if an exact entry matches, the lookup answers from no wildcard with the same port status |
| VirtualHosts.OrderIrrelevant | internal/config/virtual_host.go:261-292 | without two entries for one suffix and port, the order of the configuration does not matter |
| PercentCoding.EncodeRFC3986 | internal/server/verifier.go:424-440 | the encoder, on any bytes |
| PercentCoding.ConservativePathUnescape | internal/backend/proxy/executor.go:83-112 | the buffer loop computes the reference decoder |
| PercentCoding.UnescapeShortens | internal/backend/proxy/executor.go:84 | decoding never needs more than the buffer |
| PercentCoding.RunesOfUtf8 | internal/server/verifier.go:426 | a range loop over UTF-8 text sees its code points |
| PercentCoding.RoundTripIff | internal/server/verifier.go:424-440 | decoding undoes encoding exactly on UTF-8 |
| PercentCoding.EncodeInjective | internal/server/verifier.go:424-440 | encodings of different UTF-8 texts differ |
| PercentCoding.EncodedIsUpper | internal/server/verifier.go:424-440 | only unreserved characters and escapes with capital digits come out |
| PercentCoding.UnescapeEitherCase | internal/backend/proxy/executor.go:67-112 | escapes are decoded with digits in either case |
| PercentCoding.DecodeRuneIff | internal/server/verifier.go:426 | a code point is seen exactly where its UTF-8 form stands, and any other byte is replaced |
| PercentCoding.UnescapeConcatIff | internal/backend/proxy/executor.go:83-112 | decoding distributes over prefix and key for all keys exactly if the prefix leaves no escape open |
| CanonicalQuery.EncodeQueryString | internal/server/verifier.go:392-421 | the parameters of the query in canonical order, encoded and joined |
| CanonicalQuery.SameParametersSameList | internal/server/verifier.go:397-421 | the canonical order does not depend on arrival |
| CanonicalQuery.CanonicalStringIff | internal/server/verifier.go:392-421 | for UTF-8 parameters the strings are equal exactly if the multisets are |
| CanonicalQuery.ParseRender | internal/server/verifier.go:392-421 | split and decoded, the string gives the names and values back in canonical order |
| BatchDelete.GroupKeys | internal/backend/proxy/executor.go:1284-1306 | every key is in the group of its own backend, in request order, and in no other |
| DeleteTargets.FallbackIff | internal/backend/proxy/executor.go:1286-1306 | which keys take the fallback, and that physical keys carry the prefix of the backend asked |
| DeleteTargets.TargetIsListed | internal/backend/proxy/executor.go:1286-1306 | a key is deleted where its first route keeps it, which is the object that a listing shows as the key |
| DeleteTargets.DeleteUnlists | internal/backend/proxy/executor.go:1284-1359 | a delete takes out of the listing exactly the requested keys and those that show the same objects |
| BatchDelete.ExecuteDeletes | internal/backend/proxy/executor.go:1315-1359 | each backend is asked for the physical keys of its group; the reported keys of all backends come translated back, for any order of the map |
| BatchDelete.LastNameWins | internal/backend/proxy/executor.go:1344-1358 | keys that share a backend and a physical key come back under the name of the last of them |
| BatchDelete.DeleteConserves | internal/backend/proxy/executor.go:1284-1359 | every requested key of a succeeding backend is named as often as it was requested |
| BatchDelete.DeleteConservesIff | internal/backend/proxy/executor.go:1344-1358 | this holds for all honest backends and orders exactly if no two names share a physical key in a backend with a client |

## Left out

- I/O: HTTP, XML, AWS SDK calls, logging, metrics, tracing and error texts are not part of this model.
- ReEncoding.ReEncoder.Read: read errors of the underlying connection are not modelled; the source is the bytes that arrive before its end.
- ChunkedFormat.ParseSize: white space around a chunk size is ASCII white space; Go also trims Unicode spaces.
- Integer width: only chunk sizes and the predicted length come near int64, and both are bounded; other counters are unbounded.
- Routing.Matcher.Match: regular expressions are match functions with a span for every group that takes part.
- ListAndRead.ListingAgreesIff: covers `^L(.*)` and `^L(?P<n>.*)` with one rewrite, a literal followed by the capture, and non-empty keys without newlines; other route shapes have no such agreement in general.
- ListAndRead.ReadKeyOfPath: a client escapes a byte everywhere or nowhere; SpellingIrrelevant covers paths that mix.
- RouteListing.ListingComplete: assumes a backend page that was not cut at its key limit; the source asks each backend for one page only.
- Pagination.BuildResponse: among objects with the same virtual key the source's sort is unstable, so only their number is promised.
- Pagination.FollowEnumerates: every request of a run pages over the same collected objects, with different keys (see CollectedDistinctIff).
- RoutePatterns.OptimizerSound: covers literal segments followed by recognised wildcard groups; the conclusions drawn for other expressions are not sound in general.
- AnalysisCache.PrefixOptimizer.AnalyzeRoute: the lock around the map is not modelled; each call is one step.
- CanonicalQuery.EncodeQueryString: the source sorts raw names where Signature Version 4 sorts encoded ones; only order independence and injectivity are claimed.
- BatchDelete.ExecuteDeletes: the fallback without a matcher is not modelled.
- ReEncoding.ReEncoder.constructor: the signing key is given; its derivation from the secret is a chain of MACs.
- Version 1 listings, header canonicalisation, credential providers, the circuit breaker and the parsing of sizes and durations are not part of this model.
