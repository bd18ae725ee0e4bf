# A verified model of webhttp's hard cores

webhttp is a Go library of HTTP middleware. This project models, in Dafny, the parts of it whose
correctness is not visible from one body: the gzip writer that delays its commit, the list and
Forwarded parsers, the client resolver, the inline-element scanner, shutdown, the token bucket, commit
tracking under panics, canonical hosts and a few smaller transformations. For each it proves what the
source's comments, documentation and fuzz targets promise, for all inputs and all runs.

`dafny verify dfyconfig.toml` checks everything.

## How the model is laid out

| file | source | what it holds |
|---|---|---|
| `Text`, `AsciiFold` | `asciifold.go` | string helpers; ASCII folding |
| `FieldList` | `fieldlist.go` | the list scanner, its printer and its grammar |
| `Prelude` | `prelude.go` | the Allow value |
| `NetAddr`, `Trust`, `ClientIp` | `clientip.go` | addresses as numbers, trusted prefixes, the trust walk |
| `ForwardedNode`, `ForwardedElement`, `ForwardedField` | `clientip.go` | RFC 7239 nodes, elements and whole fields |
| `Csp`, `CspPage`, `CspSrc` | `csp.go` | the scanner against a naive rule; printed pages; the src test |
| `Header`, `Gzip` | `gzip.go` | header edits; content negotiation and candidates |
| `ResponseWriter` | `recorder.go` | a ledger of net/http's writer, and StatusRecorder over it |
| `GzipModel`, `GzipWriter`, `GzipRuns` | `gzip.go` | the five-state machine; the object and its pooled compressor; theorems over runs |
| `Recoverer` | `middleware.go` | deferred recovery, and Recoverer around Gzip |
| `SilentConns`, `RunProtocol` | `server.go` | interleavings of track, closeAll and the closes; the Run protocol |
| `RateLimit` | `ratelimit.go` | the token bucket |
| `HostAllowlist` | `hostallowlist.go` | canonical hosts, their preimages, the allowlist |
| `ReqLog` | `reqlog.go` | the logged-path cap and the path template |

Code that updates state is a class or a loop proved against a function of its inputs or its old state;
the theorems are about those functions. A Go string is a byte sequence; byte b is modelled as the
character with code b, so every theorem over strings covers every byte string.

What the code calls and this repository does not hold is a parameter with stated laws:

- the compressor and the client's decompressor (`GzipModel.Lawful`): output only grows, a sealed stream
  decodes to what was written, an unsealed one does not decode, and after a flush all that was written
  can be read. `GzipModel.LawfulCodecExists` shows the laws can be met.
- `netip.ParseAddr` and `ParseAddrPort` (`NetAddr.Lawful`), and `net.ParseIP` with `IP.String`
  (`HostAllowlist.Lawful`): what characters a literal holds, and that printing then parsing is the
  identity.
- `mime.ParseMediaType`, `strings.TrimSpace`, the address predicates `IsGlobalUnicast`, `IsPrivate` and
  `IsLoopback`, and the CSP hash: functions without laws.

## Where the code and its promises differ

- `StatusRecorder.WriteHeader` records any status, a 1xx included, as the response's status and as a
  commit. So `Wrote` answers true after early hints although net/http has committed nothing, `Status`
  answers 103 after a 103 and a 200, `switchedProtocol` misses a 101 that follows a 103, and Recoverer
  then sends no 500 for a panic. `ResponseWriter.InfoIsTakenForCommit` tells from the calls alone
  exactly when each of the three fails, `ResponseWriter.EarlyHintsLookWritten` gives an input for each,
  and `Recoverer.PanicUnderGzip` and `Recoverer.EarlyHintsLoseTheAnswer` the consequence in the
  documented stack.
- `gzipWriter.abort` drops the handler's Content-Length only once a final status is decided. A handler
  that sets Content-Length and panics before anything decides the response leaves it on Recoverer's 500;
  `Recoverer.PanicUnderGzip` states exactly when, `Recoverer.LengthOutlivesPanic` an input.
- `InlineScriptHashes` promises the elements without a src attribute, but the src test asks for an '=',
  so `<script src>` is hashed as an inline script. `CspSrc.BareSrcIsMissed` gives the exact condition on
  printed attributes, `CspSrc.BareSrcLooksInline` an input.

## Model

| member | source | states |
|---|---|---|
| AsciiFold.EqualASCIIFold | asciifold.go:19-29 | true exactly when the two strings have the same ASCII lower case |
| AsciiFold.LowerASCIIString | asciifold.go:65-80 | the in-place copy is the ASCII lower case of the input, for all bytes |
| AsciiFold.LowerIsProjection | asciifold.go:31-47 | folding twice is folding once; it fixes exactly the strings without an upper-case ASCII letter |
| FieldList.Scan | fieldlist.go:30-51 | the quote-tracking loop reads a field's joined lines as the specification's elements, in each of the three dialects |
| FieldList.LayoutReadsBack | fieldlist.go:25-51 | any well-formed elements, laid out with any gaps of SP, HTAB and commas, read back as exactly those elements |
| FieldList.ElementsIffLayout | fieldlist.go:25-51 | a field that closes its quotes reads as a list exactly when the list is well formed and the field is a layout of it |
| FieldList.FieldToLayout | fieldlist.go:25-51 | every field, quotes closed or not, is a layout of what it reads as: no byte outside the gaps is lost |
| FieldList.LinesReadApart | fieldlist.go:25-32 | reading joined lines is reading each line, when no line but the last leaves a quote open |
| FieldList.TokenLinesReadApart | fieldlist.go:13-15 | without quoting this holds for all bytes: a stray quote swallows nothing |
| FieldList.LaidOutLinesReadBack | fieldlist.go:25-32 | lines each laid out on their own read back as all their elements in order |
| FieldList.ScanTokenLen | fieldlist.go:53-61 | the loop finds the length of the front token |
| FieldList.TokenLenAt | fieldlist.go:53-61 | that length is where the first byte outside the class stands, and only that |
| Prelude.AllowValue | prelude.go:148-160 | the loop renders the deduplicated method set, one entry unchanged |
| Prelude.DedupeMeaning | prelude.go:125-133 | the set holds exactly the non-blank entries, each once, in order of first occurrence |
| Prelude.AllowReadsBack | prelude.go:148-160 | for tokens and blanks the value reads back through the list scanner as the set, and renders again as itself |
| ForwardedNode.NodeIffGrammar | clientip.go:269-308 | a node parses to an address exactly when it derives from the section 6 grammar with that address |
| ForwardedElement.CutForwardedValue | clientip.go:245-267 | the loop with its builder computes the recursive reading of a token or quoted-string |
| ForwardedElement.CutForwardedPair | clientip.go:231-243 | one pair is cut from the front, value decoded, or refused |
| ForwardedElement.ParseForwardedElement | clientip.go:197-229 | the loop over rest, seen and forNode computes the recursive parse |
| ForwardedElement.ValueReadsBack | clientip.go:245-267 | every well-formed token or quoted-string, with any choice of escapes, reads back decoded |
| ForwardedElement.ValueSound | clientip.go:245-267 | whatever is read is the text of some well-formed value |
| ForwardedElement.FoldMeaning | clientip.go:204-228 | the running checks equal: at most 16 pairs, no name twice up to case, nodes under for and by, and the for address |
| ForwardedElement.ElementIffGrammar | clientip.go:197-229 | an element is valid with an address exactly when it derives from the section 4 grammar, within the limits, with that address |
| ForwardedField.ParseBounded | clientip.go:166-178 | every element parsed, or one zero element over 64 |
| ForwardedField.FieldReadsBack | clientip.go:127-133 | a Forwarded field printed as lines of elements, with any layout, reads back as exactly the elements and addresses printed; over 64 it is one invalid element |
| Trust.InTrusted | clientip.go:71-84 | the loop answers whether some prefix holds the address or its mapped form |
| Trust.CanonicalKeepsTrust | clientip.go:333-346 | storing prefixes unmapped and masked changes the answer for no unmapped address |
| Trust.SpellingsAgree | clientip.go:310-314 | the IPv4 and the mapped spelling of a network are stored as one prefix |
| Trust.OneNetworkOneForm | clientip.go:310-346 | prefixes of one length that hold each other's address are stored as one prefix |
| Trust.BareAddressAlone | clientip.go:336-345 | a bare address is trusted alone |
| Trust.EntryMeaning | clientip.go:333-346 | an entry is refused exactly when it is no prefix and no address without a zone; what is stored trusts what the entry names |
| Trust.ShiftMapped | clientip.go:342-344 | the 96-bit offset does not carry into the prefix comparison |
| ClientIp.ParseForwarding | clientip.go:127-133 | the three fields are each read once, under their own dialect |
| ClientIp.Client | clientip.go:135-147 | the backward loop finds the rightmost untrusted bare entry with only bare trusted entries after it, or nothing when there is none |
| ClientIp.ResolveClient | clientip.go:40-55 | the answer is the chosen entry exactly when the peer is trusted and one is chosen, else the peer; ignored forwarding is reported only for an untrusted peer |
| ClientIp.PrependingKeepsClient | clientip.go:32-38 | bytes and a comma put in front of X-Forwarded-For leave a found client, unless the list then exceeds 64, which answers the peer |
| ClientIp.WaysToPrepend | clientip.go:32-38 | more field lines, or bytes before the first line, are such a prefix |
| ClientIp.ForwardedAddressIsListed | clientip.go:180-195 | an address taken from the header is one of its elements, alone and without a zone |
| ClientIp.OtherSpellings | clientip.go:108-117 | quoted and bracketed spellings name the same address and are not bare |
| ClientIp.PortAndZoneSpellings | clientip.go:180-195 | with a port an element names its address and is not bare; with a zone it names nothing |
| Csp.HasFoldPrefix | csp.go:228-240 | true exactly when the needle stands at the front in any letter case |
| Csp.IndexFoldASCII | csp.go:215-226 | the first position at or after the start where the needle stands, or none |
| Csp.FindElementOpen | csp.go:114-130 | skipping a whole needle after a failed boundary still finds the first open tag |
| Csp.FindElementClose | csp.go:132-153 | the same for the close tag, which needs a boundary byte |
| Csp.NoOverlap | csp.go:118-130 | two occurrences of a needle with one '<' never overlap, so skipping loses none |
| Csp.OpenTagEnd | csp.go:155-172 | the first '>' outside quotes |
| Csp.MatchesSrcHere | csp.go:201-213 | true exactly when src stands here with an '=' after optional white space |
| Csp.HasSrcAttr | csp.go:174-199 | true exactly when src stands at some attribute-name position outside quotes |
| Csp.InlineElementHashes | csp.go:84-107 | the hashes of exactly the naive rule's spans, in order, minus the src ones |
| CspPage.PageReadsBack | csp.go:84-107 | a page printed as text and elements has exactly the printed elements as spans |
| CspSrc.PrintedSrc | csp.go:174-199 | on printed attributes the src test answers whether one is a src with a value |
| CspSrc.BareSrcIsMissed | csp.go:201-213 | a script that declares src is taken for an inline one exactly when every src it declares is bare |
| CspSrc.BareSrcLooksInline | csp.go:8-9 | a bare src is such a script |
| CspSrc.PageHashes | csp.go:34-36 | a printed page yields the hashes of exactly the printed bodies, in order, minus the scripts that have a src with a value |
| Header.AddVaryAcceptEncoding | gzip.go:205-214 | the loop adds Accept-Encoding unless some element covers it |
| Header.VaryMeaning | gzip.go:205-214 | Vary then covers the coding, keeps its elements, and adding again adds nothing |
| Header.CanonicalKeyMeaning | gzip.go:349-350 | a declared trailer's key differs in case only, and is one for all its spellings |
| Header.RestoreHeader | gzip.go:344-369 | the three loops compute the restored map and the declared trailers' values |
| Header.RestoredLines | gzip.go:344-369 | a restored header has exactly the held header's lines, marked or not |
| Header.MarkCompressed | gzip.go:371-381 | the edits of a compressed header |
| Header.MarkedMeaning | gzip.go:371-381 | it says gzip, has no identity length or ranges, weakens a strong ETag, and changes nothing else |
| Gzip.EncodingOffer | gzip.go:177-189 | the coding, and offered unless its first weight is a zero |
| Gzip.ZeroQExactly | gzip.go:191-203 | a zero weight is one of the five spellings of section 12.4.2 of RFC 9110 |
| Gzip.ReadAcceptEncoding | gzip.go:158-175 | the first element naming gzip decides; when none does, the last wildcard |
| Gzip.IsCompressible | gzip.go:87-103 | the type parses and it or its suffix is listed |
| Gzip.SuffixMeaning | gzip.go:92-96 | the suffix is what follows the subtype's last '+', with it |
| Gzip.MinBytes | gzip.go:33-38 | the least threshold that is at least n and at least one |
| ResponseWriter.StatusRecorder.WriteHeader | recorder.go:36-42 | the first status is recorded and every call forwarded |
| ResponseWriter.StatusRecorder.Write | recorder.go:44-49 | a write commits and is forwarded |
| ResponseWriter.StatusRecorder.FlushError | recorder.go:82-89 | a flush commits unless flushing is unsupported |
| ResponseWriter.StatusRecorder.Hijack | recorder.go:95-109 | a successful hijack commits, bare when nothing was recorded |
| ResponseWriter.StatusRecorder.ReadFrom | recorder.go:125-144 | only bytes actually copied commit |
| ResponseWriter.RunRecords | recorder.go:36-144 | every step keeps: written is committed or a 1xx sent; the status is the committed one or the first 1xx; bare is a hijack with nothing sent |
| ResponseWriter.LedgerFromCalls | recorder.go:36-144 | what the calls alone say of the ledger: committed, a 1xx sent, and left HTTP |
| ResponseWriter.RecorderIsExact | recorder.go:51-63 | committed implies written on every run; without a 1xx the converse, the status and switchedProtocol are exact |
| ResponseWriter.InfoIsTakenForCommit | recorder.go:36-42 | from the calls alone: Wrote is wrong exactly when a 1xx is written and nothing commits, Status exactly when a 1xx is written before the first call that commits, switchedProtocol exactly when that call is then a 101 or a hijack |
| ResponseWriter.EarlyHintsLookWritten | recorder.go:36-42 | a 103 alone, a 103 and a 200, a 103 and a 101: an input for each of the three |
| GzipModel.LawfulCodecExists | gzip.go:304-317 | the laws assumed of the compressor can be met together |
| GzipWriter.GzipWriter.WriteHeader | gzip.go:251-273 | decides at once or holds the status and header back, as the state machine |
| GzipWriter.GzipWriter.Write | gzip.go:283-302 | buffers, commits compressed, or passes on, as the state machine; the writer stays valid |
| GzipWriter.GzipWriter.StartCompressing | gzip.go:304-317 | a pooled or new compressor is pointed at this response and takes the held bytes |
| GzipWriter.GzipWriter.SendAsWritten | gzip.go:319-328 | the held status and bytes go out as written |
| GzipWriter.GzipWriter.SendHeldHeader | gzip.go:330-342 | the held header is sent and the declared trailers put back after it |
| GzipWriter.GzipWriter.FlushError | gzip.go:387-405 | commits a held body as written, flushes a compressed stream, then flushes below |
| GzipWriter.GzipWriter.Hijack | gzip.go:407-417 | on success drops the held body and returns the compressor to the pool, cut off |
| GzipWriter.GzipWriter.Settle | gzip.go:423-435 | the return commits a held body or seals the stream, and the compressor is back at rest in the pool |
| GzipWriter.GzipWriter.Drop | gzip.go:437-448 | a panic drops the held body and its length, seals nothing, and returns the compressor |
| GzipWriter.GzipWriter.Release | gzip.go:450-457 | the compressor enters the pool writing nowhere |
| GzipWriter.TakeTurn | gzip.go:304-317 | with two responses over one pool, a call on one leaves the other's state and response alone |
| GzipWriter.ServeTogether | gzip.go:437-457 | two handlers' calls in any order, one ending first: each response is what it would be with the pool to itself |
| GzipRuns.RunKeeps | gzip.go:254-435 | the invariant of the four unhijacked states over every run without a successful hijack, linking the writer's fields to the handler's actions |
| GzipRuns.ResponseIsReference | gzip.go:121-129 | the client sees the response of a reference that knows the whole run: one final status, the header held with it, compression exactly when eligible with minBytes written before any flush, and a body decoding to all that was written |
| GzipRuns.ChunkingDoesNotShow | gzip.go:121-129 | chunking never changes the response |
| GzipRuns.BlockSaysCoding | gzip.go:105-112 | the header names the coding used, and every candidate varies on it |
| GzipRuns.CommitKeepsTrailers | gzip.go:330-369 | a commit keeps declared trailers set before it and all TrailerPrefix keys |
| GzipRuns.FinishKeepsTrailers | gzip.go:423-435 | so does the commit at the handler's return |
| GzipRuns.TrailersReachTheEnd | gzip.go:330-369 | at the end of every run without a hijack the live header holds the last value set for every declared trailer, and exactly the TrailerPrefix keys last set |
| GzipRuns.FlushDelivers | gzip.go:383-405 | after a flush, compressed or not, every byte written can be read from what is below, and the flush below came after it |
| GzipRuns.PanicMeaning | gzip.go:437-448 | a panic leaves a held-back response's wire clean, a compressed one unsealed, an uncompressed one as it was |
| GzipRuns.HijackedStaysOut | gzip.go:407-409 | after a hijack the writer never touches the response, however the handler ends |
| GzipRuns.HijackDropsHeld | gzip.go:407-417 | hijacking a held-back response sends no status and no byte of it |
| GzipRuns.GzRunRecords | gzip.go:254-457 | on every run, hijacks included, the response is what some calls on the recorder make of it, so every theorem over the recorder's calls holds under Gzip |
| Recoverer.WriteRecoverResponse | middleware.go:203-213 | the responder runs in isolation, with the default 500 when it panics before writing |
| Recoverer.RecoverPanic | middleware.go:161-185 | the effects of the deferred recovery in order, each with the response as it stood |
| Recoverer.HookComesFirst | middleware.go:172-198 | the panic is logged and then the hook run before anything of the answer goes out; a responder's failure comes after what it wrote and before the default |
| Recoverer.PanicIsAnswered | middleware.go:105-113 | a written response is left as it is; any other panic is answered once |
| Recoverer.AbortPassesThrough | middleware.go:97-99 | http.ErrAbortHandler passes through untouched, with nothing logged, no hook and nothing written; no other panic escapes |
| Recoverer.ServeGzip | gzip.go:137-155 | the Gzip middleware from the request's method and Accept-Encoding, around a handler that returns or panics |
| Recoverer.CompressedExactlyWhen | gzip.go:121-145 | over whole runs, compressed exactly when the request is no HEAD and offers gzip, the response is an eligible candidate and minBytes are written before any flush |
| Recoverer.PanicUnderGzip | gzip.go:127-156 | Recoverer around Gzip: exactly one 500 and no held byte when held back with no 1xx sent, nothing more written otherwise, and exactly when a Content-Length stays |
| Recoverer.LengthOutlivesPanic | gzip.go:437-448 | a Content-Length set before a decision is on the 500 |
| Recoverer.EarlyHintsLoseTheAnswer | recorder.go:36-42 | after a 103 alone a panic gets no final status |
| SilentConns.SilentSet.Track | server.go:312-328 | the locked section of track, never writing the nil map |
| SilentConns.SilentSet.Sweep | server.go:330-339 | the locked section of closeAll |
| SilentConns.EveryInterleaving | server.go:303-339 | before the sweep the set is what was last reported New; closed or owed a close is exactly what was New at the sweep or reported New after |
| SilentConns.QuiescentIsExact | server.go:303-339 | once all owed closes ran, exactly those are closed |
| RunProtocol.EveryScheduleKeeps | server.go:235-301 | the invariant of every schedule: the serve result is in exactly one place, and the log is a prefix of one path |
| RunProtocol.RunEndsOneWay | server.go:235-301 | the graceful sequence in order under one deadline, or the serve-exit hook, never both; the result sent and received once; a serve error first |
| RunProtocol.OnlyShutdownDeadlinesMarked | server.go:341-354 | a result is marked as grace expiry exactly when a clean Serve met a shutdown deadline |
| RunProtocol.NeverStuck | server.go:253-301 | until Run is done, its own goroutines can take a step exactly when it is not waiting for Serve to return; the final receive waits for the send alone |
| RunProtocol.RunTerminates | server.go:235-301 | no schedule takes more than seven steps besides cancellation, and one with no other step left is done |
| RateLimit.TokenBucket.AllowLocked | ratelimit.go:175-193 | refill, cap and consumption, the clock going backwards included |
| RateLimit.TokenBucket.RetryAfterSecondsLocked | ratelimit.go:195-214 | the hint of the current deficit |
| RateLimit.TokenBucket.Allow | ratelimit.go:148-160 | decision and hint from one state, zero on an admit |
| RateLimit.TokensBalance | ratelimit.go:175-193 | held plus accrued is admitted plus left plus discarded by the cap, on every run |
| RateLimit.RateBound | ratelimit.go:66-83 | no stretch admits more than the burst plus the rate times the clock's forward movement |
| RateLimit.LaterCall | ratelimit.go:195-203 | after a deny a later call is admitted exactly when the deficit has accrued |
| RateLimit.HintIsExact | ratelimit.go:195-214 | waiting the hint is enough, a second less is not, and it never exceeds one interval in whole seconds |
| HostAllowlist.ValidPort | hostallowlist.go:112-126 | one to five digits, at most 65535 |
| HostAllowlist.ValidHostname | hostallowlist.go:128-151 | every label good and one not all digits |
| HostAllowlist.CanonicalIsIdempotent | hostallowlist.go:23-27 | canonicalizing twice is canonicalizing once |
| HostAllowlist.CanonicalKinds | hostallowlist.go:66-88 | the result is nothing, a printed address or a good name |
| HostAllowlist.NamePreimage | hostallowlist.go:40-60 | the values of a name are exactly its case variants with at most one dot and one port |
| HostAllowlist.AddressPreimage | hostallowlist.go:66-110 | the values of an address are exactly its literals, bracketed with ':' or plain with a dot and a port |
| HostAllowlist.ParseHostList | hostallowlist.go:247-274 | the keys, the invalid entries in order, and active exactly when an entry is non-blank |
| HostAllowlist.AllowsMeaning | hostallowlist.go:293-312 | a list admits a Host exactly when an entry has its canonical form or the exemption holds; all-invalid lists refuse |
| HostAllowlist.ListAdmitsSpellings | hostallowlist.go:293-312 | any parsed list admits exactly the spellings of its names and addresses, and what the exemption lets in |
| ReqLog.BoundLoggedPath | reqlog.go:385-394 | the loop cuts at the last rune start at or below the cap |
| ReqLog.BoundMeaning | reqlog.go:378-394 | the identity within the cap, else a bounded prefix and the marker; valid UTF-8 stays valid and gives up at most three bytes |
| ReqLog.TemplatePath | reqlog.go:285-308 | a path under a declared prefix is recorded as its template, or as the longest prefix and the marker |
| ReqLog.LongestIsUnique | reqlog.go:285-308 | the longest declared prefix of a path is one |

## Left out

- FieldList.Scan: returns the whole list, where the source yields elements lazily; a caller that stops early has read a prefix of it.
- GzipWriter.GzipWriter.Write: writes below never fail, so the returned counts and errors are not modelled; nor are calls after the handler returned.
- ResponseWriter.StatusRecorder.ReadFrom: a copy that stops early is a shorter source; whether the writer below has its own ReadFrom makes no difference to the ledger.
- ResponseWriter.StatusRecorder.WriteHeader: net/http's panic on a status outside 100 to 999, and its dropping of bodies under 204, 304 and HEAD, happen below the ledger.
- ClientIp.ResolveClient: the peer comes already split from its port and parsed.
- RateLimit.TokenBucket.AllowLocked: real numbers, without float rounding or the overflow of int; a flag stands for the zero time, so a reading equal to it is not re-latched; the mutex is the atomicity of the methods.
- Csp.InlineElementHashes: the scanner's documented rule, not the WHATWG tokenizer; SHA-256 and base64 are a function of the span.
- RunProtocol.RunEndsOneWay: contexts are their deadlines; hooks and Shutdown return, with any result.
- SilentConns.EveryInterleaving: errors of Close are dropped, as the source drops them.
- HostAllowlist.AllowsMeaning: the peer's address is a flag, split and parsed outside.
- WithGzipTypes' validation of entries, WithGzipSkip and the other option functions: single branches.
- AwaitDone and CausedByCancellation: single conditions.
- Logging of panics and stacks, slog, JSON encoding, request ids: events without content, or parameters.
- RateLimiter's and HostPolicy's HTTP layer, bindclass.go, json.go, loopbackonly.go, readiness.go, static.go, statictoken.go, requestpath.go, security headers and the rest of reqlog.go: wrappers, file serving or single facts.
- ParseCIDRs' loop over entries, ProxiedRequest and ClientIP's printing: they only collect or print what is modelled.
