# RedactProxy, verified

RedactProxy sits between a coding assistant and a model. On the way out it replaces real values
(domains, addresses, keys, blocked words) by stable tokens; on the way back it restores them, also
in responses that arrive in arbitrary chunks. This project models the code that makes that safe and
proves what it promises. `dafny verify dfyconfig.toml` checks everything.

- **Streaming restore.** `SpanTrie` (the set of wire spans, a tree changed in place), `Scanning`,
  `Restore`, `RestoreSplit`, `TokenShapes`, `ExactShapes`, `SingleToken`, `TokenText` and
  `AllShapes` (Detokenize and its table of token shapes as data), `MintedTokens` (what can be minted
  is found), `StructuredTokens` and `Ipv6Tokens` (what the passes for addresses and phone numbers
  restore), `Stream` (how much may be sent now), `StreamDetokenize` (the law: chunked output is the
  whole text restored), `StreamLimits` (what the law says of one token, exactly), `Utf8`,
  `BlockServer` (the content block handlers), `SseFrames`.
- **Token store.** `Minting` (one write transaction), `StoreStates` (every operation as a function
  of the whole state), `TokenStore` (the class), `StoreGrants` (when a call succeeds, and with
  what), `StoreLaws`, `StoreCounters`, `StoreRuns`, `StoreNetworks` (every run, with crashes),
  `StoreProtocol` (every interleaving of callers), `StoreAlone` (the steps make up the operations).
- **Substitution.** `Detections`, `Filters`, `Splice`, `Substitution`, `Restorable`, `Engine`,
  `Replaced` (what is replaced and what is not), `BlockList`, `BlockLimits`, `WriteBack`, `Fences`
  and `RoundTrip` (Detokenize after Tokenize), `Unchanged` (when Detokenize changes nothing),
  `Repeating` (Tokenize again), `KeepsUtf8`, `TokenizeUtf8`. Detectors, allow patterns and block
  patterns are arbitrary functions of the text.
- **Cache and reload.** `TokenizeCache`, `CacheLaws`, `ReloadProtocol`.
- **JSON rewriting.** `JsonStrings`, `JsonTree` (documents as trees that keep the exact text of
  every node, a printer and a parser), `JsonRedact`, `JsonCompact` (when the bytes stay),
  `JsonSplice`, `JsonChanges`, `JsonApply`, `JsonPerPath` and `JsonMeans` (what the rewritten text
  means).
- **Exact algorithms.** `DomainSplit`, `DomainTokens`, `Invisible`, `Verhoeff`.

Text is a sequence of bytes. Random draws, failures of the database to commit and the iteration
order of buckets are inputs that the theorems quantify over. The public suffix list is any rule
whose answer is a trailing part and depends only on the labels up to one before it; the table of
top-level domains, case folding, the set of invisible characters, the token map and net/netip are
parameters. A method is tied to a function of its inputs or of the old state, and the theorems are
about that function.

## What is false of the code, and exactly when it holds

- The cut of a text buffer is the smaller of two cuts that are each safe. The smaller one can fall
  inside a token that is already complete, or between a domain token and the suffix that is restored
  with it. A text that shows one token is sent as Detokenize restores it if and only if some piece
  of the stream holds the token and that suffix (`StreamLimits.TokenIsRestoredIffKept`, for
  Detokenize itself `StreamLimits.DomainIsRestoredIffKept` and
  `StreamLimits.CredentialIsRestoredIffKept`). In one delta that is decided by what anyone can see
  (`StreamLimits.TokenInOneDeltaIff`): either a span that may still go on begins at the token or
  before it and holds it back; or, with a boundary byte behind token and suffix, no such span begins
  inside them; or, without one, they have no boundary byte and the last run is at most 128 bytes
  long, or the forced cut of a longer run misses them. So an Aadhaar or private key token that is
  all of a delta is not restored (`StreamLimits.LoneSpacedTokenIsDivided`), nor is a domain token in
  an unbroken run with more than 109 bytes behind it and less than 128 behind its suffix
  (`StreamLimits.DomainRunIsRestoredIff`). The streaming law asks the same of the spaced shapes:
  that no cut falls inside a match.
- The fuzz test says that Detokenize leaves a text alone that Tokenize has not changed. It changes a
  text that shows a credential token if and only if the token is known for something else
  (`Unchanged.RestoringChangesIff`; `RoundTrip.BlockTokenIsRestored` is such a store and text), and
  it changes no text in which whatever the passes find stands for itself (`Unchanged.IdleStays`).
  The test's other claim, that the same text is tokenized to the same bytes again, is proved for
  every later store in which no new span stands in the text and no value that was left alone has
  become known (`Repeating.TokenizedAgain`).
- A call of MintAndRegisterSpan that names the same unknown value twice mints two tokens for it, and
  the two maps are no longer inverse. `StoreRuns.MintKeepsGoodIff` says that this is the only way,
  as long as random candidates of different values do not collide and look like no network token.
- A block word can be left outside every span exactly if it can overlap itself
  (`BlockLimits.CoveredIffBorderless`).
- A domain does not come back if its subdomain was dropped because it leaks the organization name,
  or if no subdomain is kept and a letter or digit stands in front of the token; otherwise it does
  (`DomainTokens.DomainComesBackIff`, `DomainTokens.DomainIsRestoredIff`).
- An international phone number with the country code 555 is not restored, because its token is
  looked for from the first "555-" on (`StructuredTokens.PhonePassRestores`).
- A frame whose event or data line ends in CR is not read back as written
  (`SseFrames.RoundTripIffClean`).

## Where the comments and the code differ

- spans.go describes RegisterSpan as taking the trie lock and then its transaction; the code
  releases the lock before the transaction and takes it again for the insertion. The model follows
  the code.
- walk.go says that redactValue reproduces every other byte of its input; the code drops white space
  and encodes every member name anew. The bytes stay exactly if there is no white space and the
  names are spelled as the encoder spells them (`JsonCompact.IdleRewriteIsSameIff`); the other
  theorems are about decoded values.

## Model

| member | source | states |
|---|---|---|
| `SpanTries.SpanTrie.Insert` | internal/tokenstore/spans.go:53-77 | inserts into the tree in place: the set of spans grows by exactly the span, the empty span is ignored, the result says whether it was new, and every leaf still ends a span |
| `SpanTries.SpanTrie.Contains` | internal/tokenstore/spans.go:80-95 | true if and only if the span was inserted |
| `SpanTries.SpanTrie.NodesArePrefixes` | internal/tokenstore/spans.go:27-77 | the tree has a node for exactly the prefixes of the registered spans |
| `SpanTries.SpanTrie.SafeFlushPoint` | internal/tokenstore/spans.go:124-156 | the least position from which the buffer is a non-empty proper prefix of some span, else its length, although only the last maxLen bytes are walked |
| `SpanTries.FlushPointIsUnique` | internal/tokenstore/spans.go:124-156 | that description fixes the result |
| `SpanTries.FlushPointSparesArriving` | internal/tokenstore/spans.go:98-156 | an occurrence whose last byte has not arrived never starts before the flush point, whatever arrives next |
| `SpanTries.HeldBySpan` | internal/tokenstore/spans.go:124-156 | what is held back is shorter than the longest span |
| `SpanTries.SpanTrie.FindFullSpans` | internal/tokenstore/spans.go:183-205 | exactly all occurrences of registered spans, in order of start and end |
| `Scanning.WriteAll` | internal/redact/engine.go:721-748 | the loop with a running output and a copied-up-to position writes what the recursive description of a rewrite says |
| `Scanning.WriteInPrefix` | internal/redact/engine.go:944-1009 | rewriting a + b, with all groups of a inside a, is rewriting a and then b, echoed suffixes included |
| `Restore.DetokenizeAll` | internal/redact/engine.go:785-808 | the passes run one after the other, each over the output of the one before |
| `Restore.MatchOverCut` | internal/redact/engine.go:684-695 | a shape that looks at the byte on its left is found behind a boundary byte exactly as at the start of a text |
| `Restore.FirstAlternativeWins` | internal/redact/engine.go:700-748 | of the alternatives that match at a place the first in the list wins |
| `Restore.MatchIff` | internal/redact/engine.go:684-695 | an alternative matches at a place if and only if its items stand there and the bytes on both sides are as it asks |
| `Restore.BoundaryChars` | internal/proxyserver/sse.go:62-75 | the boundary bytes are white space, quotes, comma, semicolon, brackets and the bar, and no others |
| `RestoreSplit.RunPassSplits` | internal/redact/engine.go:721-748 | one restoring pass distributes over a cut right after a boundary byte |
| `RestoreSplit.UncrossedPassSplits` | internal/redact/engine.go:721-748 | a pass also distributes over such a cut when its shapes contain boundary bytes, as long as no match goes over the cut |
| `TokenShapes.StructuredAreSeparable` | internal/redact/engine.go:785-1009 | the passes for domains, addresses, networks and phone numbers can be cut after any boundary byte, provided the suffixes echoed for stored domains have none |
| `TokenShapes.SeatedDoNotClash` | internal/tokenstore/generator.go:205-289 | no shape of the table that starts anywhere can match where one that needs a left edge does, so a cut does not change which of them wins |
| `MintedTokens.MintedIsFound` | internal/tokenstore/generator.go:205-289 | every token that one of the credential recipes can make fits its shape and so the table that Detokenize searches |
| `MintedTokens.SpacedAreFound` | internal/tokenstore/generator.go:205-289 | the same for private keys and Aadhaar numbers |
| `MintedTokens.DomainsAreFound` | internal/tokenstore/generator.go:205-289 | every domain token that can be drawn fits the shape of the domain pass |
| `MintedTokens.AddressesAreFound` | internal/tokenstore/generator.go:205-289 | every e-mail token that can be drawn fits the shape of its pass |
| `StructuredTokens.EmailComesBack` | internal/redact/engine.go:822-834 | Detokenize of a text that shows the token of a stored address puts the part in front of the "@" in its place and changes nothing else |
| `StructuredTokens.AddressComesBack` | internal/redact/engine.go:785-834 | so an address whose domain the first pass restores is back once, not with its domain twice |
| `StructuredTokens.Ipv4PassRestores` | internal/redact/engine.go:836-851 | the network is looked up and replaced, the last octet carried through; an unknown network stays |
| `StructuredTokens.Ipv4ComesBack` | internal/redact/engine.go:785-851 | the same for all of Detokenize, when its other passes find nothing |
| `StructuredTokens.PhonePassRestores` | internal/redact/engine.go:883-918 | country code and token give the stored number, unless the token is unknown or begins with 555-01, or the country code is 555 |
| `StructuredTokens.PhoneComesBack` | internal/redact/engine.go:785-918 | the same for all of Detokenize, when its other passes find nothing |
| `Ipv6Tokens.HexToIPv6Groups` | internal/redact/engine.go:920-928 | the loop joins the digits in groups of four |
| `Ipv6Tokens.FormatIPv6Groups` | internal/redact/detector.go:715-725 | the loop joins the bytes in groups of two |
| `Ipv6Tokens.RestoredMeans` | internal/redact/engine.go:852-882 | however the address of a token is written, it is restored to the address with the stored network and the same host half |
| `Ipv6Tokens.AddressComesBack6` | internal/redact/detector.go:758-822 | an address that the detector replaces comes back as the same 16 bytes, in canonical form |
| `Ipv6Tokens.Ipv6ComesBack` | internal/redact/engine.go:785-882 | the same for all of Detokenize, in a text that shows nothing else |
| `ExactShapes.RigidIsLocal` | internal/tokenstore/generator.go:205-289 | a shape of fixed size, spaces and line ends included, is found in the front part exactly as in the whole when no match of it goes over the cut |
| `SingleToken.PassOfOne` | internal/redact/engine.go:684-748 | a pass over a text that shows its shape at most once: that place is replaced if its left side allows it, and nothing else changes |
| `RestoreSplit.DetokenizeSplits` | internal/redact/engine.go:785-808 | the whole restore distributes over such a cut |
| `Stream.TextFlushBoundary` | internal/proxyserver/sse.go:105-130 | the loop finds the last boundary byte, or forces a cut 128 bytes from the end and walks back to a rune start |
| `Stream.CutIsBoundaryIff` | internal/proxyserver/sse.go:230-276 | with short runs, the minimum of both cuts is the last boundary if and only if no span that may still go on begins before it |
| `Stream.CutIsClosed` | internal/proxyserver/sse.go:230-276 | every cut is right after a boundary byte, when runs are short and each growing span with a boundary byte stands behind one |
| `Stream.FreeIsUnopened` | internal/proxyserver/sse.go:230-276 | spans without boundary bytes meet the condition on spans in every text |
| `Stream.StreamedEqualsWhole` | internal/proxyserver/sse.go:230-276 | for any restore that distributes: whatever the deltas are, what is sent is the whole text restored, when runs are short and the growing spans with a boundary byte stand behind one |
| `Stream.NothingIsLost` | internal/proxyserver/sse.go:230-333 | with nothing to restore, everything received is sent, for all spans and runs |
| `Stream.ArrivingIsHeld` | internal/tokenstore/spans.go:98-156 | over a whole stream, for any deltas: while a registered span is still arriving no byte of it is sent |
| `StreamDetokenize.StreamedEqualsDetokenized` | internal/proxyserver/sse.go:73-333 | the streaming law for the full Detokenize, the spaced shapes included: every token map and every way of cutting, provided the suffixes of stored domains have no boundary byte, runs have at most 128 bytes, growing spans with a boundary byte stand behind one, and no cut falls inside a match of a spaced shape |
| `StreamDetokenize.FullSplits` | internal/redact/engine.go:785-808 | the whole restore distributes over a cut after a boundary byte that no match of a spaced shape goes over |
| `StreamDetokenize.StreamedWithoutSpaced` | internal/proxyserver/sse.go:73-333 | the law without a condition on the cuts: neither spaced shape occurs in the text once its domains, addresses and phone numbers are restored, and the text received contains no registered span up to its first boundary byte |
| `StreamDetokenize.StreamedDetokenize` | internal/proxyserver/sse.go:73-333 | the law for passes whose shapes have no boundary byte, such as the five before the credentials: no condition on the cuts at all |
| `TokenTexts.StretchIsRestored` | internal/redact/engine.go:684-1009 | a stretch of a text that shows one token is restored by all passes if it holds the token, with the echo taken away if it holds that too, and stays as it is otherwise |
| `AllShapes.FullIsSteady` | internal/tokenstore/generator.go:205-289 | every shape of Detokenize begins in a stretch of a text only where it begins in the text, and those of domains, addresses and credentials have fixed sizes |
| `StreamLimits.TokenIsRestoredIffKept` | internal/proxyserver/sse.go:230-333 | for any passes, every text that shows one token of a shape of fixed size, every way of cutting it and all spans: what is sent is Detokenize of the whole text if and only if some piece holds the token together with the suffix that is restored with it; if a piece holds the token only, the suffix stays behind the value; otherwise the text is sent as it is |
| `StreamLimits.DomainIsRestoredIffKept` | internal/redact/engine.go:785-1009 | for a domain token in Detokenize itself: if and only if some piece holds the token and the echoed suffix behind it |
| `StreamLimits.CredentialIsRestoredIffKept` | internal/redact/engine.go:684-808 | for a credential token in Detokenize itself: if and only if some piece holds the token |
| `StreamLimits.CutMissesTokenIff` | internal/proxyserver/sse.go:105-276 | the cut of a delta misses the token if and only if the bytes behind it, the growing spans and the length of the last run say so |
| `StreamLimits.TokenInOneDeltaIff` | internal/proxyserver/sse.go:230-333 | a text that arrives in one delta is sent as Detokenize restores it if and only if that condition holds of the token with its suffix |
| `StreamLimits.LoneSpacedTokenIsDivided` | internal/tokenstore/generator.go:243-248 | an Aadhaar or private key token that is all of a delta is sent as it is, although Detokenize of it is the real value |
| `StreamLimits.LongRunIsRestoredIff` | internal/proxyserver/sse.go:75-130 | an unbroken run that begins with a token is sent as Detokenize restores it if and only if it has at most 128 bytes, or at least 128 behind the token and its suffix |
| `StreamLimits.DomainRunIsRestoredIff` | internal/proxyserver/sse.go:75-130 | for a domain token: at most 109 bytes behind it, or at least 128 behind its suffix |
| `StreamLimits.CutInsideWord` | internal/redact/engine.go:684-695 | the left-context rule is needed: Detokenize does not see a domain token behind a letter or digit, and does when the text is cut there |
| `Utf8.FlushBoundaryIsRuneStart` | internal/proxyserver/sse.go:105-130 | on well-formed text the walk-back ends at a rune start, never passes the natural boundary and holds at most 131 bytes |
| `Utf8.CutKeepsUtf8` | internal/proxyserver/sse.go:230-276 | both sides of a cut of well-formed text are well-formed, and at most max(131, maxLen - 1) bytes are held |
| `Utf8.PiecesAreWellFormed` | internal/proxyserver/sse.go:230-333 | over a whole stream whose text is well-formed no emitted piece ends inside a rune, even where deltas do |
| `Utf8.PiecesCover` | internal/proxyserver/sse.go:230-333 | the pieces together are the text received, and restored one by one they are what is sent |
| `BlockServer.Server.HandleBlockStart` | internal/proxyserver/sse.go:202-213 | the block map and the output after a start event |
| `BlockServer.Server.HandleBlockDelta` | internal/proxyserver/sse.go:215-318 | the buffers, the overflow flag and the output after a delta, for text, tool input and all other combinations |
| `BlockServer.Server.HandleBlockStop` | internal/proxyserver/sse.go:326-349 | the final flush and then the stop frame, and the index forgotten |
| `BlockServer.StartBeginsAnew` | internal/proxyserver/sse.go:202-213 | what is sent for an index after a start does not depend on what was there |
| `BlockServer.RunEmitsInside` | internal/proxyserver/sse.go:202-349 | over every run: text and partial JSON of an index are sent only after its forwarded start and before its forwarded stop |
| `BlockServer.SilentAfterStop` | internal/proxyserver/sse.go:326-349 | so between the forwarded stop of an index and any later text of it stands a forwarded start |
| `BlockServer.RunForwards` | internal/proxyserver/sse.go:202-349 | over every run: forwarded, once and in their order, are exactly the starts, the stops, the events of unknown and unbuffered blocks, deltas of other types, and JSON deltas of a block that has overflowed |
| `BlockServer.IndicesAreIndependent` | internal/proxyserver/sse.go:202-349 | for any interleaving, the output for one index is the output of its own events alone |
| `BlockServer.TextBlockSends` | internal/proxyserver/sse.go:230-333 | the handlers send exactly the text that the streaming law is about |
| `BlockServer.ToolBlockSends` | internal/proxyserver/sse.go:278-349 | a tool input is sent restored as a whole if it fits the limit, else byte for byte as received |
| `BlockServer.HandledKeepsBound` | internal/proxyserver/sse.go:278-318 | between events no JSON buffer exceeds the limit |
| `SseFrames.ReadSseFrame` | internal/proxyserver/sse.go:391-424 | the line loop reads what the recursive description of a frame says, comments, unknown fields and end of input included |
| `SseFrames.ReadsToBlankLine` | internal/proxyserver/sse.go:391-424 | fields up to a blank line are one frame: the data lines joined by line feeds, the last event name, and what follows is left |
| `SseFrames.ReadsToEnd` | internal/proxyserver/sse.go:391-424 | without a blank line the end of the input ends the frame, a last line without line feed counts, and without any field there is no frame |
| `SseFrames.ValueBehindColon` | internal/proxyserver/sse.go:391-424 | one space behind the colon is no part of the value, and none is needed |
| `SseFrames.BareIs` | internal/proxyserver/sse.go:391-424 | carriage returns and line feeds at the end of a line are no part of it |
| `SseFrames.RoundTripIffClean` | internal/proxyserver/sse.go:391-455 | a written frame is read back, with the rest of the stream untouched, if and only if the event has no line feed and no event or data line ends in CR |
| `SseFrames.StreamRoundTrip` | internal/proxyserver/sse.go:391-455 | any list of such frames is read back as written |
| `SseFrames.RewriteIsStable` | internal/proxyserver/sse.go:391-455 | for every input: reading, writing and reading again changes nothing |
| `Minting.NextRandom` | internal/tokenstore/generator.go:328-338 | ten draws: the first free candidate, or a refusal exactly when all ten are taken |
| `Minting.Tx.IncrementIp` | internal/tokenstore/generator.go:381-396 | the persisted 32-bit counter goes up by one, wrapping, and nothing else changes |
| `Minting.Tx.NextToken` | internal/tokenstore/generator.go:309-377 | the token, or the refusal, of each entity type, and the counters it leaves |
| `Minting.NewTokenIsFree` | internal/tokenstore/store.go:309-352 | a minted token is the token of nothing else |
| `Minting.IpTokensApart` | internal/tokenstore/generator.go:344-359 | different numbers give different IPv4 tokens |
| `Minting.Ip6TokensApart` | internal/tokenstore/generator.go:363-377 | different counter values give different IPv6 tokens |
| `Minting.TokensCarryNumbers` | internal/tokenstore/generator.go:344-377 | the tokens carry their number: in decimal, and in two groups of four hexadecimal digits with the high half first |
| `TokenStores.Store.Open` | internal/tokenstore/store.go:210-281 | both maps and the trie hold exactly what the buckets hold |
| `TokenStores.Store.RegisterSpan` | internal/tokenstore/spans.go:222-236 | the whole new state, and failure leaves it unchanged |
| `TokenStores.Store.Update` | internal/tokenstore/spans.go:310-347 | the write transaction: all of its effects or none |
| `TokenStores.Store.MintAndRegisterSpan` | internal/tokenstore/spans.go:291-363 | the whole new state and the tokens, for known values, new values and every failure |
| `TokenStores.Store.GetOrCreateToken` | internal/tokenstore/store.go:309-352 | the whole new state and the token |
| `TokenStores.Store.Delete` | internal/tokenstore/store.go:402-427 | the whole new state; counters and spans stay |
| `StoreStates.MintWrites` | internal/tokenstore/spans.go:310-355 | what the transaction writes to the buckets is what is recorded in memory afterwards |
| `StoreLaws.MintResolvesIff` | internal/tokenstore/spans.go:291-363 | a failing call changes nothing; after a successful one memory mirrors disk, and the maps are inverse if and only if equal values and only they got equal tokens |
| `StoreCounters.NewTokensDiffer` | internal/tokenstore/generator.go:309-396 | two new values of one call get different tokens, across all pairs of types |
| `StoreCounters.NumberedToken` | internal/tokenstore/generator.go:344-396 | the i-th new network of a call gets the number that the counter had plus its rank |
| `StoreCounters.TokenKind` | internal/tokenstore/generator.go:309-377 | the beginning of a new token tells its kind |
| `StoreGrants.MintReturnsIff` | internal/tokenstore/spans.go:291-363 | the call returns exactly these tokens if and only if each is what its request is given (the known token, the first free of ten candidates, the next number while fewer than 256 are used) and the span can be kept; it fails in every other case |
| `StoreGrants.CreateReturnsIff` | internal/tokenstore/store.go:309-352 | the same for GetOrCreateToken |
| `StoreGrants.OnlyFaultsFail` | internal/tokenstore/spans.go:222-236 | RegisterSpan fails only if the database does or cannot store the span, Delete only if the database does |
| `StoreGrants.TypesAreRecorded` | internal/tokenstore/spans.go:310-355 | the entity type of every new value is recorded |
| `StoreRuns.MintKeepsGoodIff` | internal/tokenstore/spans.go:291-363 | inverse maps, mirrored buckets and tokens that resolve are kept if and only if no unknown value is asked for twice in the call |
| `StoreRuns.CreateKeepsGood` | internal/tokenstore/store.go:309-352 | kept by GetOrCreateToken, whose token resolves to the value |
| `StoreRuns.RemoveKeepsGood` | internal/tokenstore/store.go:402-427 | kept by Delete, after which neither map knows the pair |
| `StoreRuns.RunKeepsGood` | internal/tokenstore/store.go:262-427 | kept over every run of operations, failures, crashes and reopenings |
| `StoreRuns.NewStoreIsGood` | internal/tokenstore/store.go:210-281 | a database that has just been created is opened as a good store |
| `StoreRuns.EveryRunIsGood` | internal/tokenstore/store.go:210-427 | so every run from the creation of the database on stays good |
| `StoreRuns.LoadedIsSame` | internal/tokenstore/store.go:262-281 | reopening after a crash gives back the same maps, counters and spans |
| `StoreRuns.MintedSpanStays` | internal/tokenstore/spans.go:291-363 | once a call has returned, its span is on disk for good and in memory after every reopening |
| `StoreRuns.RunIssues` | internal/tokenstore/generator.go:328-396 | over any run the IPv4 tokens issued are consecutive numbers, at most 256 |
| `StoreRuns.NeverReissued` | internal/tokenstore/generator.go:344-396 | no IPv4 token is issued twice, whatever is deleted or crashes |
| `StoreNetworks.RefusedWhenFull` | internal/tokenstore/generator.go:344-359 | a call that needs more numbers than are left is refused and changes nothing |
| `StoreNetworks.NetworksRunOutAt256` | internal/tokenstore/generator.go:328-396 | after any run a new network gets the next number if fewer than 256 were issued, and is refused with no change otherwise |
| `StoreProtocol.ExecKeepsInv` | internal/tokenstore/spans.go:222-363 | in every interleaving: locks are exclusive and memory is the disk except between a commit and its recording |
| `StoreProtocol.ReturnedSpanIsInTrie` | internal/tokenstore/spans.go:222-363 | in every interleaving a call that returned without error has its span in the trie and its tokens in the map, whoever minted them |
| `StoreProtocol.SameValueSameToken` | internal/tokenstore/spans.go:291-363 | concurrent calls for one value return the same token |
| `StoreProtocol.CrashKeepsInv` | internal/tokenstore/store.go:262-281 | a crash at any step reopens to a good store |
| `StoreProtocol.EveryTokenIsCovered` | internal/tokenstore/spans.go:310-355 | after a crash at any step every token has the span minted with it in the reopened trie |
| `StoreProtocol.NewSysStartsRight` | internal/tokenstore/store.go:210-281 | both invariants hold when a new database has been opened |
| `StoreProtocol.EveryTokenEverIsCovered` | internal/tokenstore/spans.go:222-363 | from the creation of the database on: in every interleaving and after a crash at any step, every token has its span and the reopened store is good |
| `StoreProtocol.SomeoneCanRun` | internal/tokenstore/spans.go:222-363 | while a call has not returned, some call can move: no deadlock on mu, the transaction and the trie lock |
| `StoreProtocol.RunsAreBounded` | internal/tokenstore/spans.go:222-363 | without new calls no schedule is longer than the sum of the calls' remaining steps |
| `StoreProtocol.AllCanReturn` | internal/tokenstore/spans.go:222-363 | from every reachable state some schedule lets every call return |
| `StoreAlone.AloneIsMint` | internal/tokenstore/spans.go:291-363 | the steps of a call that runs while no other holds a lock have the effect and the result of the operation as one piece |
| `StoreAlone.FailsOnlyIf` | internal/tokenstore/spans.go:222-363 | in every interleaving a call fails only if the database does, or cannot store the span, or no tokens could be given at that moment |
| `Detections.ResolveOverlaps` | internal/redact/engine.go:556-573 | the loop keeps what the greedy choice along the stable order keeps |
| `Detections.KeptResolves` | internal/redact/engine.go:556-573 | what is kept is sorted and disjoint, and everything dropped starts inside something kept that comes before it in the order |
| `Detections.ResolvesIsUnique` | internal/redact/engine.go:556-573 | only one choice has these properties |
| `Detections.KeptIsLongestFirst` | internal/redact/engine.go:556-573 | exactly one choice has disjoint ranges and leaves out only what starts inside something chosen that begins earlier, or at the same place and is longer, or is the same range found earlier; it is the one made |
| `Detections.DroppedForPreferred` | internal/redact/engine.go:556-573 | so of the matches that begin at one place a longer one is never dropped for a shorter one |
| `Splicing.SpliceAll` | internal/redact/engine.go:201-320 | the loop writes the described output |
| `Splicing.UntouchedIsCopied` | internal/redact/engine.go:201-320 | every untouched range is copied to its shifted place |
| `Splicing.EditIsShown` | internal/redact/engine.go:201-320 | every replacement is in the output at its place |
| `Splicing.OutputIsCopied` | internal/redact/engine.go:201-320 | conversely, output that meets no replacement comes from an untouched range |
| `Filters.FilterAllowed` | internal/redact/engine.go:442-466 | exactly the detections of which some value matches some allow pattern are dropped, order kept |
| `Filters.FilterAlreadyTokenized` | internal/redact/engine.go:502-521 | exactly the detections that overlap a registered span in the text are dropped, order kept |
| `Filters.OverlapIsSharedByte` | internal/redact/engine.go:502-521 | ranges that are not empty overlap if and only if they share a byte |
| `Substitution.ApplyDetections` | internal/redact/engine.go:201-320 | result, cacheability and new store state, for every failure of a mint |
| `Substitution.EditsFollow` | internal/redact/engine.go:201-320 | edits sit at the ranges of detections, in order and apart |
| `Substitution.ReplacedByRule` | internal/redact/engine.go:201-320 | whatever the text order, exactly these are replaced: ordinary detections, and doubtful ones whose value was in the store at entry or is named by an ordinary detection of the batch |
| `Substitution.KnownDuring` | internal/redact/engine.go:201-320 | what becomes known while the batch is applied was named by an ordinary detection |
| `Substitution.ReplacementsRegistered` | internal/redact/engine.go:201-320 | every replacement is a registered span before the text is returned |
| `Replaced.OnlyTheseAreReplaced` | internal/redact/engine.go:134-191 | everything that the first pass of Tokenize replaces was reported by a detector, has no allow-listed value and overlaps no registered span, and is an ordinary detection, or its value was known, or a replaced ordinary one names it |
| `Replaced.EveryOneIsDealtWith` | internal/redact/engine.go:134-191 | conversely, every such detection is replaced, or one that it starts inside and that begins earlier or reaches as far is, unless that one is doubtful and its value was not known |
| `Replaced.TokenizeFailsIff` | internal/redact/engine.go:134-191 | Tokenize fails if and only if the text is not valid UTF-8, a detector fails, or the tokens of a chosen detection cannot be had when its turn comes; in the first two cases nothing is minted |
| `Restorable.ReplacementsLeadBack` | internal/redact/engine.go:201-320 | every replacement is what its detection's format makes of the tokens that the store, whose maps are inverse, holds for its values |
| `Restorable.PlainReplacementResolves` | internal/redact/engine.go:201-320 | a replacement without format resolves to the replaced value |
| `WriteBack.GroupsAreThePlaces` | internal/redact/engine.go:684-748 | the search of a pass finds exactly the replacements, when its shapes fit at these and nowhere else and no two of them touch |
| `WriteBack.FoundIsWrittenBack` | internal/redact/engine.go:721-748 | a rule that undoes each replacement then gives back the text that was spliced |
| `Engines.DetectBlocked` | internal/redact/blocklist.go:31-43 | the matches of all block patterns that are not tokens already |
| `Engines.Tokenize` | internal/redact/engine.go:134-191 | result and store state of both passes, on one configuration |
| `Engines.BlockListSafetyPass` | internal/redact/engine.go:354-388 | result and store state of the final pass |
| `Engines.RegisteredSpansStay` | internal/redact/engine.go:165-191 | for arbitrary detectors every occurrence of a registered span is intact in the output |
| `Engines.RegisteredSpansKeepOrder` | internal/redact/engine.go:165-191 | and they keep their order without overlapping |
| `RoundTrip.TokenizedComesBack` | internal/redact/engine.go:134-320 | Detokenize after Tokenize gives the text back, for values replaced as they stand by credential tokens that the output shows once each, with any later token map that still has them |
| `Fences.FencedComesBack` | internal/redact/engine.go:785-808 | when the replacements stand between boundary bytes of the text, it comes back if each replacement comes back by itself and the stretches between them stay as they are |
| `Fences.StretchStays` | internal/redact/engine.go:785-808 | every stretch of a text in which no shape begins stays as it is |
| `Fences.CredentialComesBack` | internal/redact/engine.go:684-808 | a credential token in front of its boundary byte comes back |
| `RoundTrip.FencedTextComesBack` | internal/redact/engine.go:134-320 | so Detokenize after Tokenize gives the text back for all kinds of tokens, however their detections format them, between boundary bytes |
| `RoundTrip.UnchangedIsRestored` | internal/redact/fuzz_test.go:38-82 | so Detokenize changes a text that Tokenize leaves as it is, if the text shows one credential token that an earlier call has registered for something else |
| `RoundTrip.BlockTokenIsRestored` | internal/redact/fuzz_test.go:38-82 | for example: a new store that got the token of one blocked word, that token as the text, and any rules that find nothing in it |
| `Unchanged.RestoringChangesIff` | internal/redact/engine.go:684-808 | a text in which the credential shapes fit at one place and the earlier passes find nothing is changed by Detokenize if and only if the token is known and stands for something else |
| `Unchanged.IdleStays` | internal/redact/engine.go:721-808 | every text stays as it is if in every pass each group that is found is replaced by itself and nothing is taken away behind it |
| `Unchanged.NothingKnownStays` | internal/redact/fuzz_test.go:38-82 | while no token is known Detokenize leaves every text alone |
| `Unchanged.BlockTokenIsShown` | internal/tokenstore/generator.go:205-289 | every token of a blocked word shows itself and no other shape anywhere, under all passes |
| `Repeating.TokenizedAgain` | internal/redact/fuzz_test.go:34-69 | the same text tokenized again gives the same bytes, mints nothing and changes nothing, whatever the new random candidates and even if the database now fails, for every later store in which no new span stands in the text and no value left alone has become known |
| `Repeating.TokenizedStays` | internal/redact/engine.go:134-191 | the output tokenized again stays as it is, when what is found in it overlaps replacements, other registered spans, allowed or doubtful unknown values only |
| `Repeating.ReplacementStands` | internal/redact/engine.go:165-191 | every replacement of the first pass is an occurrence of a registered span in the final output |
| `TokenizeUtf8.TokenizeKeepsUtf8` | internal/redact/fuzz_test.go:34-62 | Tokenize keeps valid UTF-8 valid, and the tokens in the store, when detections begin and end between characters and candidates and formats are valid text |
| `KeepsUtf8.DetokenizeKeepsUtf8` | internal/redact/fuzz_test.go:34-75 | Detokenize keeps valid UTF-8 valid, when the stored values and their suffixes are valid text |
| `BlockList.EveryOccurrenceIsMatched` | internal/redact/blocklist.go:31-43 | the leftmost scan finds every occurrence of a word that cannot overlap itself |
| `BlockList.BlockedWordsAreCovered` | internal/redact/engine.go:354-388 | after Tokenize every remaining match of a literal block word is allow-listed, starts like a block token, or overlaps a registered span |
| `BlockLimits.SelfOverlapSurvives` | internal/redact/engine.go:354-388 | for every word that fits on itself with a shift there is a text in which its second occurrence is left outside every span |
| `BlockLimits.BorderedIsNot` | internal/redact/engine.go:354-388 | the store of that counterexample is a new one in which one span was registered |
| `BlockLimits.CoveredIffBorderless` | internal/redact/engine.go:354-388 | a blocked word that is not allow-listed is never left outside every span, whatever store, detectors, patterns and text, if and only if it cannot overlap itself |
| `TokenizeCaches.TokenizeCache.Get` | internal/redact/tokenize_cache.go:85-99 | hit or miss by generation, and the entry moved to the front on a hit |
| `TokenizeCaches.TokenizeCache.Put` | internal/redact/tokenize_cache.go:101-119 | refresh in place or push, and eviction above the capacity |
| `CacheLaws.StaysByRecency` | internal/redact/tokenize_cache.go:85-131 | over every run: keys distinct, at most 4096 entries, in order of last use |
| `CacheLaws.EvictsLeastRecent` | internal/redact/tokenize_cache.go:101-119 | a full cache gives up exactly the entry used longest ago |
| `CacheLaws.HitIsLastStored` | internal/redact/tokenize_cache.go:85-119 | a hit returns the value stored last for the text, under the same generation |
| `CacheLaws.StoredIsFound` | internal/redact/tokenize_cache.go:85-131 | conversely, a stored value is found until the text is stored again, the cache is cleared or 4096 other texts have been used |
| `ReloadProtocol.NoStaleValue` | internal/redact/engine.go:90-191 | in every interleaving: a value returned under a generation not before a setter's bump was computed only from what was stored by that setter or later, cached or not |
| `ReloadProtocol.ReloadTakesEffect` | internal/redact/engine.go:90-191 | once a setter has bumped, a call that starts to read returns nothing computed from an older configuration |
| `ReloadProtocol.KeptIsReused` | internal/redact/engine.go:90-191 | a value that a call has computed and kept is returned by a later call for the same text that reads the same generation, without computing anything |
| `JsonStrings.JsonEncodeString` | internal/jsonwalk/walk.go:325-336 | copies plain ASCII and marshals the rest |
| `JsonStrings.DecodesToItselfIff` | internal/jsonwalk/walk.go:325-336 | decoding the encoding gives the string back if and only if it is well-formed UTF-8; otherwise invalid bytes are U+FFFD |
| `JsonStrings.MarshalIsHarmless` | internal/jsonwalk/walk.go:325-336 | nothing that is marshalled holds a control character or one of the three characters that mean something in HTML |
| `JsonStrings.ShortEscapesAreUsed` | internal/jsonwalk/walk.go:325-336 | a byte for which the reader knows a short escape is written with it, the slash excepted |
| `JsonStrings.ScalarIsRune` | internal/jsonwalk/walk.go:85-100 | the encoding of every scalar value counts as one character of well-formed text |
| `JsonStrings.RuneIsScalar` | internal/jsonwalk/walk.go:85-100 | and nothing else does: no surrogate, nothing above U+10FFFF, nothing longer than needed |
| `JsonStrings.PairIsRead` | internal/jsonwalk/walk.go:370-380 | an escaped pair of surrogates is read as the character that it stands for in UTF-16 |
| `JsonTree.PrintParses` | internal/jsonwalk/walk.go:508-590 | the parser reads any printed tree as the value of the tree and leaves what follows |
| `JsonRedact.RedactPrints` | internal/jsonwalk/walk.go:508-590 | what redactValue writes is the print of the rewritten tree |
| `JsonRedact.RedactsIffCovered` | internal/jsonwalk/walk.go:508-590 | it succeeds if and only if the transformation succeeds on every string and member name |
| `JsonRedact.RedactedParses` | internal/jsonwalk/walk.go:508-590 | the output parses to the value with every string and member name transformed; order, shape and literals stay |
| `JsonRedact.RewriteIsUndone` | internal/jsonwalk/walk.go:508-590 | rewriting with f and then with a g that undoes f gives a document that means what the first one meant |
| `JsonRedact.DetokenizedMeans` | internal/jsonwalk/walk.go:756-765 | a valid text becomes one with the same meaning except for the transformation |
| `JsonRedact.RedactedInputIsRestored` | internal/jsonwalk/walk.go:756-765 | a redacted tool input is accepted by the reader and means the original again once restored |
| `JsonCompact.IdleRewriteIsSameIff` | internal/jsonwalk/walk.go:484-590 | a rewrite that changes no string and no name gives the text back if and only if there is no white space in it and every member name is spelled as the encoder spells it |
| `JsonSplice.SpliceReplaces` | internal/jsonwalk/walk.go:370-431 | splicing the edits of the marked nodes writes all new texts and copies every other byte |
| `JsonSplice.NodesApart` | internal/jsonwalk/walk.go:370-431 | nodes that are not inside one another have disjoint byte ranges |
| `JsonChanges.SortedAreDocumentEdits` | internal/jsonwalk/walk.go:370-431 | sorted by start, the collected edits are the document's own, one behind the other |
| `JsonApply.Apply` | internal/jsonwalk/walk.go:370-431 | succeeds if and only if the transformation succeeds on every string and tool input that is addressed; what it writes then parses to the value of the document with exactly these transformed |
| `JsonMeans.ReplacedMeans` | internal/jsonwalk/walk.go:370-431 | the document with its changes put in parses to its value with the addressed strings transformed, the addressed tool inputs transformed throughout, and the rest as it was |
| `JsonMeans.ChangesIffCovered` | internal/jsonwalk/walk.go:370-431 | collecting the changes fails if and only if the transformation fails on some addressed string, or on a string or member name of an addressed tool input |
| `JsonMeans.RewrittenAt` | internal/jsonwalk/walk.go:370-431 | at every path that does not lead into a tool input, the rewritten value has the rewritten part: a transformed string, a transformed input, or what was there |
| `JsonMeans.RewrittenElsewhere` | internal/jsonwalk/walk.go:370-431 | where no path leads, the value stays |
| `JsonCompact.UnchangedIsKeptIff` | internal/jsonwalk/walk.go:370-431 | when nothing is transformed no change at all is made to the document, if and only if every addressed tool input is written in that way |
| `JsonPerPath.ApplyPerPath` | internal/jsonwalk/walk.go:442-459 | the loop over paths sets one leaf after the other, always transforming the original text; what it writes parses to the value with exactly the addressed strings transformed |
| `JsonPerPath.PerPathReplaces` | internal/jsonwalk/walk.go:442-459 | setting leaf after leaf gives the document with all of them replaced at once |
| `JsonPerPath.DistinctStringsAreApart` | internal/jsonwalk/walk.go:370-459 | distinct string leaves are never inside one another |
| `JsonPerPath.SpliceEqualsPerPath` | internal/jsonwalk/walk.go:370-459 | for distinct string paths in any two orders, the single splice gives the bytes of the per-path rewrite, and both fail together |
| `DomainSplit.WalkBackLoop` | internal/redact/domainsplit.go:59-130 | the loop terminates and ends where the recursive walk ends |
| `DomainSplit.SplitDomainOf` | internal/redact/domainsplit.go:59-130 | computes the described split, every refusal included |
| `DomainSplit.SplitRebuilds` | internal/redact/domainsplit.go:59-130 | refuses exactly without registrable part or real top-level domain; the parts rebuild the domain; the organization label differs from the suffix's first label unless the labels ran out |
| `DomainSplit.SplitIsIdempotent` | internal/redact/domainsplit.go:59-130 | splitting the registrable part again gives the same label and suffix |
| `DomainSplit.SplitStops` | internal/redact/domainsplit.go:59-130 | the suffix is the public suffix with nothing but repeats of its first label in front, so if the label in front of the public suffix is no repeat it is the organization label |
| `DomainTokens.TenantIsIdempotent` | internal/redact/domainsplit.go:212-237 | the same for the tenant split, whatever order the vendor list has |
| `DomainTokens.SplitTenant` | internal/redact/domainsplit.go:212-237 | the loop finds the first vendor suffix that has a tenant in front |
| `DomainTokens.SplitEither` | internal/redact/detector.go:479-488 | the tenant split first, else the registrable split |
| `DomainTokens.FirstTenantWins` | internal/redact/domainsplit.go:212-237 | a vendor suffix with a tenant label in front decides the split, whatever the public suffix list says; of several the first in the list |
| `DomainTokens.LeaksIff` | internal/redact/domainsplit.go:243-262 | a subdomain leaks if and only if some word of three or more letters of the organization label, between its hyphens and underscores, occurs in it in any case |
| `DomainTokens.SplitSurvivesStoring` | internal/redact/detector.go:479-515 | the stored registrable part splits as the domain did, tenant split tried first |
| `DomainTokens.DomainComesBackIff` | internal/redact/engine.go:944-1009 | over the whole domain pass, in any text that shows no other domain token: the formatted token restores to the domain if and only if the subdomain was not dropped for leaking the organization name and, where no prefix is kept, no letter or digit stands in front |
| `DomainTokens.DomainIsRestoredIff` | internal/redact/engine.go:785-1009 | the same for all of Detokenize, when its other passes find nothing |
| `DomainTokens.LastNLabels` | internal/redact/detector.go:302-312 | the index loop takes the described trailing labels |
| `DomainTokens.StoredValueIsRegistrable` | internal/redact/detector.go:302-312 | taking as many labels as the registrable part has gives exactly that part |
| `Invisible.StripInvisible` | internal/redact/unicode_domain.go:52-73 | the loop computes the stripped text and one offset per byte |
| `Invisible.RangeStripsBack` | internal/redact/unicode_domain.go:189-197 | a non-empty rune-aligned range of the stripped text maps to an original range that strips back to it and neither starts nor ends with an invisible character |
| `Invisible.RangesStayApart` | internal/redact/unicode_domain.go:189-197 | disjoint stripped ranges map to disjoint ranges in the same order |
| `Invisible.CandidateLeadsBack` | internal/redact/unicode_domain.go:189-197 | the same for what the detectors compute from the offset table, with or without one |
| `Verhoeff.VerhoeffValid` | internal/redact/verhoeff.go:43-55 | the loop over the tables accepts exactly the digit strings that check |
| `Verhoeff.TableIsDihedral` | internal/redact/verhoeff.go:16-27 | the multiplication table is the group of symmetries of a pentagon |
| `Verhoeff.FirstRowIs` | internal/redact/verhoeff.go:29-41 | the permutation that the positions repeat is the one of the algorithm |
| `Verhoeff.KnownNumber` | internal/redact/fuzz_test.go:260-270 | 234123412346 is valid and 234123412347 is not |
| `Verhoeff.ChangeIsDetected` | internal/redact/verhoeff.go:43-55 | at any length, one changed digit is detected |
| `Verhoeff.SwapIsDetected` | internal/redact/verhoeff.go:43-55 | at any length and position, a swap of two different neighbours is detected |
| `Verhoeff.CheckDigitIsUnique` | internal/redact/verhoeff.go:43-55 | every body has exactly one valid check digit |

## Left out

- HTTP serving, upstream requests, headers, the request semaphore, flushing of writers, logging and timestamps: input and output around the core.
- The individual regular expressions of the detectors and their keyword windows: detectors are arbitrary functions here.
- Allow-lists, top-level domain tables, calling codes and category descriptions: data.
- netip parsing and printing, gjson, sjson, bbolt, encoding/json internals and SHA-256: an exact syntax tree, atomic commits and an injective cache key are assumed.
- Which paths of a request are rewritten (collectPaths) and the protection of system reminders: any list of paths to strings and of tool inputs is covered.
- JsonApply.Apply: gjson's fallback for a missing offset, and values that are not strings at string paths, are not modelled.
- JsonPerPath.ApplyPerPath: does not model the fallback for tool inputs, which redacts only their values.
- JsonRedact.RedactedInputIsRestored: speaks of the meaning of the text, because white space and the spelling of member names are not kept.
- Emitted frames: json.Marshal replaces invalid UTF-8 in the text that it wraps; `Utf8.PiecesAreWellFormed` says when there is none.
- TokenShapes.SeatedDoNotClash: a rune outside ASCII counts by its last byte as left context, and the Kelvin sign, which folds to k, does not match the case-insensitive Razorpay word.
- StreamDetokenize.StreamedEqualsDetokenized: the token map is fixed while a block streams.
- RoundTrip.TokenizedComesBack: for the tokens of the credential pass, when the final pass over the block patterns has nothing left to do, and with conditions on the text that is written; for other tokens there is RoundTrip.FencedTextComesBack.
- RoundTrip.FencedTextComesBack: asks the same of the final pass, and that no match of a spaced shape goes over a boundary byte next to a replacement, because such a match depends on the tokens drawn.
- StreamLimits.TokenIsRestoredIffKept: for texts that show one token, of a shape of fixed size; network and international phone tokens vary in length, and for texts with several tokens there is the streaming law.
- Repeating.TokenizedStays: asks that the output is well-formed UTF-8, which TokenizeUtf8.TokenizeKeepsUtf8 gives for careful detections.
- KeepsUtf8.DetokenizeKeepsUtf8: the rule for IPv6 addresses is a parameter there that keeps valid text valid; Ipv6Tokens.Ipv6ComesBack has the rule itself.
- Ipv6Tokens.AddressComesBack6: parsing and printing of addresses are those of net/netip, of which only the documented round trips are used.
- Streams that end without content_block_stop and deltas whose type does not fit their block: the laws about whole blocks are for blocks that are stopped; each handler is modelled for all deltas.
- Engines.Tokenize: the cache in front of the computation is a model of its own (`CacheLaws.HitIsLastStored`, `ReloadProtocol.NoStaleValue`), not a part of the method.
- StoreProtocol.ExecKeepsInv: readers of the trie are single steps, and Delete and GetOrCreateToken are not among the concurrent callers; runs with them are sequential (`StoreRuns.RunKeepsGood`).
- IPv6 networks: their counter wraps after 2^32 numbers, so only tokens that are still in the map are known to differ.
- Substitution.ApplyDetections: the set of values established by the batch is always built; the code builds it only if some detection needs it.
- BlockList.BlockedWordsAreCovered: literal words without case folding, for words that cannot overlap themselves.
- BlockLimits.CoveredIffBorderless: for well-formed words that lack some ASCII character and do not begin like a block token.
- ReloadProtocol.NoStaleValue: the 64-bit generation does not wrap; results cached before a Delete are outside it, because Delete does not clear the cache.
- Exact round trips where the code canonicalises on purpose: letter case of domains and MAC addresses, spacing of Aadhaar numbers, international phone numbers, IPv6 text.
- dupkeys, merging and locking of rules, the watcher, log rotation, the wizard, the command line and the console: they would only add simple members.
