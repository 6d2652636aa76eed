# Secure gateway: a Dafny model

The gateway stands between callers and language-model providers. It finds sensitive values in what callers
send, replaces them with tokens before anything leaves, and puts the values back into the reply. It also seals
whole documents at rest in authenticated chunks. This project models the parts of it that hold state or
arithmetic and proves what they promise, for all inputs, all runs or all interleavings.

`dafny verify dfyconfig.toml` checks the whole project.

## How it is built

Each stateful component is a class with the source's fields, and each of its methods is proved equal to a
specification function on values. What the source promises is then proved about those functions, as lemmas over
one step, over whole runs, or over two components together.

| area | modules |
|---|---|
| byte and text encodings | `Bytes`, `Utf8`, `Identifiers`, `Framing`, `VaultEnvelope`, `DocumentFormat`, `WireFormats` |
| sealed documents | `SealedDocument` (specification), `DocumentCipher` (the streaming loops), `SealingLaws`, `SealingRuns` |
| segmentation, detection, selection | `Segmentation`, `Ordering`, `Overlap`, `Postprocess`, `Selection` |
| tokens | `TokenGrammar` |
| the vault | `VaultKeys`, `RedisStore` (the script), `RedisVault`, `FakeVault`, `VaultLaws`, `VaultBookkeeping`, `VaultRefinement`, `VaultEquivalence` |
| protect and restore | `Splicing`, `Tokenizer`, `Restoration`, `Protection`, `SpanLaws`, `Resolving`, `RoundTrip`, `Lossless`, `Pipeline`, `RequestLaws` |
| run-level machines | `RateLimit`, `RateLimitLaws`, `PolicyCache`, `AuditQueue`, `PolicyLifecycle` |

How the outside world enters:

- AES-GCM is the ideal cipher: an arbitrary deterministic encryption function with 16 bytes of overhead, and a
  log of what was sealed. A frame opens only if the log holds it. No injectivity over associated data is assumed.
- HKDF is symbolic: a data key is the ring key, salt and context it was derived from. A salt is drawn at most once
  with a ring key, and the nonces of one document differ (`SealingRuns.Legal`); so a body seals under a key that has
  sealed nothing else, which the ledger in `SealingLaws` records.
- HMAC, SHA-256, entity normalisation, policy document validation and pseudonym surrogates are arbitrary
  functions. SHA-256 is known to return 64 hexadecimal digits. Only the lemmas that compare the two vaults assume
  more: that it gives the finitely many fingerprints in use different digests (`VaultRefinement.Separates`).
- Random ids, nonces, salts and every clock reading are parameters. Token ids are assumed fresh and distinct
  where a lemma says so (`RedisVault.Fresh`).
- The Redis script, and each committed transaction, is one atomic step over a store whose keys expire. Operations
  of any callers interleave between steps (`VaultBookkeeping.Run`).
- `delete_session` is two round trips: it reads the member set, then deletes in one transaction. The class makes
  both, and `VaultBookkeeping.DeletionCompleteIff` holds whatever ran between them. In the runs of
  `VaultBookkeeping` and `VaultEquivalence` nothing does.
- UTF-8 is modelled concretely, after section 3 of RFC 3629.

## What turned out to be conditional

Each of these is a promise that holds exactly under a condition, proved in both directions.

- A sealed document opens, however it is cut, exactly when the reader's buffer holds the whole header by the time
  it first holds the 27 bytes at which `open_stream` tries to parse it. Otherwise the document is refused as
  truncated (`SealingLaws.SealThenOpen`).
- A reply is restored exactly when no lookup is refused and, under FAIL, every token in it is found
  (`Restoration.RestoreExact`).
- A value shorter than the segment overlap is whole in some segment, as `app/config/settings.py:220-226` says,
  exactly while the overlap is at most two more than three quarters of the segment size, rounded down
  (`Segmentation.OverlapPromiseIff`).
- Every span of a message protected by tokens alone comes back as itself exactly when requests of that message
  that name one key have one value, and a value already stored under the key is the same one
  (`Lossless.SpansReturnIff`). Take any set of values that includes what the session holds: every message over
  them comes back exactly when no two of them share a type and a fingerprint (`Lossless.LosslessIff`). The
  source's `normalize` makes different spellings share one on purpose.
- A session's member set covers its live keys throughout a run exactly when, at each of its own writes, the live
  keys the write does not renew expire no later than the write's own (`VaultBookkeeping.RunCoveredIff`). A run that
  never moves the set's expiry backwards meets this (`ForwardRunCovered`). With a shorter TTL the set can expire
  before records it should list, and `delete_session` then leaves them behind (`ShorterTtlOrphans`).
- `delete_session` leaves nothing live exactly when every key live at its transaction is among the members read
  before it (`VaultBookkeeping.DeletionCompleteIff`). An identity written between its two round trips is left
  behind (`WriteDuringDeletionSurvives`).
- An invalidated policy is not served again, however the run goes on, exactly when no lookup of that tenant in
  flight has already been answered with a policy other than the active one (`PolicyCache.InvalidationPromptIff`).
  `MissOutlivesInvalidation` is a run in which one has.
- The comments of `app/detection/overlap.py:32-33` call the outcome independent of input order. Up to a recognizer
  of `None` written as `""` it is (`Overlap.ResolvedIgnoresOrder`). Outright it is exactly when no candidate kept
  has a twin that differs from it in that alone (`OrderIndependentIff`): of two twins the first is kept
  (`FirstTwinWins`).
- The two vaults stay in step over a run exactly when every deletion finds its session's live records listed
  (`VaultEquivalence.RunInStepIff`). Meanwhile Redis answers each call as the in-memory vault does, except that it
  refuses a resolution that names an id live under another type (`VaultRefinement.ResolutionSimulates`), and counts
  only records that have not expired (`VaultEquivalence.CountsEqualIff`).

## Model

| member | source | states |
|---|---|---|
| Utf8.DecodeInvertsEncode | app/outbound/serialization.py:50-62 | Decoding the UTF-8 of any text gives the text back |
| Utf8.EncodeInvertsDecode | app/documents/crypto.py:183-188 | Every byte string the decoder accepts is the encoding of what it decodes to, so no two encodings of one text are accepted |
| WireFormats.Utf8Shape | app/outbound/serialization.py:50-62 | Each character is one to four bytes with the lead and continuation bits of section 3 of RFC 3629 and the character's number in the rest |
| Bytes.BigEndianRoundTrip | app/documents/crypto.py:129-135 | A length written in a fixed number of big-endian bytes reads back as itself when it fits |
| Bytes.DecimalInjective | app/documents/crypto.py:113-126 | Different integers have different decimal texts |
| WireFormats.DigitsDenote | app/documents/crypto.py:113-126 | Decimal digits denote the number they were made from, without a leading zero |
| Framing.FrameInjective | app/outbound/serialization.py:84-92 | Equal frames come from equal lists of parts, whatever their number |
| Framing.FrameExists | app/outbound/serialization.py:84-92 | A frame exists exactly when every part's length fits its prefix |
| Framing.SerializeOutbound | app/outbound/serialization.py:37-64 | The loop builds the frame of version, provider, model, policy version, message count and every role and content in order, or overflows |
| Framing.OutboundInjective | app/outbound/serialization.py:37-64 | Equal attested bytes imply equal provider, model, policy version and messages, roles and contents alike |
| WireFormats.OutboundLayout | app/outbound/serialization.py:37-92 | The attested bytes are the version, provider, model, policy version, message count, then role and content of each message, each behind four bytes of length, high byte first |
| VaultEnvelope.VaultAadInjective | app/vault/crypto.py:57-80 | Equal associated data imply the same tenant, session, entity type and token id |
| VaultEnvelope.EnvelopeReadsBack | app/vault/crypto.py:91-134 | A printed envelope is read back as itself exactly when its version is the current one and it holds at least a tag |
| VaultEnvelope.EnvelopePrintsBack | app/vault/crypto.py:99-134 | Every accepted byte string is the printed form of the envelope read from it |
| WireFormats.VaultAadLayout | app/vault/crypto.py:57-80 | The associated data are domain, version, tenant, session, type and token id, each behind two bytes of length |
| WireFormats.EnvelopeLayout | app/vault/crypto.py:91-134 | An envelope is the magic, version, key id behind one byte of length, nonce and ciphertext |
| DocumentFormat.AadInjective | app/documents/crypto.py:113-135 | Equal chunk associated data imply the same identity, purpose, chunk index and finality |
| DocumentFormat.InfoInjective | app/documents/crypto.py:104-111 | Equal key-derivation contexts imply the same tenant, user and document |
| DocumentFormat.HeaderReadsBack | app/documents/crypto.py:147-200 | A printed header followed by anything is read back, with its length, exactly when its version and chunk size are ones a reader accepts |
| DocumentFormat.HeaderPrefixRefused | app/documents/crypto.py:159-200 | Every proper prefix of a header is refused as truncated |
| DocumentFormat.HeaderPrintsBack | app/documents/crypto.py:159-200 | Every accepted prefix is the printed form of the header read from it |
| WireFormats.AadLayout | app/documents/crypto.py:113-135 | Chunk associated data are domain, version, tenant, user, document, content type, schema, purpose, position and finality, each behind two bytes of length |
| WireFormats.InfoLayout | app/documents/crypto.py:104-111 | The derivation context is domain, tenant, user and document, likewise |
| WireFormats.HeaderLayout | app/documents/crypto.py:147-157 | A header is the magic, version, key id behind one byte of length, salt and the chunk size in four bytes, high byte first |
| DocumentCipher.Rechunk | app/documents/crypto.py:398-411 | The blocks produced depend only on the bytes, not on how they arrived, and are the regrouping the specification gives |
| DocumentCipher.DocumentCipher.SealStream | app/documents/crypto.py:256-298 | The one-behind loop writes the frames and leaves the log that sealing the whole plaintext gives, whatever the input blocks |
| DocumentCipher.DocumentCipher.OpenFullFrames | app/documents/crypto.py:331-341 | The inner loop yields every frame followed by a further byte and stops at the first that fails |
| DocumentCipher.DocumentCipher.OpenStream | app/documents/crypto.py:300-349 | The streaming reader yields what opening the concatenated bytes gives, with the same error, for every cutting |
| DocumentCipher.DocumentCipher.SealBytes | app/documents/crypto.py:227-243 | One-piece sealing writes the specified value and log entry |
| DocumentCipher.DocumentCipher.OpenBytes | app/documents/crypto.py:245-254 | Parsing, deriving and opening in turn give the specified value or error, and whatever opens was sealed under this identity's key as its one final chunk for that purpose |
| SealedDocument.ChunksJoin | app/documents/crypto.py:398-411 | The chunks of a plaintext concatenate to it |
| SealedDocument.ChunksCount | app/documents/crypto.py:256-298 | A plaintext of n bytes has max(1, ceil(n / chunk)) chunks, all full but the last |
| SealingLaws.SealedLength | app/documents/crypto.py:256-298 | The sealed length is the header's, plus the plaintext's, plus 28 bytes for each of max(1, ceil(n / chunk)) chunks |
| SealingLaws.SealFinishes | app/documents/crypto.py:256-298 | Sealing finishes exactly when the active key is known, its id fits, and every identity field and index can be encoded, and otherwise raises the error of the first of these that fails |
| SealingLaws.SealThenOpen | app/documents/crypto.py:256-348 | For every plaintext, chunk size and cutting on both sides: the reader yields exactly the sealed chunks and finishes, unless it first holds 27 bytes before it holds the 26 bytes and key id of the header; then it refuses the document as truncated |
| SealingLaws.SealThenOpenValue | app/documents/crypto.py:227-254 | A value sealed in one piece opens to itself exactly when it is no larger than the largest accepted chunk |
| SealingLaws.EarlierEntryKept | app/documents/crypto.py:113-126 | Sealing later chunks under a key leaves the entries of earlier ones in the log |
| SealingLaws.SealDocumentAccounted | app/documents/crypto.py:256-298 | Sealing a body under an unused data key keeps the ledger of bodies and the cipher's log in agreement, even when it fails part-way |
| SealingLaws.SealValueAccounted | app/documents/crypto.py:227-243 | So does sealing a value in one piece |
| SealingLaws.OpenedFramesAreSealed | app/documents/crypto.py:385-395 | Frames that open one after another are the next chunks of the one body sealed under that key |
| SealingLaws.OpenedIsAuthentic | app/documents/crypto.py:300-348 | For any byte stream: what a reader yields is a prefix of the chunks sealed for exactly that reader, and it finishes normally exactly when it yields them all |
| SealingLaws.OpenedBytesAreAPrefix | app/documents/crypto.py:300-348 | In bytes: the output is a prefix of the sealed document, and all of it when the reader finishes |
| SealingLaws.OpenedValueIsAuthentic | app/documents/crypto.py:245-254 | A value opens only as the single chunk sealed for that reader and purpose |
| SealingRuns.DocumentFrames | app/documents/crypto.py:377-382 | Frame i of a sealed document is nonce i followed by chunk i encrypted under that nonce and the associated data of its place |
| SealingRuns.DerivedKeysSeparate | app/documents/crypto.py:351-371 | Equal data keys come from the same ring key, salt, tenant, user and document |
| SealingRuns.NonceUsedOnce | app/documents/crypto.py:227-298 | Over any run of sealings with fresh salts and distinct nonces within a document, no nonce is used twice under one data key, and the log holds only chunks of the one body sealed under its key |
| Segmentation.SegmentDocument | app/documents/segmentation.py:148-188 | The loop terminates and returns the specified segments |
| Segmentation.SegmentsCover | app/documents/segmentation.py:148-188 | Segments are numbered, non-empty, at most the maximum long, start and end strictly later each time, overlap or touch, and span the whole text |
| Segmentation.SegmentCountBound | app/documents/segmentation.py:148-188 | Each segment advances by at least max(1, min(max, w + 1) - overlap), so their number is linear in the text |
| Segmentation.SegmentsBreakWell | app/documents/segmentation.py:168-221 | Every segment starts the overlap before the last end, or one further than the last start, and ends after the last paragraph break of its last quarter that cuts past the last end, else line break, else sentence end, else space, else at the limit |
| Segmentation.ShortRangeHeld | app/documents/segmentation.py:148-227 | Every range of length at most min(overlap, w) + 1 lies whole in some segment, w being three quarters of the size |
| Segmentation.LongerRangeSplit | app/documents/segmentation.py:148-227 | For every greater length there is a text and a range of that length no segment holds |
| Segmentation.ContainmentBound | app/documents/segmentation.py:148-227 | Ranges of a given length survive in every text exactly when the length is within that bound |
| Segmentation.OverlapPromiseIff | app/config/settings.py:220-226 | Everything shorter than the overlap survives exactly when the overlap is at most w + 2 |
| Segmentation.GlobalRangeSameText | app/documents/segmentation.py:93-102 | Mapping a segment's range back to the document selects the same characters |
| Overlap.ResolveOverlaps | app/detection/overlap.py:71-96 | The greedy loop returns the specified result |
| Overlap.DominanceIsTotal | app/detection/overlap.py:51-68 | The dominance key orders all candidates |
| Overlap.DominanceIsRank | app/detection/overlap.py:51-68 | It is the documented order: severity, score, length, start, type name, recognizer name, with an unlisted type at 0 and no recognizer as the empty name |
| Overlap.ResolvedIsKernel | app/detection/overlap.py:71-96 | The result is a disjoint selection of candidates in which every candidate dropped overlaps a kept one at least as dominant, in text order |
| Overlap.KernelMemberShared | app/detection/overlap.py:71-96 | What one such selection keeps, every other keeps |
| Overlap.KernelUnique | app/detection/overlap.py:71-96 | So the result is the only such selection, up to an absent recognizer written as "" |
| Overlap.ResolvedIgnoresOrder | app/detection/overlap.py:71-96 | Input order and repetition do not matter, up to the same |
| Overlap.OrderIndependentIff | app/detection/overlap.py:32-33 | They do not matter outright exactly when no candidate kept has a twin with an absent recognizer written the other way |
| Overlap.FirstTwinWins | app/detection/overlap.py:51-68 | Of two twins alone, whichever comes first is kept, so the order decides |
| Overlap.ResolvedIdempotent | app/detection/overlap.py:71-96 | Resolving again changes nothing, outright |
| Postprocess.Finalize | app/detection/postprocess.py:50-130 | The filtering loop, the resolver and the cap return the specified result or error |
| Postprocess.FinalizedIsReportable | app/detection/postprocess.py:36-130 | Everything reported passed every filter, nothing reported overlaps, and the cap holds |
| Postprocess.FinalizedIsComplete | app/detection/postprocess.py:50-130 | Every entity reported is a qualifying hit with its score clamped and its recognizer kept for diagnostics alone, and every qualifying hit is reported or shares a character with a reported one ranked no lower |
| Postprocess.CapExact | app/detection/postprocess.py:110-118 | The cap refuses exactly the results that without it would hold more entities than it allows |
| Postprocess.FinalizedIgnoresOrder | app/detection/postprocess.py:86-130 | Without diagnostics the result, errors included, does not depend on the order of hits at all |
| Selection.ResolveOverlaps | app/tokenization/selection.py:50-59 | The boundary loop returns the specified sweep |
| Selection.SelectedIsUsable | app/tokenization/selection.py:62-77 | What is selected lies in the text, in order, disjoint, each at or above its type's threshold |
| Selection.SelectionCovers | app/tokenization/selection.py:22-77 | Every confident span is selected or shares a character with a selected one that starts earlier, or there and is longer, or as long and scores higher, or as high with a smaller type name |
| Selection.RefusedIffOutside | app/tokenization/selection.py:31-47 | Selection is refused exactly when a span reaches past the text |
| Selection.SelectionAgreesOnAscending | app/tokenization/selection.py:50-77 | On spans already resolved, selection keeps exactly the confident ones, in order |
| Selection.DisjointAllKept | app/tokenization/selection.py:50-77 | On disjoint spans in any order it keeps exactly the confident ones |
| Selection.NoSpanDropped | app/documents/protection.py:382-409 | On disjoint in-bounds spans in any order the dropped-span check passes exactly when all are confident, and then every span is there once |
| TokenGrammar.ParseIffFormat | app/tokenization/grammar.py:110-165 | A text parses to a token exactly when it is that token's canonical text |
| TokenGrammar.TokenShape | app/tokenization/grammar.py:94-165 | A token is the white square brackets around SGW, a type of 1 to 64 capitals, digits and underscores other than REDACTED, and 26 Crockford characters |
| TokenGrammar.RedactionShape | app/tokenization/grammar.py:126-137 | A placeholder is the brackets around SGW, REDACTED and the type |
| TokenGrammar.RedactionIsNoToken | app/tokenization/grammar.py:126-137 | No redaction placeholder parses as a token, whatever its type is called |
| TokenGrammar.PatternPrefixIff | app/tokenization/grammar.py:55-63 | The greedy matcher finds a match at a position exactly when the pattern's language has one there |
| TokenGrammar.FindTokens | app/tokenization/grammar.py:173-186 | Searching with the pattern and parsing each hit lists the specified tokens |
| TokenGrammar.RejectedHitHidesNothing | app/tokenization/grammar.py:173-186 | Skipping past a hit the parser rejects loses no token |
| TokenGrammar.ListedIffToken | app/tokenization/grammar.py:140-186 | A range is listed exactly when the parser accepts its text |
| TokenGrammar.TokensOrdered | app/tokenization/grammar.py:173-186 | Listed ranges come in order and are disjoint, each where its token's text is |
| TokenGrammar.TokensAround | app/tokenization/grammar.py:173-186 | Scanning around an inserted token or placeholder finds the tokens left of it, itself if it is a token, and those right of it |
| VaultKeys.KeyTextInjective | app/vault/redis_vault.py:213-228 | No two valid keys share a name, within or across sessions |
| VaultKeys.OwnedIff | app/vault/redis_vault.py:387-411 | The prefix test of deletion holds of exactly the session's keys |
| VaultKeys.TokenSegmentIff | app/vault/redis_vault.py:387-411 | The substring test of deletion holds of exactly the record keys |
| RedisStore.Redis.BatchWrite | app/vault/redis_vault.py:86-145 | The script's loop leaves the store and replies of one get-or-create per entry followed by one EXPIRE of the member set |
| RedisStore.Redis.DeleteMembers | app/vault/redis_vault.py:393-409 | The transaction removes exactly the session's keys among the members read, and the set, and counts the records that were still live |
| RedisVault.RedisTokenVault.DeleteSession | app/vault/redis_vault.py:387-411 | Reading the members and the transaction give the store and count specified for those members |
| RedisVault.Deduplicate | app/vault/redis_vault.py:484-504 | Each entry is sent to the position of the first with its identity, and the unique entries keep their order |
| RedisVault.UniqueFinds | app/vault/redis_vault.py:484-504 | Every identity is found among the unique entries |
| RedisVault.ReadBatchResult | app/vault/redis_vault.py:304-336 | Replies become the unique entries' tokens, or an error exactly when one is not a token id |
| RedisVault.RedisTokenVault.GetOrCreateMany | app/vault/redis_vault.py:230-301 | A batch write returns one token per entry and leaves the store as specified, refusing invalid TTLs, types and sizes before writing |
| RedisVault.RefusedIff | app/vault/redis_vault.py:238-247 | A write is refused, with nothing written, exactly for a TTL outside 1 to 7200 seconds, a malformed type, an empty fingerprint, or more than 10000 entries |
| RedisVault.RedisTokenVault.ResolveMany | app/vault/redis_vault.py:338-385 | Resolution maps exactly the tokens found, or fails when one record does not open under its token's binding |
| FakeVault.InMemoryTokenVault.GetOrCreateMany | app/vault/fakes.py:81-136 | The purging, one-at-a-time vault over dictionaries refuses, or mints and reuses, as its fold specifies |
| FakeVault.InMemoryTokenVault.ResolveMany | app/vault/fakes.py:138-162 | It resolves the live tokens that match their entry and skips the rest |
| FakeVault.InMemoryTokenVault.DeleteSession | app/vault/fakes.py:164-170 | It forgets the session and counts its records, expired ones included |
| VaultLaws.FoldConsistent | app/vault/redis_vault.py:86-145 | Every stored record stays bound to the name it is stored under, and index entries lead only to records of their own type |
| VaultLaws.FoldHolds | app/vault/redis_vault.py:86-145 | After a batch each entry's identity holds the token it was answered with, and both its keys live a full TTL |
| VaultLaws.FoldStores | app/vault/redis_vault.py:86-145 | After a batch every identity stands for the first value its session stored for it |
| VaultLaws.RefusedIffOtherType | app/vault/redis_vault.py:338-385 | In a consistent store a token is refused exactly when its id is live under another type |
| VaultLaws.FoundIff | app/vault/redis_vault.py:338-385 | A token is found, with a value, exactly when its record is there under its type, holds the value and has not expired |
| VaultLaws.HeldTokenResolves | app/vault/redis_vault.py:338-385 | A token just handed out resolves, until its TTL, to its identity's stored value |
| VaultLaws.SessionsIsolated | app/vault/redis_vault.py:213-228 | Writing or deleting in one session changes nothing another can observe |
| VaultLaws.ContentKept | app/vault/redis_vault.py:86-145 | A batch never changes what an existing record holds |
| VaultBookkeeping.RunKeepsInvariants | app/vault/redis_vault.py:115-143 | In every run an index key and the record it names expire together, each record has one owner, and member sets list both or neither |
| VaultBookkeeping.RunKeepsContent | app/vault/redis_vault.py:86-145 | In every run that does not delete its session, a record keeps its first value |
| VaultBookkeeping.CreatedIffNew | app/vault/redis_vault.py:86-145 | The flag of each reply says whether the entry's identity had no live record before |
| VaultBookkeeping.FoldTouches | app/vault/redis_vault.py:86-145 | What a batch does to each key: those its entries lead to get a full TTL and keep their record, new ones are created, and every other key stays as it was |
| VaultBookkeeping.FoldMembersExact | app/vault/redis_vault.py:86-145 | The member set grows by the keys created and nothing else |
| VaultBookkeeping.WriteKeepsCoveredIff | app/vault/redis_vault.py:115-143 | The member set lists and outlives every live key after a write exactly when each key the write does not renew expires no later than now plus the write's TTL |
| VaultBookkeeping.ForwardWriteKeepsCovered | app/vault/redis_vault.py:115-143 | A write that does not move the set's expiry backwards keeps the session covered |
| VaultBookkeeping.RunCoveredIff | app/vault/redis_vault.py:115-143 | Over any run on any sessions, a session stays covered exactly when each of its own writes keeps up with the keys it does not renew |
| VaultBookkeeping.CoveredRunDeletes | app/vault/redis_vault.py:387-411 | After a run in which a session stayed covered, deleting it leaves nothing live and returns the number of live records |
| VaultBookkeeping.ForwardRunCovered | app/vault/redis_vault.py:115-143 | A session whose writes, with whatever TTLs, never move its set's expiry backwards stays covered over the whole run |
| VaultBookkeeping.DeletionCompleteIff | app/vault/redis_vault.py:387-411 | The deleting transaction leaves nothing live exactly when every key then live is among the members read before it, and then returns the number of live records |
| VaultBookkeeping.DeletionCounts | app/vault/redis_vault.py:401-411 | Whatever members were read, deletion reports exactly the live records it removes |
| VaultBookkeeping.WriteDuringDeletionSurvives | app/vault/redis_vault.py:387-411 | An identity written between deletion's two round trips is left behind, and no later deletion finds it |
| VaultBookkeeping.ShorterTtlOrphans | app/vault/redis_vault.py:387-411 | A record outliving a later, shorter write is left behind by deletion, which then reports none |
| VaultBookkeeping.OneTtlRunDeletes | app/vault/redis_vault.py:387-411 | In particular, over any run with one TTL per session deletion at any point is complete |
| VaultRefinement.BatchIsFold | app/vault/redis_vault.py:248-301 | Deduplicating, running the script and expanding equals one get-or-create per entry in order, in replies and in store, for any store |
| VaultRefinement.WriteSimulates | app/vault/fakes.py:101-136 | With digests that tell the fingerprints in use apart, a whole batch write returns token for token what the in-memory vault returns, and the two stay in step |
| VaultRefinement.PurgeSimulates | app/vault/fakes.py:178-187 | Purging removes nothing Redis would still find |
| VaultRefinement.WaitSimulates | app/vault/redis_vault.py:115-143 | Time passing keeps the two in step |
| VaultRefinement.LookUpSimulates | app/vault/fakes.py:138-162 | The two resolve a token alike, except that a live id under another type is refused by Redis and skipped by the other |
| VaultRefinement.ResolutionSimulates | app/vault/redis_vault.py:338-385 | A whole call answers with the in-memory vault's map exactly when no token wanted names an id live under another type, and otherwise fails |
| VaultRefinement.RepliesAreTokenIds | app/vault/redis_vault.py:304-336 | On a consistent store every reply is a token id |
| VaultEquivalence.WriteAnswersAgreeIff | app/vault/fakes.py:81-136 | The vaults answer a write alike exactly when it is not one that Redis alone refuses |
| VaultEquivalence.DeleteInStepIff | app/vault/fakes.py:164-170 | After a deletion the vaults are in step exactly when the member set listed every live record, and then Redis returns the records that had not expired |
| VaultEquivalence.CountsEqualIff | app/vault/fakes.py:164-170 | The in-memory vault's count is that number exactly when it holds nothing expired |
| VaultEquivalence.RunInStepIff | app/vault/fakes.py:81-187 | Over any run of writes, resolutions, deletions and waits on any sessions, the two vaults stay in step exactly when every deletion finds its live records listed, and while they do Redis answers every call as the in-memory vault's state says |
| VaultEquivalence.CoveredDeletesListed | app/vault/redis_vault.py:115-143 | Writes that keep up with the keys they do not renew make every deletion find them |
| VaultEquivalence.VaultsAgree | app/vault/fakes.py:1-13 | From empty, in every run whose writes keep up, the in-memory vault stands in for Redis answer by answer |
| Tokenizer.Tokenizer.Transform | app/tokenization/tokenizer.py:98-161 | Select, check, mint in one vault call, then splice right to left: result and store are as specified, and refusals come before any write |
| Tokenizer.Tokenizer.Mint | app/tokenization/tokenizer.py:171-228 | Each span that needs a token gets the one at its position in the vault's answer; others never reach the vault |
| Tokenizer.Tokenizer.SpliceText | app/tokenization/tokenizer.py:133-161 | The backward walk yields the left-to-right splice, the mappings in plan order, and the counts |
| Tokenizer.Summarize | app/tokenization/tokenizer.py:325-344 | The tallies are the counts by action and by type |
| Tokenizer.SummaryConserves | app/tokenization/tokenizer.py:325-344 | Each count is the number of spans with that action or type, and detected equals the sum by action and the sum by type |
| Splicing.SpliceIsInterleave | app/tokenization/tokenizer.py:133-161 | A splice depends on the text only through its untouched pieces |
| Protection.WrittenToken | app/tokenization/tokenizer.py:297-322 | Every token of a successful write parses, with the type asked for |
| Protection.ProtectedText | app/tokenization/tokenizer.py:133-161 | Without surrogates the protected text is the untouched pieces interleaved with pieces that depend only on types, actions and minted ids |
| Protection.NonInterference | app/tokenization/tokenizer.py:133-161 | Two messages with the same untouched pieces, types, actions and ids protect to the same text, whatever the values and their lengths |
| Protection.ScannedTokens | app/tokenization/tokenizer.py:137-158 | Range by range, the scanner finds in a protected text the tokens already whole in an untouched piece and, between them, the minted tokens in order, and nothing else |
| SpanLaws.SpanBySpan | app/tokenization/tokenizer.py:230-285 | Each tokenised or pseudonymised span has one mapping, in order, with its type, text and fingerprint, and the text holds in its place its token, the surrogate of its type, text and fingerprint, or the placeholder of its type |
| SpanLaws.SameTokenIff | app/tokenization/tokenizer.py:230-250 | Two spans of a message share a token exactly when they have one type and the digests of their fingerprints are equal |
| SpanLaws.SameValueSameToken | app/vault/redis_vault.py:86-145 | Within its TTL a value of one type and normal form keeps its token in later messages of the session, whatever other callers do |
| Restoration.Substitute | app/restoration/pipeline.py:144-165 | The cursor loop is one pass that replaces each token and never rescans |
| Restoration.SpliceIsRestore | app/restoration/pipeline.py:144-165 | Cutting at the scanner's matches equals the recursive one-pass definition |
| Restoration.OutputPipeline.Restore | app/restoration/pipeline.py:89-141 | Restoration returns the specified text and counts, or the specified error and no text |
| Restoration.RestoreExact | app/restoration/pipeline.py:89-187 | For every reply: invalid, or refused with a lookup, or failing under FAIL exactly when some token is not found, or else each found token replaced by its value, each other one left or made its placeholder, the rest unchanged, and the counts those of the distinct tokens found and not found |
| Restoration.RestoreInterleaved | app/restoration/pipeline.py:144-187 | Restoring untouched and inserted pieces together equals restoring each alone: no token forms across a join |
| Restoration.TokensInterleaved | app/tokenization/grammar.py:173-186 | The matches in interleaved pieces are, in order and at their offsets, those of each untouched piece and each inserted piece that is a token |
| Resolving.WrittenResolves | app/vault/redis_vault.py:248-301 | Every token a write returns leads, for a full TTL, to the first value its session stored for the entry's key |
| Resolving.RunKeepsResolvable | app/vault/redis_vault.py:86-145 | And keeps doing so through any run that neither deletes the session nor renews its keys for less |
| Resolving.FirstOfUnique | app/vault/redis_vault.py:484-504 | Leaving out repeated entries changes no key's first value |
| RoundTrip.ResolutionSucceeds | app/restoration/pipeline.py:108-131 | On a protected text with quiet untouched pieces no lookup is refused, and nothing is unknown under FAIL |
| RoundTrip.PiecesComeBack | app/restoration/pipeline.py:144-187 | Restoring such a text puts every value in its token's place and leaves the rest |
| RoundTrip.ProtectThenRestore | app/restoration/pipeline.py:108-165 | Whatever other callers do meanwhile, restoring a protected message within its TTL gives the message with each tokenised span replaced by the first value its session stored for that identity and each redaction left |
| Lossless.OutcomeExact | app/tokenization/tokenizer.py:98-161 | Protecting ends with the bounds, limit or block error and an untouched vault, or the vault's refusal, or that of an unprintable redaction, exactly in their cases and in this order, and otherwise succeeds |
| Lossless.SucceedsIff | app/tokenization/tokenizer.py:98-161 | It succeeds exactly when all those checks pass |
| Lossless.ProtectKeepsOwnPrints | app/tokenization/tokenizer.py:230-250 | Protecting, whether or not it succeeds, keeps every stored value under its own fingerprint |
| Lossless.LossKeepsOwnPrints | app/vault/redis_vault.py:387-411 | So do the passing of time and deletion |
| Lossless.SpansReturnIff | app/tokenization/tokenizer.py:230-250 | Every span of a message protected by tokens alone stands for its own text exactly when each key named has one value, in the message and in what the session stored |
| Lossless.RestoresOriginal | app/restoration/pipeline.py:108-165 | Such a message is restored character for character, whatever other callers do meanwhile |
| Lossless.SharedPrintIsLost | app/tokenization/tokenizer.py:239-250 | Of two different values with one fingerprint, one alone or the two side by side is a message that does not come back |
| Lossless.LosslessIff | app/tokenization/tokenizer.py:230-250 | For any values that include what the session holds, every message over them comes back exactly when no two of them share a type and a fingerprint |
| Pipeline.GuardRequest | app/pipeline/service.py:339-356 | The three guards over the whole request return the specified verdict, in order |
| Pipeline.EnforceEntityBudget | app/pipeline/guards.py:83-94 | The total over all messages is refused exactly when it exceeds the budget |
| Pipeline.RejectBlockedEntities | app/pipeline/guards.py:115-133 | A request is blocked exactly when some selected span of some message is |
| Pipeline.SecurePipeline.Protect | app/pipeline/service.py:249-271 | Guards, then message after message: result and store are as specified |
| Pipeline.RefusedIffGuarded | app/pipeline/service.py:339-386 | A request ends with a bounds, limit or block error exactly when the guards raise it, and then the vault is as it was |
| Pipeline.RequestSucceedsIff | app/pipeline/service.py:358-401 | A request is protected exactly when the guards pass and each message passes on its own |
| Pipeline.RequestCounts | app/domain/models.py:223-239 | The merged counts balance, equal the spans selected over all messages, and stay within the policy's and the deployment's ceilings |
| RequestLaws.RequestMessages | app/pipeline/service.py:358-401 | Every message sent has its own role and, for content, its own protected text, made on the store that the messages before it left |
| RequestLaws.RequestFails | app/pipeline/service.py:358-401 | A request that passes the guards and still fails ends with the error of its first message that cannot be protected, leaving in the vault what that message and the earlier ones left |
| RequestLaws.VerdictExact | app/pipeline/guards.py:56-133 | The guards refuse a span outside its message, else more spans over all messages than policy or deployment allows, else a selected span of a blocked type |
| RequestLaws.RequestTallied | app/domain/models.py:223-239 | The request's counts are, action by action and type by type, the sums over its messages |
| RequestLaws.RequestScanned | app/pipeline/service.py:358-401 | In every message sent the scanner finds the message's own whole tokens and the minted ones, range by range, and nothing else |
| RequestLaws.RequestNonInterference | app/pipeline/service.py:358-401 | Requests that differ only in the values replaced send the same messages |
| RequestLaws.RequestRestores | app/pipeline/service.py:358-454 | Any message of a request restores within its TTL, whatever the others and other callers do, to its own text with first stored values, and to itself character for character when each key has one value |
| RequestLaws.OneValueEach | app/pipeline/service.py:358-401 | One value per key over the whole request and what the session held gives each message one value per key |
| RateLimit.SlotTextInjective | app/auth/rate_limit.py:210-214 | No two buckets share a key |
| RateLimit.RedisRateLimiter.Acquire | app/auth/rate_limit.py:217-291 | Trim both sets, then add to both or to neither: sets and decision are as specified |
| RateLimit.InMemoryRateLimiter.Acquire | app/auth/rate_limit.py:344-384 | The dictionary limiter does what its step specifies |
| RateLimitLaws.WindowIsRecent | app/auth/rate_limit.py:252-276 | Neither trimming nor the expiry of a whole key changes any later window |
| RateLimitLaws.SlidingWindowSafety | app/auth/rate_limit.py:243-291 | In every run on a clock that never goes back, no API key and no tenant is admitted more than its limit in any (t - 1000 * windowSeconds, t] milliseconds |
| RateLimitLaws.DecisionExact | app/auth/rate_limit.py:217-291 | Every decision is told from the earlier ones: denied exactly when the API key, or else the tenant, was admitted its limit in the last windowSeconds seconds; else admitted with the room of the tighter bucket; the configured answer while the store is down |
| RateLimitLaws.FailClosedAdmits | app/auth/rate_limit.py:133-150 | With a limiter that fails closed, the requests let through are exactly those admitted by their windows |
| RateLimitLaws.AdmitsBothOrNeither | app/auth/rate_limit.py:243-291 | Admission adds its moment to both buckets, denial to none, and no other bucket changes |
| RateLimitLaws.RetryAdviceExact | app/auth/rate_limit.py:180-184 | After a denial and no admission to that bucket, it still shows its limit of admissions after s whole seconds exactly when s is less than the advice |
| RateLimitLaws.LimitersAgree | app/auth/rate_limit.py:344-384 | On a shared whole-millisecond clock both limiters make the same decisions for every history |
| PolicyCache.PolicyService.CompleteLookup | app/policy/service.py:168-193 | After its await a miss stores, drops or leaves the entry as specified, with a life counted from its start |
| PolicyCache.StalenessBound | app/policy/service.py:168-193 | Under every interleaving a snapshot returned was the tenant's active policy less than one TTL earlier or during that call |
| PolicyCache.CachedUntilExpiry | app/policy/service.py:168-193 | A lookup that ends with a valid row returns its snapshot, and so do all later ones at once until a TTL after it began; one that ends without a row leaves no entry |
| PolicyCache.InvalidationPromptIff | app/policy/service.py:145-193 | After an invalidation or a clear, however the run goes on, only policies active since are returned to the tenant exactly when each of its lookups in flight is unanswered, answered with none or an invalid one, or answered with the active one |
| PolicyCache.MissOutlivesInvalidation | app/policy/service.py:168-193 | A run in which a miss answered before the change makes a later hit return a policy active at no moment since the invalidation |
| AuditQueue.AuditService.SubmitRecord | app/audit/service.py:236-272 | A submission is enqueued, dropped or refused at once, as specified |
| AuditQueue.AuditService.FinishWrite | app/audit/service.py:300-323 | A write's end sets or clears the degraded state and is counted |
| AuditQueue.EnqueuedIsAccountedFor | app/audit/service.py:191-323 | The queue keeps its bound, and what was enqueued is, in order, what was handled, what is in flight and what is queued; the counters add up until a worker is cancelled |
| AuditQueue.EnqueuedIsWhatWasTaken | app/audit/service.py:236-272 | What was enqueued is, in order, the records of the submissions accepted or raised as degraded, each with its caller's request id, payload and time, or the moment of submission |
| AuditQueue.AnswerExact | app/audit/service.py:236-333 | Every submission is refused when stopped, else when saturated, raising or dropped as configured, else raises after a failed write when failing closed, else is accepted |
| AuditQueue.CountersExact | app/audit/service.py:191-333 | The counters are the numbers of records taken, writes that ended well and badly, submissions raised, and submissions dropped plus records undelivered at a cancel |
| AuditQueue.RaisesIff | app/audit/service.py:236-272 | A submission raises exactly when failing closed and stopped, saturated, or with no successful write since the last failed one |
| AuditQueue.RefusedUntilWritten | app/audit/service.py:263-272 | Failing closed, every submission between a failed write and the next successful one raises |
| PolicyLifecycle.PolicyRepository.NextVersion | app/repositories/policies.py:226-235 | The number is one above the highest version of any status |
| PolicyLifecycle.PolicyRepository.CreateDraft | app/repositories/policies.py:237-255 | A draft opens at the next version exactly when none is open |
| PolicyLifecycle.PolicyRepository.PublishDraft | app/repositories/policies.py:277-303 | Publishing changes the draft and the active flags of its name, and nothing else |
| PolicyLifecycle.RunKeepsPublished | app/repositories/policies.py:226-303 | In every run versions stay unique, a name has at most one draft, and a published row changes only in its active flag |
| PolicyLifecycle.RunCarriesGiven | app/repositories/policies.py:237-303 | In every run from an empty table each row has the tenant, name and number it was opened with and the document last given to it while it was the draft |
| PolicyLifecycle.PublishActivatesOne | app/repositories/policies.py:277-303 | After publishing exactly one row of the name is active, the one published, and other names are untouched |
| PolicyLifecycle.ActivateActivatesOne | app/repositories/policies.py:172-191 | Activating a version makes it the one active row of its name and changes nothing else |
| PolicyLifecycle.RunKeepsNewestActive | app/repositories/policies.py:226-303 | In every run of the draft operations a name has at most one active row, its newest published version |
| PolicyLifecycle.EditKeepsPublishedIff | app/repositories/policies.py:257-267 | Editing the row an earlier read found keeps published rows as they are exactly when it is still a draft or the edit is idle |

## Left out

- Presidio, spaCy and the recognizer patterns: detections are arbitrary input.
- FastAPI routes, authentication, S3, the OpenAI adapter, metrics, logging, settings loading and the frontend.
- Deadlines and cancellation of a stage: a request that times out between two messages leaves the mappings of the first.
- Redis outages, `WATCH` retries, eviction, and skew between the Redis clock and the limiter's own.
- VaultEquivalence.RunInStepIff: excludes writes that Redis alone refuses (a TTL over 7200 seconds, more than 10000 entries, an empty fingerprint), because the in-memory vault has no such limits; `WriteAnswersAgreeIff` says those are the only writes the two answer differently.
- Text is a sequence of Unicode scalar values: a Python string with lone surrogates, which UTF-8 encoding rejects, is not modelled.
- Page numbers of segments, timestamps inside vault records, provider usage figures, and replies whose content is not text.
- Scores are reals. The `ceil` of a float division in `_retry_after` is taken as exact.
- RoundTrip.ProtectThenRestore: excludes PSEUDONYMIZE, whose surrogates are not tokens and are not meant to come back; `SpanLaws.SpanBySpan` says what stands in their place.
- Protection.NonInterference: excludes PSEUDONYMIZE, whose surrogate may depend on the value.
- Authorization of a provider and model in `resolve`, message-size limits and provider response checks: easy guards over one value.
- The built-in default policy with no tenant, and table reads that only query.
- Transactions of the policy repository are committed one after another; `EditKeepsPublishedIff` says what an edit split from its read would need.
- Generating the previews, digests and audit drafts that are copied field by field.
