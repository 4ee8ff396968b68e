# Verification of go-oauth2-kerberos-exchange

A Dafny 4.11 model of the parts of the library that carry a claim of their own,
with proofs of those claims. A token comes in and a scoped, time-capped,
correctly framed Kerberos credential comes out:

- **The exchange and its cache.** `Exchanges` is `Service.Exchange` as a step
  system: any number of exchanges, each with its own program counter, share one
  store and a clock that never goes back, and only the cache's `Get` and `Put`
  are atomic. `Guarantees` holds for every interleaving. `Sequential` runs whole
  calls one after the other and proves what only holds then; every such run is
  shown to be one of the interleavings. `SingleFlight` proves the validity windows
  disjoint for every interleaving with one flight per key. `Services` and `MemoryCaches` are the
  imperative classes, proved against the same functions, and `Minting` is what
  happens between the cache lookup and the cache store.
- **PAC authorization.** `Claims`, `Scopes`, `Rids`, `ByteXor` and `PacBuilder`:
  from parsed claims to the deduplicated RID list of the PAC.
- **DER lengths and GSSAPI framing.** `DerLengths`, `GssTokens`, `DerForests` and
  `DerLevels`: the length encoder against the two decoders of the test suite.
- **Textual forms.** `Principals`, `Outputs`, `CacheKeys`, `Requests`, `Decimal`,
  `DomainSids`, `WhiteSpace` and `GoStrings`: parsers, printers and the cache key.
  A Go string is any sequence of bytes.

Check everything with `dafny verify dfyconfig.toml`.

## Where the code and its documentation differ

The model follows the code. Each difference has a lemma with a concrete case and
a lemma with the exact condition.

- cache.go:56-57 says no two distinct triples share a cache key. A NUL in a
  subject together with a NUL in an SPN can make them share one
  (`CacheKeys.KeyCollision`). `CacheKeys.Collisions` lists all collisions and
  `CacheKeys.SeparatesIff` says for exactly which sets of subjects there is none.
- scopefilter.go:19-20 says each admitted group comes out at most once. A
  repeated claim group comes out twice (`Scopes.RepeatedGroupAdmittedTwice`); the
  promise holds exactly when no admitted name is repeated
  (`Scopes.ConfigMapFilter.AtMostOnceIff`). `Build` removes the repetition later.
- identity.go:19-20 says the issued ticket never outlives the token. A cache hit
  can (`Sequential.HitOutlivesToken`), exactly when the cache holds a live entry
  that expires later than the token (`Sequential.OutlivesTokenIff`).
- README.md:147-149 says a narrowly-scoped token yields a correspondingly
  narrowed credential. A cache hit returns the groups of the token that caused
  the mint, whatever the scope now presented (`Sequential.HitIgnoresNarrowerScope`).
  `Sequential.GroupsFitTokenIff` gives the exact condition on the cache.
- claimsmap.go:59-60 says the array path drops entries "to match string-path
  behaviour". A tab is dropped from an array and kept from a string
  (`Claims.TabReadsDifferently`); `Claims.SpellingsAgreeIff` says for exactly which
  elements the two agree.
- pacbuilder.go:223 keeps the sub-authority count in one byte, so a text with 256
  sub-authorities is accepted with count 0 (`DomainSids.CountWraps`); the result
  is a well-formed SID exactly when there are at most 255
  (`DomainSids.PrintParse`).
- pacbuilder.go:235-236 speaks of about 2684 bands; the bound proved is 2685.

## Model

| member | source | states |
|---|---|---|
| Guarantees.ReturnedIsRight | service.go:26-63 | in every interleaving, a returned credential is for the subject and target asked for, carries exactly the representation asked for, made of the bytes the library encoded for its own ticket (for an AP-REQ, the standard GSSAPI token that strips back to them), and was unexpired at its cache hit or mint; only for a hit must the keys be apart (targets from the parser, and no ambiguous subjects or no NUL in an SPN) |
| Guarantees.StoredIsRight | service.go:59-61 | in every interleaving whose keys are apart, the entry stored under an exchange's key was minted by an exchange with the same subject, target and output |
| Guarantees.SameKeySameRequest | cache.go:52-60 | while the keys are apart, a shared key is a shared subject, target and output |
| Guarantees.ExpiryIsLeastBound | service.go:41-48 | a returned credential expires, after its mint, at the least of the limits its minting exchange had, and there was one; for hits too |
| Guarantees.NoBoundNoTicket | minter.go:106-112 | with neither a token expiry nor a maximum lifetime the mint fails |
| Guarantees.MintStepIff | service.go:41-54 | an exchange that missed gets a ticket exactly when there is a limit and the least one lies ahead, a key is at hand and the claims map; otherwise it fails |
| Guarantees.RenderStepIff | service.go:55-58 | a ticket becomes a credential exactly for a defined output and a successful encoding; otherwise the exchange fails |
| Guarantees.PacIsMintersOwn | minter.go:173-191 | the PAC in a returned ticket is built from the minting token's claims, and for a fresh mint that is the presented token |
| Guarantees.CredentialDescribesTicket | minter.go:144-233 | client, service, realm, key and lifetime of the credential and of the ticket it wraps agree, the start time defaults to the authentication time, and the PAC names the same user at that time |
| Guarantees.StoreEffect | cache.go:31-50 | the only changes to the store are dropping one expired entry at a lookup and the Put of an exchange that then returns what it put |
| Guarantees.FailedNeverStored | service.go:27-62 | in every run, an exchange that ends in failure never reached its Put |
| Guarantees.FinishedStays | service.go:26-63 | a finished exchange's result never changes |
| Guarantees.OneCredentialEach | service.go:55-62 | no exchange makes two credentials, and one that hits the cache makes none |
| Exchanges.StepKeepsInv | service.go:26-63 | every step of every exchange keeps the invariant on records, store and program counters |
| Exchanges.RunKeepsInv | service.go:26-63 | every interleaving keeps the invariant |
| Exchanges.ReachableInv | service.go:26-63 | the invariant holds in every reachable state |
| Exchanges.TicketMeaning | service.go:37-51 | a minted ticket names the subject, starts now, ends at the capped time, and that lies strictly later |
| Sequential.CallIsARun | service.go:26-63 | one sequential call is an interleaving in which nobody else moves |
| Sequential.CallsReachable | service.go:26-63 | a sequence of calls leads to a reachable state, so every guarantee applies to it |
| SingleFlight.DisjointWindows | service.go:31-61 | the same disjointness in every interleaving in which no exchange looks a key up while another is between its miss and its Put or failure for that key |
| SingleFlight.StepKeepsSolo | service.go:31-61 | each guarded step keeps every unexpired credential in the store or about to be put there, keys in flight distinct, and windows disjoint |
| Sequential.DisjointWindows | service.go:31-36 | in a sequential run with a cache, no instant lies in the validity windows of two credentials made under one key |
| Sequential.CallKeepsExclusive | cache.go:38-41 | a call keeps every unexpired credential in the store and every older one for its key expired before the new one was minted |
| Sequential.RepeatHits | service.go:32-36 | whatever is called in between, asking again for the same subject, target and output, with any token, returns the identical credential without minting until it has expired |
| Sequential.ReturnsIff | service.go:26-63 | a whole call returns a credential exactly when the token is valid and either the cache holds a live entry or a least limit lies after the mint, the claims map, the output is defined and the libraries succeed |
| Sequential.LiveEntryStays | cache.go:31-43 | a live entry survives every call, and a call under its key returns it |
| Sequential.OutlivesTokenIff | service.go:32-36 | the result outlives the presented token exactly when the cache holds a live entry that does |
| Sequential.GroupsFitTokenIff | service.go:32-36 | the returned ticket grants only RIDs the presented token earns exactly on a miss or when the token behind the cached entry earns no others, and all of them exactly when the two earn the same |
| Sequential.ConcurrentWindowsOverlap | service.go:32-61 | two interleaved exchanges for one key both mint, with coinciding windows |
| Sequential.HitOutlivesToken | identity.go:19-20 | a token that expires at 10 is given a credential that expires at 100 |
| Sequential.HitIgnoresNarrowerScope | README.md:147-149 | with a scope filter, a token without the scope is given the ticket, with the scope's group, of an otherwise equal token that had it |
| Services.Service.Exchange | service.go:26-63 | the imperative exchange is one call of the sequential model: same result, same store, same records |
| MemoryCaches.MemoryCache.constructor | cache.go:25-27 | a new cache is empty and agrees with the empty log |
| MemoryCaches.MemoryCache.Get | cache.go:31-43 | the answer is the append-only log's; at most the expired entry asked for is dropped |
| MemoryCaches.MemoryCache.Put | cache.go:46-50 | the entry is replaced and the log extended |
| MemoryCaches.EvictionInvisible | cache.go:17-43 | over every history with a clock that never goes back, the cache answers as a log that never evicts |
| MemoryCaches.EvictionInvisibleIff | cache.go:31-50 | over every history, whatever the clock does, the cache answers as the log exactly when no Get asks for an evicted entry at or before its expiry |
| MemoryCaches.SameAnswersIff | cache.go:31-50 | the same from any store, evicted entries and log that account for each other |
| MemoryCaches.BackwardClockReveals | cache.go:38-41 | a clock that goes back makes the eviction visible |
| Minting.CapEndIsLeastBound | service.go:41-48 | the end time asked for is the least limit present, and the zero time when there is none |
| Minting.MintSucceedsIff | minter.go:106-191 | a ticket is minted exactly when the end time is set and after the authentication time, a key is at hand and the claims map if a PAC is wanted |
| Minting.MintedFields | minter.go:144-233 | what a minted ticket says: the names, times and key given, an empty realm replaced by the minter's, an open start by the authentication time, and the PAC of the identity if and only if a builder is set |
| Minting.DirectMinter.Mint | minter.go:99-234 | the imperative mint succeeds exactly then, and its result is the ticket that MintedFields describes |
| Minting.CredentialOf | issue.go:10-30 | a credential is made exactly for a defined output and a successful encoding, and carries that representation alone, with the first component of the client name and the ticket's target and end time; its bytes are the encoding itself for a cache, and for an AP-REQ the GSSAPI token that encloses and strips back to it |
| PacBuilder.BuildAuthorizes | pacbuilder.go:95-177 | the RIDs are distinct, the primary leads, and the set is the primary and, of each claim group some granted scope lists, the override if the table has one and else the synthetic RID; the PAC names the subject in the builder's domain at the authentication time, and every group carries the three standard attributes |
| PacBuilder.BuildKeepsOrder | pacbuilder.go:100-115 | after the primary the RIDs follow the claim: of two, the one whose first group in scope comes first |
| PacBuilder.GroupCountIff | pacbuilder.go:141-142 | the 32-bit count equals the list's length unless all RIDs there are were listed, and always without overrides |
| PacBuilder.NoneLostToPrimary | pacbuilder.go:107-117 | without overrides and with a primary below 1000, the list is the primary and then the deduplicated group RIDs, and the user's RID is not the primary's |
| PacBuilder.ScopesCombine | scopefilter.go:21-35 | the RIDs earned by two scope lists together are those earned by either: more scopes never remove a RID |
| PacBuilder.FilterNarrows | pacbuilder.go:95-98 | the RIDs with a filter are among the RIDs without one |
| PacBuilder.ScopeOrderIrrelevant | scopefilter.go:22-27 | permuting or repeating scopes leaves the RID sequence as it is |
| PacBuilder.KeepFirstMeaning | pacbuilder.go:107-115 | the deduplicated list has the same members, each once, in order of first occurrence |
| PacBuilder.Build | pacbuilder.go:85-177 | the imperative build computes the PAC that BuildAuthorizes and BuildKeepsOrder describe, and fails exactly when the mapper does |
| PacBuilder.CollectGroups | pacbuilder.go:100-115 | the loop with its seen map computes the keep-first list |
| Scopes.ConfigMapFilter.Admit | scopefilter.go:21-35 | the nested loops return the candidates that AdmittedInOrder describes |
| Scopes.ConfigMapFilter.AdmittedInOrder | scopefilter.go:28-34 | the result is what stands at increasing positions of the candidates, and these are the positions of all candidates some granted scope lists |
| Scopes.ConfigMapFilter.AdmittedCount | scopefilter.go:28-34 | each name comes out as often as it went in, or never |
| Scopes.ConfigMapFilter.AtMostOnceIff | scopefilter.go:19-20 | the promised "at most once" holds exactly when no admitted candidate is repeated |
| Scopes.RepeatedGroupAdmittedTwice | scopefilter.go:29-33 | a repeated candidate comes out twice |
| Rids.OneByteApart | pacbuilder.go:244-248 | names that differ in exactly one byte never share a RID |
| Rids.SuffixReflectsCollision | pacbuilder.go:244-248 | a common suffix neither makes nor breaks a collision |
| Rids.PrimeCancels | pacbuilder.go:244-248 | multiplying by the FNV prime loses nothing modulo 2^29 |
| Rids.HashReflects | pacbuilder.go:244-248 | hashing the same bytes keeps equal states equal and distinct ones distinct, modulo 2^29 |
| Rids.FewBands | pacbuilder.go:229-238 | however many names there are, their RIDs lie in at most 2685 bands of width 200000 |
| Rids.Rid | pacbuilder.go:240-248 | a RID less 1000 is the hash modulo 2^29, so it lies in [1000, 1000 + 2^29) and fits 32 bits |
| Rids.RidMeaning | pacbuilder.go:244-248 | the hash is a multiple of 2^29 and the RID less 1000 |
| Rids.KnownRid | pacbuilder.go:244-248 | the RID of "a" is 67906836 |
| Rids.HashOneMore | pacbuilder.go:245-247 | one more byte is combined by exclusive or, bit by bit, with the low byte of the hash, and the result multiplied by the FNV prime modulo 2^32 |
| Rids.KnownHashes | pacbuilder.go:245-247 | the hash has the values published for the empty string and for "a" |
| Rids.RidFromName | pacbuilder.go:244-248 | the hasher loop computes the RID that RidMeaning and HashOneMore fix |
| Rids.Hasher.Write | pacbuilder.go:245-246 | writing bytes folds them into the state |
| Claims.FactsMeaning | claimsmap.go:26-46 | the mapper fails exactly for malformed claims or when either claim is neither a string nor a list of strings; otherwise groups come from the configured claim or "groups" and scopes from "scope", each list being the non-blank strings of an array in order or what stands between the separators of a string |
| Claims.SeparatorsAre | claimsmap.go:71-76 | a string is split at spaces and commas and at no other byte |
| Claims.ArrayAndStringAgree | claimsmap.go:52-79 | tokens give the same list as an array and as one string with any mix of spaces and commas between them |
| Claims.SpellingsAgreeIff | claimsmap.go:59-60 | for any elements, the array and the delimited string give the same list exactly when each element is non-blank and separator-free or made of spaces |
| Claims.TabReadsDifferently | claimsmap.go:59-60 | a tab is dropped from an array and kept from a string |
| Claims.FieldsOfWeave | claimsmap.go:71-76 | splitting a woven string returns its tokens |
| Claims.FieldsWeaveBack | claimsmap.go:71-76 | every string is its fields woven with gaps of separators, and every field is non-empty and free of separators |
| Claims.StringOrList | claimsmap.go:52-79 | the imperative parse computes the list, or the error for other types |
| Claims.FilterLoop | claimsmap.go:59-64 | the loop keeps exactly the elements that pass the test, in order |
| Claims.Map | claimsmap.go:26-46 | subject, groups from the configured or default claim, scopes from "scope", or an error |
| DerLengths.DerLength | apreq.go:60-78 | the buffer filled from the back is the DER length field of n |
| DerLengths.LenDERLen | apreq.go:81-91 | the number of bytes derLength produces |
| DerLengths.CountBytes | apreq.go:65-70 | the counting loop counts the significant bytes |
| DerLengths.FillBackwards | apreq.go:73-76 | the filling loop writes them big-endian and leaves the first byte alone |
| DerLengths.ReadEncode | minter_test.go:219-228 | reading a written length yields it and consumes exactly its field, whatever follows |
| DerLengths.PrefixFree | apreq.go:60-78 | no length field starts the field of another length |
| DerLengths.UniqueShortest | apreq.go:58-78 | the field is a definite form, none is shorter, and none other is as short |
| DerLengths.ReadLength | minter_test.go:219-228 | the shifting loop reads the announced bytes into a 64-bit int that wraps |
| GssTokens.FrameToken | apreq.go:44-55 | appending yields 0x60, length, OID, token id, payload |
| GssTokens.StripFrame | apreq_test.go:52-74 | stripping a framed token returns the payload, and the declared length is the number of bytes that follow |
| GssTokens.FrameEncloses | apreq.go:16-55 | a framed token is 0x60, the shortest length of what follows, an object identifier whose arcs are 1.2.840.113554.1.2.2, 01 00 and the payload |
| GssTokens.StripAcceptsExactly | apreq_test.go:52-74 | exactly which tokens are stripped to which bytes: any object identifier below 256 bytes, any token id, and a length field of which only the size matters |
| GssTokens.FrameInjective | apreq.go:44-55 | different payloads give different tokens |
| GssTokens.StripToken | apreq_test.go:52-74 | the cursor computes the strip function, failures and panics included |
| DerForests.WalkForest | minter_test.go:212-244 | on an encoded forest the walker returns exactly its GeneralizedTime leaves, in order, and looks into no other primitive |
| DerLevels.WalkIff | minter_test.go:212-244 | on every byte string the walk finds given values exactly when the bytes can be read as nodes with length fields of any size, each level ending in nothing or an incomplete node, that have these as their GeneralizedTime leaves in order |
| DerLevels.CutFieldReadsEmpty | minter_test.go:224-232 | a length field cut short by the end of the input still makes an empty value if all it has is zero |
| DerForests.PanicsIff | minter_test.go:216-241 | on every byte string the walk panics exactly when a header it reads has a length whose last eight bytes, unsigned, reach past the largest int counted from the end of the field |
| DerForests.HeaderFitsIff | minter_test.go:221-232 | for one header, that condition is exactly when the slice expression does not panic |
| DerForests.ShortHeadersNeverPanic | minter_test.go:216-233 | in particular, a walk that reads only lengths of at most seven bytes never panics |
| DerLengths.WrapOfLastEight | minter_test.go:224-227 | shifting any number of bytes into the int leaves what the last eight say |
| DerForests.EightByteLengthPanics | minter_test.go:221-232 | an eight-byte length can turn negative and make the walker panic |
| DerForests.TimeCollector.Walk | minter_test.go:214-241 | the recursive closure appends what the walk function finds |
| DerForests.ReadHead | minter_test.go:217-232 | one header: contents, end of the level, or panic |
| DerForests.CollectGeneralizedTimes | minter_test.go:212-244 | the whole walk |
| CacheKeys.Collisions | cache.go:52-60 | two requests share a key exactly when they are equal or one subject continues the other by a NUL and text that its SPN then lacks |
| CacheKeys.SeparatesIff | cache.go:56-57 | exactly which sets of subjects keep all keys apart, whatever parsed SPNs and outputs are asked for |
| CacheKeys.KeySeparates | cache.go:56-60 | keys are apart when the subjects have no NUL or the SPNs have none |
| CacheKeys.KeyCollision | cache.go:56-57 | two different requests that share a key |
| Principals.ParseAcceptsExactly | principal.go:37-47 | accepted are exactly the strings whose part before the first "@" is two non-empty pieces around the only slash |
| Principals.ParsePrint | principal.go:29-47 | parsing inverts printing on exactly the principals parsing can produce |
| Principals.PrintParse | principal.go:29-47 | printing inverts parsing but for a bare trailing "@" |
| Principals.ParseImage | principal.go:42-46 | what parsing produces has separator-free, non-empty service and host |
| Outputs.PrintInjective | tokentype.go:33-42 | different outputs print differently, undefined ones included |
| Outputs.TokenTypeMeaning | tokentype.go:58-67 | which token types ask for a cache, the empty one among them, and which for an AP-REQ, and that others are refused |
| Outputs.FromTokenTypeInverts | tokentype.go:45-67 | reading a token type inverts writing it for exactly the defined outputs |
| Requests.ClientRoundTrip | request.go:33-53 | the server recovers what the client's form asks for, exactly for a non-empty token, a parsable target and a defined output, and audiences sent along would change nothing |
| Requests.RefusedIff | request.go:33-53 | each of the five errors is returned exactly for its own reason when none before it applies, and every other request is accepted |
| Requests.AcceptedMeaning | request.go:41-52 | an accepted request has the token as given, the output its token type names, and the principal parsed from the first non-empty resource or audience |
| Requests.ResourceBeforeAudience | request.go:44-51 | the target is the first non-empty resource, else the first non-empty audience |
| Requests.FirstNonEmpty | request.go:55-64 | the nested loops return the first non-empty string of the concatenated groups |
| Requests.First | request.go:55-64 | the result is empty exactly when all are, and otherwise only empty strings precede it |
| Requests.ExchangeRequestFromWire | request.go:33-53 | the guards compute the result that RefusedIff and AcceptedMeaning describe |
| DomainSids.ParseAcceptsExactly | pacbuilder.go:181-227 | a text is accepted, and as which SID, exactly when between white space it is "S-1-", an authority of at most 255 and four or more 32-bit sub-authorities, all in decimal digits with any leading zeros |
| WhiteSpace.TrimIs | pacbuilder.go:182 | what is trimmed is Unicode white space in UTF-8, and none is left at either end |
| WhiteSpace.TrimUnique | pacbuilder.go:182 | nothing but the white space around a trimmed string is dropped |
| DomainSids.ParsePrint | pacbuilder.go:181-227 | parsing inverts printing for authority at most 255 and 4 to 255 sub-authorities |
| DomainSids.PrintParse | pacbuilder.go:181-227 | an accepted text prints back to itself up to surrounding space and leading zeros, and is a well-formed SID exactly with at most 255 sub-authorities |
| DomainSids.CountWraps | pacbuilder.go:221-226 | the text with 256 sub-authorities is accepted with count 0 |
| DomainSids.ParseDomainSID | pacbuilder.go:181-227 | the guards compute the parse function |
| DomainSids.ParseSubAuthorities | pacbuilder.go:205-213 | the loop fills in every sub-authority, or fails at the first bad one |

## Left out

- Cryptography, ASN.1 codecs, keytabs, ccache and PAC marshalling and signing: their results are inputs of the model; a ticket shows what it encloses, and a successful encoding is assumed non-empty.
- Token validation (jwksvalidator.go, introspection.go, validator.go): any verdict may come at any time.
- HTTP handling, base64 and form encoding (httpexchange) beyond the client's form fields, and the command.
- error_mapping.go: one switch that maps nearly every error to the same code.
- JSON text: the model starts from a parsed value; custom claims mappers, scope filters, resolvers, minters and caches are not modelled, only the ones in the repository.
- Error texts: where the source returns differently worded errors the model has one error, except for the five kinds of request error.
- Credential pointers are modelled by a serial number; concurrent exchanges are modelled on values, in the step system, while the classes run sequentially.
- Instants are unbounded integers: adding the maximum lifetime does not saturate, and conversion to UTC is the identity.
- UTF-16 length fields, file times and the constant fields of the PAC.
- Sequential.DisjointWindows: speaks of credentials; a ticket that was minted but failed to encode is discarded and not counted.
- Rids.Hasher.Write: the hash/fnv package is not part of this repository; its FNV-1a loop is taken from section 2 of draft-eastlake-fnv.
