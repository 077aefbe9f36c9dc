# Verification of OID4VCgo's engines

A Dafny model of the engines inside OID4VCgo that carry run-level or semantic properties, and proofs of
those properties:

- `dcql`: which sets of answered credential queries a query permits, decided by a backtracking exact-cover
  search with a budget (`AnsweredSets`); the claims path language and `Covers` (`ClaimsPaths`); what a Wallet
  selects and a Verifier accepts (`ClaimSelection`). OpenID4VP 1.0 sections 6.4 and 7.1.
- `certrevocation`: the verdict on a chain and the indexed form of the check (`RevocationLists`), concurrent
  refresh passes with rollback floors (`CrlRefresher`), and when passes run (`RefreshSchedule`). RFC 5280
  section 5.
- `issuer`: deferred transactions (`DeferredTransactions`) and the re-check of their keys (`DeferredTrust`),
  c_nonces (`Nonces`) and the rotation of their keys (`NonceKeyRotation`), pre-authorized codes
  (`PreAuthorizedCodes`), and a Credential Request's proofs and batch (`CredentialProofs`). OpenID4VCI 1.0
  sections 6.1, 7, 8.2 and 9.
- Authorization details, their narrowing and what a token lets a request have (`AuthorizationDetails`).
- `identifierlist`: the list's encoding and look-up (`IdentifierLists`) and checks from a cache
  (`IdentifierListChecks`). ISO/IEC 18013-5 section 12.3.6.4.

`Encodings` holds the byte encodings these share, `ByteOrder` the order of byte strings, `Durations` and
`Wrappers` what their names say. `dafny verify dfyconfig.toml` checks the whole project.

Protocols are state machines: a `Step` is one visit of one party to the shared state, and the results are
about every sequence of steps, so about every interleaving. Stores and engines that the source updates in
place are classes whose methods are proved equal to the functions the results are about. Signatures, HMACs
and chain verification are function parameters, about which only named assumptions are made (a tag is 32
bytes, a parsed certificate's bytes decide its verification, no list verifies under two issuers' keys). Times are
integers, in nanoseconds where the source computes with durations; a clock, randomness and a network's answer
are inputs.

## Where the code and its documentation differ

The model follows the code. Each of these has a lemma that gives an input and one that says exactly when the
documented property holds.

- `Covers` says p selects everything q does. It decides inclusion of locations, but p's evaluation may fail,
  for a sibling of the wrong kind, where q's succeeds (`CoversMayFailAlone`, `CoversSucceeds`,
  `CoversWithoutWidening`). For the same reason a Verifier may refuse a credential its Wallet selected from
  (`WholeCredentialRefused`, `SatisfiedIffWellShaped`, `SatisfiedIffSomeOption`).
- A losing `IssueDeferredCredential` is documented to return `ErrDeferredTransactionResolved`; once a poll has
  collected the credentials it returns an unknown transaction (`LosingIssueMayFindItUnknown`,
  `HowAnIssueEnds`).
- The deferred re-check reads verdicts off what errors wrap, so a dependency's error that wraps the issuer's
  own sentinels changes the decision (`WrappedVerdictDenies`, `DecidedByTheWorst`).
- A stateless c_nonce is to be used once and is spent by its string, on the premise that no other string
  decodes to its bytes; Go's decoder skips CR and LF, so a replica that accepts a c_nonce accepts it again with
  a line break after it (`LineBreakAcceptedAgain`). Each c_nonce, by its bytes, is accepted once in every run if
  and only if no two strings the replicas are asked to check and accept differ in line breaks alone
  (`OncePerNonceIff`), as when none has a line break (`OnceWithoutLineBreaks`).
- The sweep margin of five minutes keeps a c_nonce spent, with sweeps that far ahead of the replicas' clocks, if
  and only if every request is recorded before its replica's clock passes the c_nonce's expiry; in general, if
  and only if how far ahead and how late come to no more than the margin (`OnceIffWithinMargin`,
  `SlowRequestAcceptedAgain`).
- An old nonce key may be dropped "once NonceLifetime has passed": strictly more than it has to, and more by
  the clocks' skew (`ShortWaitIsNot`, `SafeIffLongWait`).
- Restarting from the last accepted lists restores the floors only where the last one is numbered, or none was
  (`RestartKeepsFloor`); otherwise a list with a lower number may be accepted that was refused before
  (`RestartForgetsNumber`).
- An object no wider than another may still get a request more than the other does (`SeveralDetailsWiden`,
  `SharedIdentifierSwitches`). No narrowing of a token widens a request its details grant if and only if those
  details are in order: the first naming a configuration decides alike for all, and an identifier's holders
  name one configuration (`NeverWidensIffInOrder`), as with one detail per configuration and no shared
  identifier (`OnePerConfigurationIsOrderly`). A request that a scope grants may be widened too
  (`ScopeWidens`), and when it is not is exact as well (`ScopeWithinIff`).
- A check from the cache compares a list's size with the Fetcher's limit only, not with
  `Options.MaxTokenBytes` (`MemoIgnoresOptionsLimit`, `MemoAgrees`).

## Model

| member | source | states |
|---|---|---|
| AnsweredSets.CheckAnswered | dcql/answered.go:29-53 | returns no error exactly when the answered ids are all known and are just those of one option of each set, or of none of a set that says it is not required (all ids without sets), unless the search gave up; it gives up only when the sum of prefix products of choice counts exceeds 10000; and each other verdict names an id or set at fault |
| AnsweredSets.PermittedIff | dcql/answered.go:55-103 | what is permitted, said of the query and the answer alone: a set without `required` is required |
| AnsweredSets.PermittedIffFound | dcql/answered.go:105-136 | the search finds a cover exactly when one choice per set exists whose union is the answered ids |
| AnsweredSets.SearchCost | dcql/answered.go:121-136 | the search tries no more than its whole tree, and all of it exactly when it finds nothing |
| AnsweredSets.TreeSizeIsPrefixProducts | dcql/answered.go:107-136 | the tree has as many nodes as the sum of the prefix products of the choice counts |
| AnsweredSets.CoverExactly | dcql/answered.go:105-110 | the in-place search answers as the specification does, or gives up past the budget |
| AnsweredSets.Cover.Pick | dcql/answered.go:121-136 | backtracking in place: a failed branch leaves the counters as they were, a found one is the specification's, and every option tried is counted |
| AnsweredSets.Cover.Add | dcql/answered.go:138-142 | adding an option once and taking it away once cancel out, whatever else is counted |
| AnsweredSets.AnsweredOptions | dcql/answered.go:80-103 | each set's choices are its options answered whole, with none of them too when optional; every required set has one, or the first without any is named |
| AnsweredSets.NoChoiceForbids | dcql/answered.go:80-103 | refusing such a set is right: nothing then is permitted |
| AnsweredSets.UnreachableForbids | dcql/answered.go:41-46 | refusing an answered id outside every choice before searching is right: no cover includes it |
| ClaimsPaths.SelectMeaning | dcql/path.go:134-152 | evaluation succeeds exactly when the path is non-empty, crosses only values of the right kind and selects some location, and yields exactly the values there |
| ClaimsPaths.SelectPath | dcql/path.go:134-152 | the loop over components, its hard errors and its empty-selection error, is the specification |
| ClaimsPaths.SelectIndex | dcql/path.go:206-218 | selects that element of every array long enough, dropping the others silently, and fails exactly when some value is no array |
| ClaimsPaths.SelectWildcard | dcql/path.go:182-192 | selects every element of every array, in order, and fails exactly when some value is no array |
| ClaimsPaths.SelectKey | dcql/path.go:168-180 | selects the member of every object that has it, in order, and fails exactly when some value is no object |
| ClaimsPaths.WithIndicesWidened | dcql/path.go:195-204 | every index becomes a Wildcard and nothing else changes |
| ClaimsPaths.CoversIsInclusion | dcql/path.go:220-242 | for non-empty paths, Covers holds if and only if in every value every location q selects lies at or under one p selects |
| ClaimsPaths.CoversSucceeds | dcql/path.go:220-242 | where p covers q and q's evaluation succeeds, p's fails only for a value of the wrong kind, never for selecting nothing |
| ClaimsPaths.CoversWithoutWidening | dcql/path.go:220-242 | with no Wildcard of p over an index of q, q's success implies p's |
| ClaimsPaths.CoversMayFailAlone | dcql/path.go:182-204 | a value where p covers q, q's evaluation succeeds and p's fails |
| ClaimSelection.SelectionSatisfiesVerifier | dcql/meta.go:128-166 | what the Wallet selects, the Verifier accepts: in every presentation that keeps the selected paths and the types and is well shaped along the widened paths, possibly by an earlier claim_sets option |
| ClaimSelection.WalletSelectsIff | dcql/meta.go:128-145 | the Wallet selects from a credential if and only if one of its types is asked for and it holds every claim, or every claim of some claim_sets option, the first of which it selects; a claim is held where its path succeeds and, if it lists values, some location selected holds a string, boolean or number among them |
| ClaimSelection.VerifierSatisfiedIff | dcql/meta.go:153-172 | the Verifier accepts exactly what has a type asked for and holds those claims along the widened paths |
| ClaimSelection.SelectedIff | dcql/meta.go:235-313 | the same of any evaluation of paths: which option is selected, and which claims its ids name |
| ClaimSelection.HadIffHolds | dcql/values.go:19-43 | a value matches when it is, in type and value, one of those listed: said of the locations a path selects |
| ClaimSelection.OnlyKeptDisclosed | dcql/meta.go:147-153 | a presentation has nothing but what was kept: each value at a kept location within kept ones, at its place among the kept elements, unchanged if a scalar |
| ClaimSelection.SatisfiedIffWellShaped | dcql/meta.go:128-166 | without claim_sets, the Verifier accepts exactly the presentations well shaped along the widened paths |
| ClaimSelection.SatisfiedIffSomeOption | dcql/meta.go:235-274 | with claim_sets, a presentation of a Wallet's selection is accepted if and only if some option's claims are all present to the Verifier, and the selected option's are exactly when its widened paths are well shaped |
| ClaimSelection.KeptPathPresent | dcql/meta.go:297-313 | a claim present to the Wallet and kept is present to the Verifier, after array elements were dropped, exactly when what its widened path crosses is of the right kinds |
| ClaimSelection.WholeCredentialRefused | dcql/meta.go:128-166 | a credential, presented whole, that the Wallet selects from and the Verifier refuses |
| ClaimSelection.SelectClaimPaths | dcql/meta.go:235-274 | the loop over claim_sets options, with its memo: without options it succeeds exactly when every claim is had and else blames one that is not, absent or with another value; with them it gives the paths of the first option all of whose claims are had, each id naming the last claim with it |
| ClaimSelection.ClaimSetOptionPaths | dcql/meta.go:276-295 | one option's paths, or the first claim of it not present, however much the memo remembers |
| ClaimSelection.ReadCredentialTypes | dcql/meta.go:315-328 | the types are vct and the strings of aka_vcts, in order, without the empty string |
| RevocationLists.ChainPasses | certrevocation/certrevocation.go:155-192 | a chain passes if and only if every link has a usable list from its issuer and no usable list names its certificate, and the anchor, when not self-signed, passes against the first configured issuer that issued it; so whatever the order of lists |
| RevocationLists.ChainVerdictAnswers | certrevocation/certrevocation.go:155-218 | which error a chain gets: the first link that does not pass, or else the anchor against the first configured issuer that issued it, is revoked, with its serial and issuer, exactly when a usable list names it, and has no current CRL exactly when no list is usable |
| RevocationLists.AnchorVerdictMeaning | certrevocation/certrevocation.go:183-192 | which issuer decides an anchor's verdict, and when it passes |
| RevocationLists.NamedByKey | certrevocation/listindex.go:80-90 | looking a serial up by its key finds exactly the lists that name it, negative serials included |
| RevocationLists.Checker.CheckRevocation | certrevocation/certrevocation.go:155-181 | in every state of the index the answer is that of the first link that does not pass, or of the anchor: Revoked with that serial and issuer if and only if some usable list names it, NoCurrentCrl if and only if none is usable |
| RevocationLists.Checker.CheckAgainstCrls | certrevocation/certrevocation.go:201-218 | one link: Revoked with its serial and issuer if and only if some usable list names it, NoCurrentCrl if and only if no list is usable, otherwise not revoked |
| RevocationLists.Checker.CrlUsableFor | certrevocation/certrevocation.go:220-233 | a list is usable if and only if its name and signature are the issuer's, now is from five minutes before thisUpdate until before nextUpdate, which it must have, and it is complete, direct and without a critical extension not understood; with the memoised form and signature |
| RevocationLists.Checker.Revokes | certrevocation/certrevocation.go:235-246 | the indexed look-up finds exactly whether an entry carries the serial |
| RevocationLists.Checker.SignedBy | certrevocation/listindex.go:92-111 | the memo of verified keys answers as verifying would, and never keeps another list's answer |
| RevocationLists.Checker.IndexOf | certrevocation/listindex.go:42-71 | the index found or built is that of this list, even at a reused address |
| RevocationLists.Checker.CheckAnchor | certrevocation/certrevocation.go:183-192 | an anchor has the answer of the first configured issuer that issued it, by the lists usable for that issuer, and no current CRL where none did |
| RevocationLists.Checker.Forget | certrevocation/listindex.go:73-78 | dropping an index at any time changes no verdict |
| CrlRefresher.RunIsSafe | certrevocation/refresher.go:492-576 | in every interleaving, with 304s answered from stale snapshots: each issuer's floor is the newest thisUpdate and the highest number of the persisted lists it signed and its lists accepted since; every accepted list is at or above all of those before it; and every held list comes from its URL's issuer and is at or below its floor |
| CrlRefresher.FloorsFromGreatest | certrevocation/refresher.go:317-330 | persisted lists give each issuer the newest thisUpdate and highest number of those it signed |
| CrlRefresher.Raise | certrevocation/refresher.go:262-272 | raising a floor gives the least one at or above it and the list |
| CrlRefresher.LastIsAcceptedAgain | certrevocation/refresher.go:448-475 | in every run the last list accepted of an issuer is accepted again while usable, at any URL bound to it: by a 304 too, which refreshes what is held and moves no floor |
| CrlRefresher.HeldIsLastAccepted | certrevocation/refresher.go:492-530 | in every run what a URL holds is the last list accepted from it |
| CrlRefresher.AcceptedNeverOlder | certrevocation/refresher.go:511-530 | OnAccept hears each issuer key's lists with non-decreasing thisUpdate and, among numbered ones, non-decreasing CRL number |
| CrlRefresher.AcceptedIffUsable | certrevocation/refresher.go:532-576 | a list is accepted if and only if the issuer its URL is bound to, or at an unbound one the first configured issuer that signed it, lets a check use it now, its thisUpdate and number are not below that issuer's floor, and it replaces no other issuer's unexpired list at an unbound URL |
| CrlRefresher.KeptStaysUsable | certrevocation/refresher.go:532-576 | a kept list is one the revocation check can use for its signer until nextUpdate |
| CrlRefresher.BoundHoldsOwn | certrevocation/refresher.go:111-137 | a URL bound to an issuer never holds another issuer's list |
| CrlRefresher.NeverRollsBack | certrevocation/refresher.go:548-576 | a list that replaces one of the same issuer is not older |
| CrlRefresher.StepsKeepIssuer | certrevocation/refresher.go:552-576 | in every run, whatever the passes under way began with, a step changes the issuer of an unbound URL's list only once that list has expired |
| CrlRefresher.FloorsDontInterfere | certrevocation/refresher.go:552-576 | for a bound URL acceptance depends on that issuer key's floor and the clock alone |
| CrlRefresher.RestartKeepsFloor | certrevocation/refresher.go:317-330 | restarting from the last OnAccept list of each issuer restores a floor's thisUpdate always, and its number if and only if that list is numbered or none was |
| CrlRefresher.RestartForgetsNumber | certrevocation/refresher.go:317-321 | a run, a numbered and then an unnumbered list accepted, after whose restart a lower-numbered list is accepted that was refused before |
| CrlRefresher.Refresher.RefreshOne | certrevocation/refresher.go:492-509 | a pass alone is the two steps of a run; it keeps the CRL of a 2xx answer, or the held list on a 304 to a fetch that sent validators, which the answer's replace; and anything else is a failed fetch |
| CrlRefresher.Refresher.AcceptFetched | certrevocation/refresher.go:511-576 | a list is kept exactly when acceptable, with the clock and its validators; that one issuer's floor becomes the later thisUpdate and the higher number, and no other changes; a refusal changes nothing and says why |
| CrlRefresher.Refresher.constructor | certrevocation/refresher.go:276-324 | starts with the floors the persisted lists give, each its own signer's |
| RefreshSchedule.Run | certrevocation/refresher.go:673-697 | in every run each wait is bounded: after success over 4/5 of the schedule's delay, the time to the first URL due between a minute and MaxInterval, after failure under the backoff and at least 15 s, and it ends before the earliest nextUpdate unless that is under a minute away; jitter is asked for positive bounds only |
| RefreshSchedule.RetryDelay | certrevocation/refresher.go:736-744 | half the backoff and up to as much again; the shift never overflows |
| RefreshSchedule.BackoffMonotone | certrevocation/refresher.go:736-744 | the backoff starts at 30 s, doubles with each failure up to 30 min, and never falls as failures go on |
| RefreshSchedule.FailuresCounted | certrevocation/refresher.go:673-690 | the failures counted are the failed passes since the last that succeeded |
| RefreshSchedule.RefreshDelay | certrevocation/refresher.go:721-734 | at most the time to halfway between any list's fetch and its nextUpdate, and that time for some list unless it is a bound; a minute where some URL holds nothing; never under a minute nor over MaxInterval |
| DeferredTransactions.DecidedAndDeliveredOnce | issuer/deferral.go:192-272 | over every interleaving a transaction leaves pending at most once and its credentials are delivered to at most one poll |
| DeferredTransactions.DeliveredIsTheWin | issuer/deferred_credential_endpoint.go:178-187 | what a poll delivers is what the single winning issue saved, one credential per binding key the request established |
| DeferredTransactions.NeverDeniedAndDelivered | issuer/deferral.go:257-272 | no run denies a transaction, or answers a poll so, and issues or delivers it, in any order |
| DeferredTransactions.HowAnIssueEnds | issuer/deferral.go:228-240 | an issue under way wins if and only if the transaction is undecided and has not lapsed; otherwise it is told resolved, or unknown exactly when the credentials were delivered, and changes nothing |
| DeferredTransactions.LosingIssueMayFindItUnknown | issuer/deferral.go:180-192 | for any request and a token that may collect, a run in which a losing issue is told the transaction is unknown |
| DeferredTransactions.CollectsForItsHolder | issuer/deferral.go:444-464 | in every run credentials are collected only where the token is of the creation's client and subject and grants its configuration, where it has them, from the issuer it was created by, between decision and delivery |
| DeferredTransactions.HowAPollIsAnswered | issuer/deferred_credential_endpoint.go:143-189 | in every run, both ways: a poll is told there is no such transaction if and only if it is delivered, expired or not the holder's; the holder is told it is pending until decided, denied ever after a denial, and after the win is handed the batch that won |
| DeferredTransactions.HowACollectingPollEnds | issuer/deferred_credential_endpoint.go:178-187 | of polls that race to collect, the first to come back gets the batch and every later one is told there is no such transaction |
| DeferredTransactions.RefusalsChangeNothing | issuer/deferral.go:428-436 | a refused action, a lost issue and a poll that delivers nothing leave every transaction as it was |
| DeferredTransactions.Store.Poll | issuer/deferred_credential_endpoint.go:143-189 | which answer a poll gets, by the record's owner, client, subject, configuration, expiry and status; only an issued transaction is invalidated |
| DeferredTransactions.Store.Update | issuer/deferred_credential_store.go:155-160 | loads, changes and saves in one step; the closure's error saves nothing |
| DeferredTransactions.Store.Invalidate | issuer/deferred_credential_store.go:138-150 | retires a record once, dropping its credentials; unknown after that |
| DeferredTransactions.Store.Create | issuer/deferred_credential_store.go:152-153 | saves under an unused transaction_id only, one invalidated included |
| DeferredTransactions.Store.SaveIssued | issuer/deferral.go:228-240 | saves the batch only for a pending, unexpired transaction of this issuer's, and restarts an expiry that was set |
| DeferredTransactions.Store.DenyPending | issuer/deferral.go:261-272 | denies exactly a pending, unexpired transaction of this issuer's |
| DeferredTransactions.Store.AbandonDeferral | issuer/deferral.go:393-400 | denies a pending transaction of this issuer's, expired or not, and nothing else |
| DeferredTransactions.Store.PendingKeys | issuer/deferral.go:192-207 | the keys to issue for, or why not: unknown unless this issuer's, resolved unless pending and unexpired, not deferred without a supported configuration and keys |
| DeferredTrust.DecidedByTheWorst | issuer/deferral.go:209-217 | issued, left pending or denied as the worst of ok, undecided and untrusted over all attestations and proof keys, if and only if the settling errors don't wrap the issuer's own sentinels in the stated ways |
| DeferredTrust.DecidedBy | issuer/deferral.go:284-387 | then credentials are issued if and only if every attestation verifies with a good status and every header resolves to its key, and denied if and only if one is rejected for good or the headers cannot be matched or resolved |
| DeferredTrust.DecidedWhateverTheOrder | issuer/deferral.go:284-294 | with dependencies whose errors wrap none of those, always so, and whatever the order of attestations and keys, with headers or without |
| DeferredTrust.WrappedVerdictDenies | issuer/deferral.go:209-217 | a status error wrapping ErrDeferredKeyAttestation denies what should stay pending |
| DeferredTrust.RecheckKeyAttestations | issuer/deferral.go:360-387 | every attestation is checked: the first untrusted one's error, else the first undecided one's, marked undecided |
| DeferredTrust.RecheckProofKeys | issuer/deferral.go:304-339 | the same for keys resolved by header, with the mismatched, missing and malformed headers that are untrusted |
| DeferredTrust.Decide | issuer/deferral.go:209-217 | the code's route through errors.Is and errors.Join is the decision the lemmas are about |
| DeferredTrust.RecordOf | issuer/deferral.go:94-114 | the record keeps every key, each attestation once, and headers at their keys' indexes or none at all |
| Encodings.DecodesExactly | issuer/stateless_nonce.go:106-113 | strict base64url decoding gives b for exactly the strings that are b's encoding once CR and LF are removed |
| Encodings.OpenUndoesIssue | issuer/stateless_nonce.go:81-125 | opening a stateless c_nonce gives the expiry it was issued with, to the second, under any key set with its key |
| Encodings.OpensOnlyIssued | issuer/stateless_nonce.go:106-125 | a c_nonce that opens, without line breaks, is one issued with a key of the set for this owner |
| Encodings.TagPreimageInjective | issuer/stateless_nonce.go:91-98 | no two owners and bodies share a tag's pre-image |
| Encodings.KeyPreimageInjective | issuer/pre_authorized_code_key.go:18-25 | no two owners and codes share a key's length-prefixed pre-image |
| Encodings.WriteKeyPreimage | issuer/pre_authorized_code_key.go:18-25 | writing part after part gives that pre-image |
| Encodings.SerialKeyInjective | certrevocation/listindex.go:80-90 | no two integers, of either sign, share a serial key |
| Encodings.StoredNeverStateless | issuer/stateless_nonce.go:173-177 | a c_nonce the store holds never has a stateless one's form |
| Nonces.StatelessAcceptedOnce | issuer/stateless_nonce.go:130-177 | over every run of replicas and sweeps each stateless c_nonce string is accepted at most once, with no sweep more than five minutes ahead of a replica's clock or of the time a request still to be recorded was judged at |
| Nonces.PromptAcceptedOnce | issuer/stateless_nonce.go:130-171 | the same with no sweep more than five minutes ahead of a replica's clock and every request recorded before its replica's clock passes the c_nonce's expiry |
| Nonces.OnceIffWithinMargin | issuer/stateless_nonce.go:134-171 | for a c_nonce some replica accepts: every run with sweeps so far ahead of the clocks and requests recorded so late accepts it at most once if and only if the two together are within the margin |
| Nonces.SlowRequestAcceptedAgain | issuer/stateless_nonce.go:134-158 | beyond that, in any deployment, a run in which it is accepted twice |
| Nonces.OncePerNonceIff | issuer/stateless_nonce.go:104-117 | for every deployment, each c_nonce's bytes are accepted at most once in every run with timely sweeps if and only if no two strings the replicas are asked to check, and accept, differ in line breaks alone |
| Nonces.SameBytesDifferInLineBreaks | issuer/stateless_nonce.go:104-117 | in every such run two strings accepted that carry the same bytes differ in line breaks alone, and one has some |
| Nonces.OnceWithoutLineBreaks | issuer/stateless_nonce.go:104-117 | each c_nonce is accepted at most once, by its bytes, in every such run where no string checked has a line break |
| Nonces.LineBreakAcceptedAgain | issuer/stateless_nonce.go:134-158 | whatever c_nonce a replica accepts it accepts a second time, with the same bytes, as the string with a line break after it |
| Nonces.AcceptanceWindow | issuer/stateless_nonce.go:134-146 | a c_nonce issued at t is accepted exactly from a lifetime before floor(t + lifetime) until then, on the checking replica's clock |
| Nonces.StoredConsumedOnce | issuer/nonce.go:63-75 | a stored c_nonce is consumed at most as often as issued, whatever the clocks |
| Nonces.ConsumeNeverReturnsSpent | issuer/stateless_nonce.go:157-166 | Consume, for an owner without a space, never returns the record of a spent c_nonce |
| Nonces.OneStringPerNonce | issuer/stateless_nonce.go:106-113 | of strings without line breaks, one alone carries a c_nonce's bytes; two carry the same exactly when they differ in line breaks |
| Nonces.ConsumeNonce | issuer/proofs.go:684-709 | a stateless c_nonce is accepted if and only if it opens, now is within a lifetime before its expiry and it is unrecorded, and is then recorded as spent until five minutes after its expiry; a stored one if and only if it is this issuer's and unexpired, and it is removed even if expired; nothing else changes |
| Nonces.StepsAreVisits | issuer/proofs.go:684-709 | the steps of a run are those of these operations: same acceptance and same records |
| Nonces.AcceptedIsUsed | issuer/proofs.go:684-709 | what one replica accepted no replica accepts on the records that leaves |
| Nonces.IssueNonce | issuer/nonce_endpoint.go:70-87 | a stateless c_nonce writes nothing; a stored one is recorded with its owner and expiry, unless recorded already; and the two forms never meet |
| Nonces.Store.Consume | issuer/nonce.go:66-74 | retires and returns a record of this owner's, leaving another owner's |
| Nonces.Store.Spend | issuer/stateless_nonce.go:24-32 | records a c_nonce not recorded yet under any owner |
| NonceKeyRotation.LongWaitIsSafe | issuer/config.go:634-644 | in every rotation by the documented steps, with clocks at most skew apart and a wait longer than the lifetime and the skew, no replica lacks the key of a c_nonce unexpired by its clock |
| NonceKeyRotation.SafeIffLongWait | issuer/config.go:634-644 | for any deployment whose clocks are furthest apart by a skew, no run has a replica lack the key of a c_nonce unexpired by its clock if and only if the wait is longer than the lifetime and that skew |
| NonceKeyRotation.ShortWaitIsNot | issuer/config.go:634-644 | otherwise a run in which one does, for any whole second at which the last c_nonce with the old key expires |
| PreAuthorizedCodes.RedeemedOnceWithinLimit | issuer/pre_authorized_code_store.go:133-188 | over every run a code is redeemed at most once and at most the limit's wrong Transaction Codes are compared |
| PreAuthorizedCodes.HonouredIff | issuer/pre_authorized_code_endpoint.go:461-500 | a redemption succeeds if and only if the code waits under its limit, the Transaction Code is right and its record is this issuer's, unexpired and allows what is asked for; it retires the code and returns one detail for each configuration, with a drawn identifier |
| PreAuthorizedCodes.HowARedemptionIsRefused | issuer/pre_authorized_code_store.go:133-188 | and any other is refused for the first of: no such code, the limit, a missing or unexpected or wrong Transaction Code, the owner, the expiry, what is asked for; with the codes it leaves |
| PreAuthorizedCodes.GuessesAreNumbered | issuer/pre_authorized_code_store.go:167-186 | each wrong guess gets the next number, and the code is retired exactly by the one that reaches the limit |
| PreAuthorizedCodes.OtherRefusalsChangeNothing | issuer/pre_authorized_code_store.go:133-165 | a missing or unexpected tx_code, a refused record and a read-back leave the code redeemable with no attempt counted |
| PreAuthorizedCodes.Redeem | issuer/pre_authorized_code_endpoint.go:461-591 | the outcome and the codes left, however often the store rolled its step back and whatever it held then: the details returned are those the last call of accept minted |
| PreAuthorizedCodes.Store.Consume | issuer/pre_authorized_code_store.go:133-188 | the atomic step: checks in order, guesses counted, accept asked last, and the code retired only if it accepts |
| PreAuthorizedCodes.Redemption.Accept | issuer/pre_authorized_code_endpoint.go:537-552 | the callback captures what this call minted or refused, the owner being checked first |
| PreAuthorizedCodes.AcceptedIff | issuer/pre_authorized_code_endpoint.go:636-668 | a record is accepted if and only if it is this issuer's, unexpired, holds every configuration asked for itself or by its scope, and names supported ones; then one detail is minted for each; and each refusal says which of these fails |
| PreAuthorizedCodes.MintedResolves | issuer/pre_authorized_code_endpoint.go:676-697 | a minted identifier resolves, at the Credential Endpoint, to the configuration it was minted for |
| PreAuthorizedCodes.MintedNeedsIdentifier | issuer/credential_endpoint.go:555-574 | and that configuration can then not be asked for by its own id |
| PreAuthorizedCodes.RequestedConfigurations | issuer/pre_authorized_code_endpoint.go:599-628 | succeeds exactly when each detail is an openid_credential for this issuer, of a supported configuration asked for once, without identifiers; or the first detail with a problem, and which |
| PreAuthorizedCodes.StoreCode | issuer/pre_authorized_offer.go:165-191 | a stored code is as new after the read-back; a store that lost its owner is refused and the code retired |
| AuthorizationDetails.NeverWidensIffInOrder | issuer/credential_endpoint.go:482-592 | no narrowing of a token gets a request that a detail grants resolved otherwise, or with more claims, than the token itself does, if and only if its details are in order |
| AuthorizationDetails.NarrowingNeverWidens | issuer/credential_endpoint.go:482-592 | so it is for a token with orderly details: same configuration, with every claim the narrowed one lets the request have |
| AuthorizationDetails.NarrowingIff | authorization_details_rar.go:124-180 | an object narrows another if and only if it has its type and configuration and of locations, claims and identifiers each keeps some members, any of them, or has none where the other has none; a grant likewise, but may add identifiers where none were requested |
| AuthorizationDetails.NarrowingIsGrantingNoMore | authorization_details_rar.go:137-180 | of well-formed objects of this type, one narrows another if and only if at no issuer it gets a request more than the other does, except that, as documented, one listing claims where the other asks for all is refused |
| AuthorizationDetails.ListingClaimsIsRefused | authorization_details_rar.go:36-43 | for any object that asks for every claim, one that gets no more and is refused |
| AuthorizationDetails.ResolveIs | issuer/credential_endpoint.go:482-592 | what a Credential Request gets under a token, each way it is put, by the first detail of this issuer's that lists its identifier or names its configuration, or by the scope; and each refusal |
| AuthorizationDetails.OrderlyIsInOrder | issuer/credential_endpoint.go:555-592 | details of which those of one configuration all have identifiers or none, and no identifier is shared between configurations, are in order |
| AuthorizationDetails.InOrderNotOrderly | issuer/credential_endpoint.go:555-574 | but details can be in order without that, the first deciding |
| AuthorizationDetails.ScopeWithinIff | issuer/credential_endpoint.go:555-574 | a request that a scope alone grants a narrowed token gets no more than under the wider one if and only if the wider has no detail for the configuration, or the first has no identifiers and some one asks for every claim |
| AuthorizationDetails.NarrowingIsAPreorder | authorization_details_rar.go:117-168 | narrowing, which NarrowingIff says exactly, is reflexive and transitive, and what narrows a grant is a grant of the request |
| AuthorizationDetails.NarrowedAgainStaysWithin | authorization_details_rar.go:133-168 | however often a token was narrowed, what its details grant stays within the grant, its details in order |
| AuthorizationDetails.TokenNarrowingTransitive | authorization_details_rar.go:133-168 | a token narrowed again and again narrows the grant |
| AuthorizationDetails.OnePerConfigurationIsOrderly | issuer/credential_endpoint.go:555-592 | one detail per configuration and every identifier in one detail make details orderly |
| AuthorizationDetails.ScopeWidens | issuer/credential_endpoint.go:555-574 | a scope left on a narrowed token asks for every claim of a configuration it gave up |
| AuthorizationDetails.SeveralDetailsWiden | issuer/credential_endpoint.go:555-574 | with two details for a configuration, dropping the first lets a request through |
| AuthorizationDetails.SharedIdentifierSwitches | issuer/credential_endpoint.go:582-592 | with a shared identifier, dropping a detail switches its configuration |
| AuthorizationDetails.AuthorizedClaims | issuer/credential_endpoint.go:883-898 | the claims that some detail granting the request lists, or every claim if one lists none or none grants it |
| AuthorizationDetails.Validate | authorization_details_rar.go:84-115 | accepts exactly details with a configuration, no list empty, nothing empty in locations or identifiers, no identifier twice, and claims of valid paths, none twice |
| AuthorizationDetails.ValidateClaimsDescriptions | metadata.go:218-235 | accepts exactly descriptions whose paths are not empty, hold no malformed element and are each described once |
| CredentialProofs.ResolveProofKeys | issuer/credential_endpoint.go:616-633 | succeeds exactly when every proof is accepted and the keys are distinct and within batch_size; and at most the first proof's nonce is consumed, whatever the outcome |
| CredentialProofs.RequestAcceptedIff | issuer/proofs.go:38-95 | which requests are accepted: within batch_size, each jwt proof verified with the one nonce, its key attestation a JWT, there where required and good for its key where verified; or one key attestation, by the nonce or recent |
| CredentialProofs.ResolveJwtProofKeys | issuer/proofs.go:38-95 | the loop with its shared nonce, de-duplication and running cap accepts exactly what is accepted proof by proof |
| CredentialProofs.ResolveAttestationProofKeys | issuer/proofs.go:494-541 | exactly one key attestation, its nonce consumed before its status is asked for |
| CredentialProofs.KeysAreProvedOrAttested | issuer/proofs.go:38-95 | between one key and batch_size of them, each proved by its own signature or attested by an attestation submitted with it, and every proof's own key among them |
| CredentialProofs.KeysAreExactly | issuer/proofs.go:38-95 | the keys are exactly the proofs' own and those their key attestations attest |
| CredentialProofs.OneNonceForAll | issuer/proofs.go:203-221 | with a Nonce Endpoint every proof carries the one nonce consumed, which is not accepted again |
| CredentialProofs.CheckProofNonce | issuer/proofs.go:203-221 | the first proof's nonce is consumed and every other must equal it |
| CredentialProofs.CheckDistinctKeys | issuer/credential_endpoint.go:639-648 | refuses exactly a batch that proves one key twice |
| CredentialProofs.IssueBatch | issuer/credential_endpoint.go:653-702 | one credential per key, bound to it, of the format asked for, no two with one status reference; or the first instance at fault and no credential; and a deployment failure only where a callback failed |
| IdentifierLists.ParseUndoesIssue | identifierlist/token.go:161-197 | reading the identifiers IssueToken encoded gives them sorted and each once |
| IdentifierLists.IssuedAlike | identifierlist/token.go:179-197 | the same identifiers in any order, repeated or not, give the same bytes |
| IdentifierLists.IssuedInOrder | identifierlist/token.go:179-197 | the map signed holds each identifier once, shorter ones first and then in the order of their bytes, as core deterministic encoding has it (section 4.2.1 of RFC 8949) |
| IdentifierLists.HeadIs | identifierlist/token.go:179-197 | an item's head, byte by byte, in its shortest form (section 3 of RFC 8949) |
| IdentifierLists.ParseHeadOfAnyWidth | identifierlist/token.go:552-576 | a length is read in any width that holds it |
| IdentifierLists.IssueIdentifiers | identifierlist/token.go:161-226 | refuses an empty identifier, too many and a token over the limit, and encodes all else |
| IdentifierLists.ParsedIsSorted | identifierlist/token.go:552-576 | what is read back is sorted, repeats nothing, has no empty identifier and at most 2^20 of them |
| IdentifierLists.Listed | identifierlist/token.go:130-135 | the binary search finds exactly the identifiers of a sorted list |
| IdentifierLists.Contains | identifierlist/token.go:124-128 | the linear search, with the same answer |
| IdentifierListChecks.MemoAgrees | identifierlist/checker.go:117-163 | a check from the memo finds what a check in full of the same token would at that instant, error or claims, exactly but for a token over Options.MaxTokenBytes; always, for a checker with one limit |
| IdentifierListChecks.FetchedIff | identifierlist/token.go:402-467 | a token is accepted in full if and only if it is within the limits, its chain is trusted for the reference at that time and it is signed under it, and it is a list for the reference's URI, from a skew before iat and nbf until exp and no longer than maxAge after iat |
| IdentifierListChecks.MemoIgnoresOptionsLimit | identifierlist/checker.go:142-152 | a checker whose memo check passes and whose full check refuses |
| IdentifierListChecks.Cache.CheckCached | identifierlist/checker.go:117-163 | in every state of a shared cache, no failure being kept: a list kept passes from its memo, or one is fetched, checked in full and kept; a check that would pass on what is fetched passes, and with one limit a check passes only as one in full of the token kept would; with an error, revoked |

## Left out

- HTTP handlers, wire formats, redirects, JSON and metadata decoding: plumbing around the decisions modelled.
- Signature, HMAC, hash, X.509 and chain verification: parameters. A pre-authorized code's key and a Transaction Code's hash are taken as opaque, as hashing them injectively would give.
- Nonces.StatelessAcceptedOnce: is about a c_nonce's string; `OncePerNonceIff` says when the same holds of its bytes, for which the code needs strings without line breaks.
- IdentifierListChecks.Cache.CheckCached: does not model kept failures, which for a while answer a check in place of a fetch, fetches that concurrent checks share, nor revalidating an expired entry.
- Store outages and timeouts, which change nothing in the contracts and are answered as server errors.
- `sqlstore`, `storage`, `statuslist` and `internal/statuscache` internals: the stores are their documented contracts; the cache decides when a kept list is current by a parameter.
- Audit events, notification ids other than the one a record keeps, and the client authentication of Token Requests.
- `resolvePending`, which runs a deployment's Resolve once at a time per transaction within one handler: without it, any number of issues race, which is what is modelled.
- Garbage collection and weak pointers: an index may be dropped at any time.
- Secrecy, guessing and timing.
- AnsweredSets.SortedIds: does not model the order of the ids, which affects only which error is reported.
- Mdoc claims paths and values, and the conversion of CBOR values to JSON kinds.
- Numbers in `values` are reals: float64 rounding is not modelled.
- DeferredTransactions.Store.Create: a deployment that resolves records in the store by itself is not modelled.
- PreAuthorizedCodes.Store.Issue: runs issue no code twice, the codes being random.
- Nonces.ConsumeNonce: does not say which error a refused c_nonce gets.
- CredentialProofs.ResolveProofKeys: does not say which error a request that fails several checks gets.
- CredentialProofs.IssueBatch: deployment callbacks return new instances instead of changing shared ones, so aliasing among a batch's maps is not modelled.
- NonceKeyRotation: clocks differ by fixed offsets and keys are two; `Nonces` covers clocks that run unevenly.
- IdentifierLists.ParseUndoesIssue: reading is modelled for definite-length items and empty IdentifierInfo maps; the other CWT claims are taken as parsed.
- RefreshSchedule: `Run` ending on a cancelled context, and `Lists` when no list is held, are not modelled.
- NewRefresher's validation of its configuration is the condition `Config.Valid`.
- `checkStatusClaim`, `checkInstanceType` and `checkMandatoryClaims` of a prepared instance: flat case lists.
